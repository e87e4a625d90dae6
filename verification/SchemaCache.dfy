/**
 What a session has loaded of a database's schema (schema.rs): three levels of maps in the
 program, one map keyed by path here. A load's generation says whether its answer still counts.
 */
module SchemaCache {
  import opened Basics

  datatype Catalog = Catalog(name: string, isDefault: bool, isSystem: bool)

  datatype ObjectKind = Table | View | MaterializedView

  datatype DbObject = DbObject(catalog: string, name: string, kind: ObjectKind)

  datatype Column = Column(
    name: string, dataType: string, nullable: bool, primaryKey: bool,
    references: Option<(string, string)>, default: Option<string>, ordinal: nat
  )

  datatype Index = Index(name: string, columns: seq<string>, unique: bool)

  datatype Details = Details(columns: seq<Column>, indexes: seq<Index>)

  datatype SchemaPath = CatalogsPath | ObjectsPath(catalog: string) | DetailsPath(catalog: string, name: string)

  datatype Children =
    | CatalogList(catalogs: seq<Catalog>)
    | ObjectList(objects: seq<DbObject>)
    | ObjectDetails(details: Details)

  /** What a load came to. */
  datatype Outcome = Loaded(children: Children) | Failed(error: string)

  datatype Entry<T> = Entry(value: Option<T>, loading: Option<nat>, error: Option<string>)

  /** `ancestor` itself, or a path within it. */
  predicate IsWithin(path: SchemaPath, ancestor: SchemaPath) {
    match ancestor
    case CatalogsPath => true
    case ObjectsPath(a) => !path.CatalogsPath? && path.catalog == a
    case DetailsPath(a, x) => path == ancestor
  }

  /** The names that lead to a path from the top. */
  function NamesTo(path: SchemaPath): seq<string> {
    match path
    case CatalogsPath => []
    case ObjectsPath(catalog) => [catalog]
    case DetailsPath(catalog, name) => [catalog, name]
  }

  /** A path is within another exactly when its names go on from the other's. */
  lemma WithinGoesOn(path: SchemaPath, ancestor: SchemaPath)
    ensures IsWithin(path, ancestor) <==> NamesTo(ancestor) <= NamesTo(path)
  {
    var a, p := NamesTo(ancestor), NamesTo(path);
    if IsWithin(path, ancestor) {
      assert p[..|a|] == a;
    }
    if a <= p && a != [] {
      assert a[0] == p[0] && ancestor.catalog == path.catalog;
      assert |a| == 2 ==> a[1] == p[1] && ancestor.name == path.name;
    }
  }

  /** Whether `outcome` is of the shape that loading `path` gives. */
  predicate Fits(path: SchemaPath, outcome: Outcome) {
    match outcome
    case Failed(_) => true
    case Loaded(CatalogList(_)) => path.CatalogsPath?
    case Loaded(ObjectList(_)) => path.ObjectsPath?
    case Loaded(ObjectDetails(_)) => path.DetailsPath?
  }

  // The flat cache.

  datatype Flat = Flat(generation: nat, nodes: imap<SchemaPath, Entry<Children>>)

  const Empty := Flat(0, imap[])

  ghost function Begun(f: Flat, path: SchemaPath): Flat {
    var before := if path in f.nodes then Some(f.nodes[path]) else None;
    Flat(f.generation + 1, f.nodes[path := Started(before, f.generation + 1)])
  }

  /** Whether the answer `outcome` numbered `generation` is still awaited at `path`. */
  ghost predicate Awaited(f: Flat, path: SchemaPath, generation: nat, outcome: Outcome) {
    Fits(path, outcome) && path in f.nodes && f.nodes[path].loading == Some(generation)
  }

  /** What `outcome` makes of an entry: a failure keeps the value loaded before. */
  function Answered(entry: Entry<Children>, outcome: Outcome): Entry<Children> {
    match outcome
    case Failed(e) => entry.(loading := None, error := Some(e))
    case Loaded(children) => Entry(Some(children), None, None)
  }

  ghost function Settled(f: Flat, path: SchemaPath, generation: nat, outcome: Outcome): Flat {
    if !Awaited(f, path, generation, outcome) then f
    else
      var kept := if outcome.Loaded? then Without(f, path) else f;
      f.(nodes := kept.nodes[path := Answered(f.nodes[path], outcome)])
  }

  /** All of `f` but `path` and what lies under it. */
  ghost function Without(f: Flat, path: SchemaPath): Flat {
    f.(nodes := imap q | q in f.nodes && !IsWithin(q, path) :: f.nodes[q])
  }

  // The cache of the program.

  function Widen<T>(entry: Entry<T>, wrap: T -> Children): Entry<Children> {
    Entry(if entry.value.Some? then Some(wrap(entry.value.value)) else None, entry.loading, entry.error)
  }

  /** An entry once a load of it has begun: what was loaded before stays. */
  function Started<T>(entry: Option<Entry<T>>, generation: nat): Entry<T> {
    Entry(if entry.Some? then entry.value.value else None, Some(generation), None)
  }

  function Keep<T>(entry: Entry<T>, error: string): Entry<T> {
    entry.(loading := None, error := Some(error))
  }

  class SchemaCache {
    var generation: nat
    var catalogs: Option<Entry<seq<Catalog>>>
    var objects: map<string, Entry<seq<DbObject>>>
    var details: map<string, map<string, Entry<Details>>>

    /** What the cache knows of `path`. */
    ghost function At(path: SchemaPath): Option<Entry<Children>>
      reads this
    {
      match path
      case CatalogsPath => if catalogs.Some? then Some(Widen(catalogs.value, v => CatalogList(v))) else None
      case ObjectsPath(c) => if c in objects then Some(Widen(objects[c], v => ObjectList(v))) else None
      case DetailsPath(c, o) =>
        if c in details && o in details[c] then Some(Widen(details[c][o], v => ObjectDetails(v))) else None
    }

    ghost function Contents(): Flat
      reads this
    {
      Flat(generation, imap path | At(path).Some? :: At(path).value)
    }

    constructor ()
      ensures Contents() == Empty
    {
      generation, catalogs, objects, details := 0, None, map[], map[];
    }

    method Begin(path: SchemaPath) returns (g: nat)
      modifies this
      ensures Contents() == Begun(old(Contents()), path)
      ensures g == Contents().generation
    {
      hide At;
      g := Start(path);
    }

    /** Numbers a load and marks `path` as loading, its entry made if there is none. */
    method Start(path: SchemaPath) returns (g: nat)
      modifies this
      ensures g == generation == old(generation) + 1
      ensures forall q :: At(q) == if q == path then Some(Started(old(At(q)), g)) else old(At(q))
    {
      generation := generation + 1;
      g := generation;
      match path {
        case CatalogsPath =>
          catalogs := Some(Started(catalogs, g));
        case ObjectsPath(c) =>
          objects := objects[c := Started(if c in objects then Some(objects[c]) else None, g)];
        case DetailsPath(c, o) =>
          var inside := if c in details then details[c] else map[];
          details := details[c := inside[o := Started(if o in inside then Some(inside[o]) else None, g)]];
      }
    }

    method Finish(path: SchemaPath, g: nat, outcome: Outcome) returns (applied: bool)
      modifies this
      ensures applied == Awaited(old(Contents()), path, g, outcome)
      ensures Contents() == Settled(old(Contents()), path, g, outcome)
    {
      hide At;
      applied := Apply(path, g, outcome);
      if applied && outcome.Loaded? {
        DropBelow(path);
      }
    }

    /** Takes the answer if it is awaited, and leaves what lies under `path`. */
    method Apply(path: SchemaPath, g: nat, outcome: Outcome) returns (applied: bool)
      modifies this
      ensures applied == Awaited(old(Contents()), path, g, outcome)
      ensures generation == old(generation)
      ensures forall q :: At(q) == if applied && q == path then Some(Answered(old(At(q)).value, outcome))
              else old(At(q))
    {
      match path {
        case CatalogsPath =>
          applied := Fits(path, outcome) && catalogs.Some? && catalogs.value.loading == Some(g);
          if applied {
            catalogs := Some(match outcome
                             case Failed(e) => Keep(catalogs.value, e)
                             case Loaded(children) => Entry(Some(children.catalogs), None, None));
          }
        case ObjectsPath(c) =>
          applied := Fits(path, outcome) && c in objects && objects[c].loading == Some(g);
          if applied {
            objects := objects[c := match outcome
                                    case Failed(e) => Keep(objects[c], e)
                                    case Loaded(children) => Entry(Some(children.objects), None, None)];
          }
        case DetailsPath(c, o) =>
          applied := Fits(path, outcome) && c in details && o in details[c] && details[c][o].loading == Some(g);
          if applied {
            details := details[c := details[c][o := match outcome
                                                    case Failed(e) => Keep(details[c][o], e)
                                                    case Loaded(children) =>
                                                      Entry(Some(children.details), None, None)]];
          }
      }
    }

    /** Forgets everything within `path` but `path` itself. */
    method DropBelow(path: SchemaPath)
      modifies this
      ensures generation == old(generation)
      ensures forall q :: At(q) == if IsWithin(q, path) && q != path then None else old(At(q))
    {
      match path {
        case CatalogsPath => objects, details := map[], map[];
        case ObjectsPath(c) => details := details - {c};
        case DetailsPath(_, _) =>
      }
    }

    method Invalidate(path: SchemaPath)
      modifies this
      ensures Contents() == Without(old(Contents()), path)
    {
      hide At;
      Forget(path);
    }

    method Forget(path: SchemaPath)
      modifies this
      ensures generation == old(generation)
      ensures forall q :: At(q) == if IsWithin(q, path) then None else old(At(q))
    {
      match path {
        case CatalogsPath => Clear();
        case ObjectsPath(c) => objects, details := objects - {c}, details - {c};
        case DetailsPath(c, o) =>
          if c in details {
            details := details[c := details[c] - {o}];
          }
      }
    }

    method Clear()
      modifies this
      ensures generation == old(generation) && forall q :: At(q) == None
      ensures Contents() == Without(old(Contents()), CatalogsPath)
    {
      catalogs, objects, details := None, map[], map[];
    }
  }

  // Runs.

  datatype Event =
    | Begin(path: SchemaPath)
    | Finish(path: SchemaPath, generation: nat, outcome: Outcome)
    | Invalidate(path: SchemaPath)
    | Clear

  ghost function Next(f: Flat, e: Event): Flat {
    match e
    case Begin(path) => Begun(f, path)
    case Finish(path, generation, outcome) => Settled(f, path, generation, outcome)
    case Invalidate(path) => Without(f, path)
    case Clear => Without(f, CatalogsPath)
  }

  ghost function Run(events: seq<Event>): Flat
    decreases |events|
  {
    if events == [] then Empty else Next(Run(events[..|events| - 1]), events[|events| - 1])
  }

  /** Whether the `k`th event is an answer that is applied. */
  ghost predicate AppliedAt(events: seq<Event>, k: nat)
    requires k < |events|
  {
    var e := events[k];
    e.Finish? && Awaited(Run(events[..k]), e.path, e.generation, e.outcome)
  }

  /** The `k`th event drops what was loaded at `path`: it forgets it, or loads it or something
      it lies under afresh. */
  ghost predicate Drops(events: seq<Event>, k: nat, path: SchemaPath)
    requires k < |events|
  {
    match events[k]
    case Begin(_) => false
    case Finish(q, _, outcome) => AppliedAt(events, k) && outcome.Loaded? && IsWithin(path, q)
    case Invalidate(q) => IsWithin(path, q)
    case Clear => true
  }

  /** The `k`th event ends the wait for an answer at `path`: it answers it, drops it, or asks again. */
  ghost predicate Cuts(events: seq<Event>, k: nat, path: SchemaPath)
    requires k < |events|
  {
    || Drops(events, k, path)
    || events[k] == Begin(path)
    || (events[k].Finish? && events[k].path == path && AppliedAt(events, k))
  }

  /** How many loads have begun: the number of the last one. */
  function Begins(events: seq<Event>): nat
    decreases |events|
  {
    if events == [] then 0
    else Begins(events[..|events| - 1]) + if events[|events| - 1].Begin? then 1 else 0
  }

  /** The `i`th event began the load numbered `generation` of `path`, and nothing has cut it off since. */
  ghost predicate Live(events: seq<Event>, i: nat, path: SchemaPath, generation: nat) {
    && i < |events| && events[i] == Begin(path)
    && Begins(events[..i + 1]) == generation
    && forall k | i < k < |events| :: !Cuts(events, k, path)
  }

  ghost function Loading(f: Flat, path: SchemaPath): Option<nat> {
    if path in f.nodes then f.nodes[path].loading else None
  }

  ghost function Held(f: Flat, path: SchemaPath): Option<Children> {
    if path in f.nodes then f.nodes[path].value else None
  }

  lemma {:induction false} GenerationCountsBegins(events: seq<Event>)
    ensures Run(events).generation == Begins(events)
    decreases |events|
  {
    if events != [] {
      GenerationCountsBegins(events[..|events| - 1]);
    }
  }

  lemma EarlierEvents(events: seq<Event>, k: nat, path: SchemaPath)
    requires k < |events| - 1
    ensures Cuts(events[..|events| - 1], k, path) == Cuts(events, k, path)
    ensures Drops(events[..|events| - 1], k, path) == Drops(events, k, path)
    ensures AppliedAt(events[..|events| - 1], k) == AppliedAt(events, k)
  {
    hide Run;
    assert events[..|events| - 1][..k] == events[..k];
  }

  lemma LastLoading(events: seq<Event>, path: SchemaPath)
    requires events != []
    ensures var n := |events| - 1;
            Loading(Run(events), path) ==
            if events[n] == Begin(path) then Some(Begins(events))
            else if Cuts(events, n, path) then None
            else Loading(Run(events[..n]), path)
  {
    var n := |events| - 1;
    GenerationCountsBegins(events[..n]);
    assert Run(events) == Next(Run(events[..n]), events[n]);
    hide Run;
  }

  lemma LiveBefore(events: seq<Event>, i: nat, path: SchemaPath, generation: nat)
    requires i < |events| - 1
    ensures Live(events, i, path, generation)
            <==> Live(events[..|events| - 1], i, path, generation) && !Cuts(events, |events| - 1, path)
  {
    hide Cuts, Begins;
    var n := |events| - 1;
    assert events[..n][..i + 1] == events[..i + 1];
    forall k: nat | i < k < n
      ensures Cuts(events[..n], k, path) == Cuts(events, k, path)
    {
      EarlierEvents(events, k, path);
    }
    if Live(events[..n], i, path, generation) && !Cuts(events, n, path) {
      forall k | i < k < |events|
        ensures !Cuts(events, k, path)
      {
        if k < n {
          assert !Cuts(events[..n], k, path);
        }
      }
    }
  }

  /** What is awaited at a path is its latest load that nothing has cut off. */
  lemma {:induction false} LoadingIsLive(events: seq<Event>, path: SchemaPath, generation: nat)
    ensures Loading(Run(events), path) == Some(generation) <==> exists i :: Live(events, i, path, generation)
    decreases |events|
  {
    if events != [] {
      var n := |events| - 1;
      LoadingIsLive(events[..n], path, generation);
      LastLoading(events, path);
      hide Run, Loading, Begins;
      assert events[..n + 1] == events;
      forall i: nat | i < n
        ensures Live(events, i, path, generation) <==> Live(events[..n], i, path, generation) && !Cuts(events, n, path)
      {
        LiveBefore(events, i, path, generation);
      }
      if events[n] == Begin(path) && Begins(events) == generation {
        assert Live(events, n, path, generation);
      }
    }
  }

  /**
   Over any run, an answer is applied exactly when it has the right shape and carries the
   number of a load of its path that nothing has cut off since it began: no later load of the
   path, no answer to it, no invalidation of it or of what it lies under, no clearing, and no
   successful reload of what it lies under.
   */
  lemma AppliedExactlyWhenLive(events: seq<Event>, j: nat)
    requires j < |events| && events[j].Finish?
    ensures var e := events[j];
            AppliedAt(events, j)
            <==> Fits(e.path, e.outcome) && exists i :: Live(events[..j], i, e.path, e.generation)
  {
    LoadingIsLive(events[..j], events[j].path, events[j].generation);
  }

  /** The `j`th event loaded `children` at `path`, and nothing has dropped them since. */
  ghost predicate Stands(events: seq<Event>, j: nat, path: SchemaPath, children: Children) {
    && j < |events| && events[j].Finish? && AppliedAt(events, j)
    && events[j].path == path && events[j].outcome == Loaded(children)
    && forall k | j < k < |events| :: !Drops(events, k, path)
  }

  lemma LastHeld(events: seq<Event>, path: SchemaPath)
    requires events != []
    ensures var n := |events| - 1;
            Held(Run(events), path) ==
            if events[n].Finish? && AppliedAt(events, n) && events[n].path == path && events[n].outcome.Loaded?
            then Some(events[n].outcome.children)
            else if Drops(events, n, path) then None
            else Held(Run(events[..n]), path)
  {
    assert Run(events) == Next(Run(events[..|events| - 1]), events[|events| - 1]);
    hide Run;
  }

  lemma StandsBefore(events: seq<Event>, j: nat, path: SchemaPath, children: Children)
    requires j < |events| - 1
    ensures Stands(events, j, path, children)
            <==> Stands(events[..|events| - 1], j, path, children) && !Drops(events, |events| - 1, path)
  {
    hide Drops, AppliedAt;
    var n := |events| - 1;
    EarlierEvents(events, j, path);
    forall k: nat | j < k < n
      ensures Drops(events[..n], k, path) == Drops(events, k, path)
    {
      EarlierEvents(events, k, path);
    }
    if Stands(events[..n], j, path, children) && !Drops(events, n, path) {
      forall k | j < k < |events|
        ensures !Drops(events, k, path)
      {
        if k < n {
          assert !Drops(events[..n], k, path);
        }
      }
    }
  }

  /**
   Over any run, what the cache holds at a path is what the last answer applied there loaded,
   unless it was forgotten or something it lies under was loaded afresh since: a failed load
   and a load in flight leave it.
   */
  lemma {:induction false} HeldIsLastLoaded(events: seq<Event>, path: SchemaPath, children: Children)
    ensures Held(Run(events), path) == Some(children) <==> exists j :: Stands(events, j, path, children)
    decreases |events|
  {
    if events != [] {
      var n := |events| - 1;
      HeldIsLastLoaded(events[..n], path, children);
      LastHeld(events, path);
      hide Run, Held, AppliedAt;
      forall j: nat | j < n
        ensures Stands(events, j, path, children) <==> Stands(events[..n], j, path, children) && !Drops(events, n, path)
      {
        StandsBefore(events, j, path, children);
      }
      if events[n].Finish? && AppliedAt(events, n) && events[n].path == path && events[n].outcome == Loaded(children) {
        assert Stands(events, n, path, children);
      }
    }
  }

  ghost function ErrorAt(f: Flat, path: SchemaPath): Option<string> {
    if path in f.nodes then f.nodes[path].error else None
  }

  /** The `j`th event answered the load of `path` with `error`, and since then nothing has answered, dropped or begun
      a load of it. */
  ghost predicate Failing(events: seq<Event>, j: nat, path: SchemaPath, error: string) {
    && j < |events| && events[j].Finish? && AppliedAt(events, j)
    && events[j].path == path && events[j].outcome == Failed(error)
    && forall k | j < k < |events| :: !Cuts(events, k, path)
  }

  lemma LastError(events: seq<Event>, path: SchemaPath)
    requires events != []
    ensures var n := |events| - 1;
            ErrorAt(Run(events), path) ==
            if events[n].Finish? && AppliedAt(events, n) && events[n].path == path && events[n].outcome.Failed?
            then Some(events[n].outcome.error)
            else if Cuts(events, n, path) then None
            else ErrorAt(Run(events[..n]), path)
  {
    assert Run(events) == Next(Run(events[..|events| - 1]), events[|events| - 1]);
    hide Run;
  }

  lemma FailingBefore(events: seq<Event>, j: nat, path: SchemaPath, error: string)
    requires j < |events| - 1
    ensures Failing(events, j, path, error)
            <==> Failing(events[..|events| - 1], j, path, error) && !Cuts(events, |events| - 1, path)
  {
    hide Cuts, AppliedAt;
    var n := |events| - 1;
    EarlierEvents(events, j, path);
    forall k: nat | j < k < n
      ensures Cuts(events[..n], k, path) == Cuts(events, k, path)
    {
      EarlierEvents(events, k, path);
    }
    if Failing(events[..n], j, path, error) && !Cuts(events, n, path) {
      forall k | j < k < |events|
        ensures !Cuts(events, k, path)
      {
        if k < n {
          assert !Cuts(events[..n], k, path);
        }
      }
    }
  }

  /** Over any run, a path has an error exactly when the last answer applied there was that failure, and nothing has
      been asked or dropped there since. */
  lemma {:induction false} ErrorIsTheLast(events: seq<Event>, path: SchemaPath, error: string)
    ensures ErrorAt(Run(events), path) == Some(error) <==> exists j :: Failing(events, j, path, error)
    decreases |events|
  {
    if events != [] {
      var n := |events| - 1;
      ErrorIsTheLast(events[..n], path, error);
      LastError(events, path);
      hide Run, ErrorAt, AppliedAt, Cuts;
      forall j: nat | j < n
        ensures Failing(events, j, path, error) <==> Failing(events[..n], j, path, error) && !Cuts(events, n, path)
      {
        FailingBefore(events, j, path, error);
      }
      if events[n].Finish? && AppliedAt(events, n) && events[n].path == path && events[n].outcome == Failed(error) {
        assert Failing(events, n, path, error);
      }
      FailedCuts(events, n, path);
    }
  }

  lemma FailedCuts(events: seq<Event>, n: nat, path: SchemaPath)
    requires n < |events|
    ensures events[n].Finish? && AppliedAt(events, n) && events[n].path == path ==> Cuts(events, n, path)
  {
    hide AppliedAt;
  }
}
