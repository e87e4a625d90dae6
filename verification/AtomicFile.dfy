/**
 An export's temporary file (exporter.rs), next to the file it is to become, which it replaces
 once everything is in it. Whether each call on the disk works is a parameter; what the disk
 holds is a map from path to content.
 */
module AtomicFile {
  import opened Basics
  import opened Decimal

  class Disk {
    var files: map<string, string>
    const folders: set<string>

    constructor (files: map<string, string>, folders: set<string>)
      ensures this.files == files && this.folders == folders
    {
      this.files, this.folders := files, folders;
    }
  }

  /** Where a file goes: its folder, `.` if the path names none, and its name, empty if it names none. */
  datatype Target = Target(folder: string, name: string)

  datatype Refusal = IsFolder | NoFolder | NamesNoFile | CannotWrite

  datatype Opened = Opened(file: AtomicFile) | Refused(why: Refusal)

  /** Tells the temporary files of the process apart. */
  class Counter {
    var next: nat

    constructor ()
      ensures next == 0
    {
      next := 0;
    }
  }

  function PathOf(target: Target): string {
    target.folder + "/" + target.name
  }

  function TempStart(target: Target, process: nat): string {
    target.folder + "/" + "." + target.name + "." + Digits(process) + "-"
  }

  /** The name of the `n`th temporary file of the process. */
  function TempPath(target: Target, process: nat, n: nat): string {
    TempStart(target, process) + Digits(n) + ".part"
  }

  lemma TempPathsDiffer(target: Target, process: nat, m: nat, n: nat)
    requires TempPath(target, process, m) == TempPath(target, process, n)
    ensures m == n
  {
    var start := TempStart(target, process);
    var one, other := start + Digits(m), start + Digits(n);
    assert |one| == |other|;
    assert (one + ".part")[..|one|] == one && (other + ".part")[..|one|] == other;
    assert one[|start|..] == Digits(m) && other[|start|..] == Digits(n);
    DigitsRead(m);
    DigitsRead(n);
  }

  lemma TempIsNotTarget(target: Target, process: nat, n: nat)
    ensures TempPath(target, process, n) != PathOf(target)
  {
    assert |TempPath(target, process, n)| > |PathOf(target)|;
  }

  /** The temporary names from the `n`th on that are taken. */
  ghost function Taken(files: map<string, string>, target: Target, process: nat, n: nat): set<string> {
    set path | path in files && exists m :: n <= m && path == TempPath(target, process, m)
  }

  lemma OneFewerTaken(files: map<string, string>, target: Target, process: nat, n: nat)
    requires TempPath(target, process, n) in files
    ensures Taken(files, target, process, n + 1) < Taken(files, target, process, n)
  {
    var path := TempPath(target, process, n);
    assert path in Taken(files, target, process, n);
    assert path !in Taken(files, target, process, n + 1) by {
      if path in Taken(files, target, process, n + 1) {
        var m :| n + 1 <= m && path == TempPath(target, process, m);
        TempPathsDiffer(target, process, m, n);
      }
    }
  }

  class AtomicFile {
    const disk: Disk
    const target: string
    /** Empty once renamed. */
    var temp: string
    /** All that was written, while the file is open. */
    var out: Option<string>

    ghost predicate Valid()
      reads this, disk
    {
      && (out.Some? ==> temp != "" && temp in disk.files)
      && temp != target
    }

    constructor (disk: Disk, target: string, temp: string)
      requires temp != "" && temp in disk.files && temp != target
      ensures Valid() && this.disk == disk && this.target == target && this.temp == temp && out == Some("")
    {
      this.disk, this.target, this.temp, out := disk, target, temp, Some("");
    }

    /**
     Opens a file that was not there. `refuses` says where the disk lets nothing be made. A name
     that is taken is passed over, so the loop ends: the names all differ.
     */
    static method Create(disk: Disk, counter: Counter, target: Target, process: nat,
                         refuses: string -> bool) returns (r: Opened)
      modifies disk, counter
      ensures r.Refused? ==> disk.files == old(disk.files)
      ensures r.Refused? ==>
                match r.why
                case IsFolder => PathOf(target) in disk.folders
                case NoFolder => target.folder !in disk.folders
                case NamesNoFile => target.name == ""
                case CannotWrite => exists n :: old(counter.next) <= n && refuses(TempPath(target, process, n))
      ensures PathOf(target) in disk.folders || target.folder !in disk.folders || target.name == "" ==> r.Refused?
      ensures r.Opened? ==>
                && fresh(r.file) && r.file.Valid() && r.file.disk == disk && r.file.target == PathOf(target)
                  && r.file.out == Some("")
                && r.file.temp !in old(disk.files) && disk.files == old(disk.files)[r.file.temp := ""]
    {
      if PathOf(target) in disk.folders {
        return Refused(IsFolder);
      }
      if target.folder !in disk.folders {
        return Refused(NoFolder);
      }
      if target.name == "" {
        return Refused(NamesNoFile);
      }
      hide TempPath;
      while true
        invariant disk.files == old(disk.files) && old(counter.next) <= counter.next
        decreases Taken(disk.files, target, process, counter.next)
      {
        var n := counter.next;
        counter.next := n + 1;
        var temp := TempPath(target, process, n);
        if refuses(temp) {
          return Refused(CannotWrite);
        }
        if temp !in disk.files {
          disk.files := disk.files[temp := ""];
          TempIsNotTarget(target, process, n);
          var file := new AtomicFile(disk, PathOf(target), temp);
          return Opened(file);
        }
        OneFewerTaken(disk.files, target, process, n);
      }
    }

    /**
     Writes through a buffer: `spilled` is what is in the file afterwards. A write that fails
     leaves `left` in the buffer and the file, whatever that is.
     */
    method WriteAll(bytes: string, works: bool, spilled: string, left: string) returns (ok: bool)
      requires Valid()
      modifies this`out, disk
      ensures Valid() && ok == (old(out).Some? && works)
      ensures ok ==> out == Some(old(out).value + bytes)
      ensures disk.files - {temp} == old(disk.files) - {temp}
      ensures old(out).None? ==> out.None? && disk.files == old(disk.files)
    {
      if out.None? {
        return false;
      }
      disk.files := disk.files[temp := spilled];
      out := Some(if works then out.value + bytes else left);
      ok := works;
    }

    /** Puts the file in the target's place; where a step of that fails, the file is removed. */
    method Commit(flushes: bool, syncs: bool, renames: bool, removes: bool) returns (ok: bool)
      requires Valid()
      modifies this, disk
      ensures out.None? && ok == (old(out).Some? && flushes && syncs && renames)
      ensures ok ==> disk.files == old(disk.files)[target := old(out).value] - {old(temp)}
      ensures !ok ==> disk.files - {old(temp)} == old(disk.files) - {old(temp)}
      ensures !ok && removes && old(temp) != "" ==> old(temp) !in disk.files
    {
      if out.Some? && flushes {
        var content := out.value;
        out := None;
        disk.files := disk.files[temp := content];
        if syncs && renames {
          disk.files := disk.files[target := disk.files[temp]] - {temp};
          temp := "";
          return true;
        }
      }
      Drop(removes);
      ok := false;
    }

    /** What happens when the file goes before it was renamed: it removes itself. */
    method Drop(removes: bool)
      modifies this, disk
      ensures out.None?
      ensures disk.files == if removes && old(temp) != "" then old(disk.files) - {old(temp)} else old(disk.files)
    {
      out := None;
      if temp != "" && removes {
        disk.files := disk.files - {temp};
      }
    }
  }

  /** How the calls on the disk go while one file is written. */
  datatype Luck = Luck(
    refuses: string -> bool,
    /** Whether the `i`th write works. */
    writes: nat -> bool,
    /** What of it is in the file afterwards. */
    spills: nat -> string,
    left: nat -> string,
    flushes: bool, syncs: bool, renames: bool
  )

  ghost predicate AllWorks(luck: Luck, pieces: nat) {
    && (forall path :: !luck.refuses(path)) && (forall i | 0 <= i < pieces :: luck.writes(i))
    && luck.flushes && luck.syncs && luck.renames
  }

  /**
   One file from first to last: the target holds all the pieces and nothing else has changed,
   or nothing has changed at all, as long as the temporary file can be removed. It is written
   when it can be and every call works, however many temporary names are taken.
   */
  method WriteFile(disk: Disk, counter: Counter, target: Target, process: nat, pieces: seq<string>,
                   luck: Luck) returns (ok: bool)
    modifies disk, counter
    ensures disk.files == if ok then old(disk.files)[PathOf(target) := Flatten(pieces)] else old(disk.files)
    ensures (&& PathOf(target) !in disk.folders && target.folder in disk.folders && target.name != ""
             && AllWorks(luck, |pieces|))
            ==> ok
  {
    var made := AtomicFile.Create(disk, counter, target, process, luck.refuses);
    if made.Refused? {
      return false;
    }
    var file := made.file;
    ghost var temp := file.temp;
    ghost var before := old(disk.files);
    assert before[temp := ""] - {temp} == before;
    var i := 0;
    while i < |pieces|
      invariant i <= |pieces| && file.Valid() && file.temp == temp && temp != "" && temp != file.target
      invariant file.out == Some(Flatten(pieces[..i]))
      invariant disk.files - {temp} == before
      modifies file, disk
    {
      var wrote := file.WriteAll(pieces[i], luck.writes(i), luck.spills(i), luck.left(i));
      if !wrote {
        file.Drop(true);
        return false;
      }
      assert pieces[..i + 1] == pieces[..i] + [pieces[i]];
      FlattenAppend(pieces[..i], [pieces[i]]);
      assert Flatten([pieces[i]]) == pieces[i] + Flatten([]) == pieces[i];
      i := i + 1;
    }
    assert pieces[..i] == pieces;
    ghost var last := disk.files;
    ok := file.Commit(luck.flushes, luck.syncs, luck.renames, true);
    if ok {
      assert last[file.target := Flatten(pieces)] - {temp} == (last - {temp})[file.target := Flatten(pieces)];
    }
  }
}
