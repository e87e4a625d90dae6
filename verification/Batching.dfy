/** Cutting a sequence into batches of a fixed size, the last one smaller if need be. */
module Batching {
  import opened Basics

  /** The full batches. */
  function Full<T>(s: seq<T>, size: nat): seq<seq<T>>
    requires size > 0
  {
    if |s| < size then [] else [s[..size]] + Full(s[size..], size)
  }

  /** What no full batch holds. */
  function Rest<T>(s: seq<T>, size: nat): (r: seq<T>)
    requires size > 0
    ensures |r| < size
  {
    if |s| < size then s else Rest(s[size..], size)
  }

  function Chunks<T>(s: seq<T>, size: nat): seq<seq<T>>
    requires size > 0
  {
    Full(s, size) + (if Rest(s, size) == [] then [] else [Rest(s, size)])
  }

  /** One more element either fills the batch begun or goes on with it. */
  lemma {:induction false} OneMore<T>(s: seq<T>, x: T, size: nat)
    requires size > 0
    ensures |Rest(s, size)| + 1 == size ==>
              Full(s + [x], size) == Full(s, size) + [Rest(s, size) + [x]] && Rest(s + [x], size) == []
    ensures |Rest(s, size)| + 1 < size ==>
              Full(s + [x], size) == Full(s, size) && Rest(s + [x], size) == Rest(s, size) + [x]
  {
    var t := s + [x];
    if |s| >= size {
      assert t[..size] == s[..size] && t[size..] == s[size..] + [x];
      OneMore(s[size..], x, size);
    } else if |t| == size {
      assert t[..size] == t && t[size..] == [];
    }
  }

  /** Nothing is lost, added or moved. */
  lemma {:induction false} ChunksKeepAll<T>(s: seq<T>, size: nat)
    requires size > 0
    ensures Flatten(Full(s, size)) + Rest(s, size) == s
    ensures Flatten(Chunks(s, size)) == s
  {
    if |s| >= size {
      ChunksKeepAll(s[size..], size);
      Assoc(s[..size], Flatten(Full(s[size..], size)), Rest(s[size..], size));
    }
    var last := if Rest(s, size) == [] then [] else [Rest(s, size)];
    FlattenAppend(Full(s, size), last);
    if last != [] {
      assert last[1..] == [] && Rest(s, size) + [] == Rest(s, size);
    }
  }

  /** Every batch but the last is full, and none is empty. */
  lemma {:induction false} ChunkSizes<T>(s: seq<T>, size: nat)
    requires size > 0
    ensures forall i | 0 <= i < |Full(s, size)| :: |Full(s, size)[i]| == size
    ensures forall i | 0 <= i < |Chunks(s, size)| :: 0 < |Chunks(s, size)[i]| <= size
    ensures forall i | 0 <= i < |Chunks(s, size)| - 1 :: |Chunks(s, size)[i]| == size
  {
    if |s| >= size {
      ChunkSizes(s[size..], size);
    }
  }
}
