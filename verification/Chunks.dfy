/** `chunk` of `helpers/misc-utils.ts`. */
module Chunks {
  import opened FixedPoint

  /** `arr.slice(from, to)`, which stops at the end of the array. */
  function Slice<T>(arr: seq<T>, from: nat, to: nat): seq<T>
    requires from <= |arr| && from <= to
  {
    if to <= |arr| then arr[from..to] else arr[from..]
  }

  /** The reduction after `n` elements: a new chunk is cut at every multiple of the size. With a
      size of zero the remainder is not a number, whose negation holds, so every element cuts one. */
  function ChunksUpTo<T>(arr: seq<T>, size: nat, n: nat): seq<seq<T>>
    requires n <= |arr|
  {
    if n == 0 then []
    else
      var previous := ChunksUpTo(arr, size, n - 1);
      if size == 0 || (n - 1) % size == 0 then previous + [Slice(arr, n - 1, n - 1 + size)] else previous
  }

  function Chunk<T>(arr: seq<T>, size: nat): seq<seq<T>> { ChunksUpTo(arr, size, |arr|) }

  function Concat<T>(parts: seq<seq<T>>): seq<T> {
    if parts == [] then [] else Concat(parts[..|parts| - 1]) + parts[|parts| - 1]
  }

  lemma ConcatOneMore<T>(parts: seq<seq<T>>, part: seq<T>)
    ensures Concat(parts + [part]) == Concat(parts) + part
  {
    assert (parts + [part])[..|parts|] == parts;
  }

  function Min(a: int, b: int): int { if a <= b then a else b }

  /** Where the chunk holding element `n - 1` starts. */
  function LastCut(size: nat, n: nat): int
    requires size > 0 && n > 0
  {
    n - 1 - (n - 1) % size
  }

  lemma NextCut(size: nat, n: nat)
    requires size > 0 && n > 1
    ensures LastCut(size, n) == if (n - 1) % size == 0 then LastCut(size, n - 1) + size else LastCut(size, n - 1)
    ensures 0 <= LastCut(size, n) <= n - 1 < LastCut(size, n) + size
  {
    var q, r := (n - 2) / size, (n - 2) % size;
    DivisionFacts(n - 2, size);
    if r == size - 1 {
      Distribute(size, q, 1);
      RemainderIs(n - 1, size, q + 1, 0);
    } else {
      RemainderIs(n - 1, size, q, r + 1);
    }
  }

  lemma DivisionFacts(x: int, d: int)
    requires d > 0
    ensures x == d * (x / d) + x % d && 0 <= x % d < d
  {
  }

  lemma RemainderIs(x: int, d: int, q: int, r: int)
    requires 0 <= r < d && x == d * q + r
    ensures x % d == r
  {
    QuotientUnique(x, d, q);
    DivisionFacts(x, d);
  }

  /** The chunks cut so far cover the array up to the end of the last one; all but that one are full. */
  lemma {:induction false} ChunksCover<T>(arr: seq<T>, size: nat, n: nat)
    requires size > 0 && 0 < n <= |arr|
    ensures 0 <= LastCut(size, n) < n <= Min(|arr|, LastCut(size, n) + size)
    ensures var chunks := ChunksUpTo(arr, size, n);
      && chunks != []
      && Concat(chunks) == arr[..Min(|arr|, LastCut(size, n) + size)]
      && (forall i :: 0 <= i < |chunks| - 1 ==> |chunks[i]| == size)
      && |chunks[|chunks| - 1]| == Min(size, |arr| - LastCut(size, n))
  {
    hide Concat, LastCut, Slice;
    if n == 1 {
      FirstCut(arr, size);
      CoverStep(arr, size, [], 0);
    } else {
      ChunksCover(arr, size, n - 1);
      NextCut(size, n);
      CutMeansMultiple(size, n);
      if (n - 1) % size == 0 {
        CoverStep(arr, size, ChunksUpTo(arr, size, n - 1), n - 1);
      }
    }
  }

  lemma FirstCut<T>(arr: seq<T>, size: nat)
    requires size > 0
    ensures LastCut(size, 1) == 0 && 0 % size == 0
    ensures Concat<T>([]) == arr[..0] && ChunksUpTo(arr, size, 0) == []
  {
    RemainderIs(0, size, 0, 0);
  }

  lemma CutMeansMultiple(size: nat, n: nat)
    requires size > 0 && n > 0
    ensures LastCut(size, n) == n - 1 <==> (n - 1) % size == 0
  {
  }

  /** Cutting one more chunk where the full chunks so far end. */
  lemma CoverStep<T>(arr: seq<T>, size: nat, chunks: seq<seq<T>>, from: nat)
    requires size > 0 && from < |arr| && Concat(chunks) == arr[..from]
    requires forall i :: 0 <= i < |chunks| ==> |chunks[i]| == size
    ensures var more := chunks + [Slice(arr, from, from + size)];
      && Concat(more) == arr[..Min(|arr|, from + size)]
      && (forall i :: 0 <= i < |more| - 1 ==> |more[i]| == size)
      && |more[|more| - 1]| == Min(size, |arr| - from)
  {
    ConcatOneMore(chunks, Slice(arr, from, from + size));
  }

  /** Concatenating the chunks gives back the array, exactly when the size is positive or there is
      nothing to cut; and then every chunk but the last has that size. A size of zero gives an empty chunk
      for each element. */
  lemma ChunksConcat<T>(arr: seq<T>, size: nat)
    ensures Concat(Chunk(arr, size)) == arr <==> size > 0 || arr == []
    ensures size > 0 ==> forall i :: 0 <= i < |Chunk(arr, size)| - 1 ==> |Chunk(arr, size)[i]| == size
    ensures size == 0 ==> |Chunk(arr, size)| == |arr| && forall i :: 0 <= i < |arr| ==> Chunk(arr, size)[i] == []
  {
    if arr != [] {
      if size > 0 {
        ChunksCover(arr, size, |arr|);
      } else {
        EmptyChunks(arr, |arr|);
      }
    }
  }

  lemma {:induction false} EmptyChunks<T>(arr: seq<T>, n: nat)
    requires n <= |arr|
    ensures Concat(ChunksUpTo(arr, 0, n)) == []
    ensures |ChunksUpTo(arr, 0, n)| == n && forall i :: 0 <= i < n ==> ChunksUpTo(arr, 0, n)[i] == []
  {
    if n == 0 {
    } else {
      EmptyChunks(arr, n - 1);
      ConcatOneMore(ChunksUpTo(arr, 0, n - 1), []);
    }
  }

  /** Lists of one length are cut at the same places. */
  lemma {:induction false} ChunksAligned<T, U>(a: seq<T>, b: seq<U>, size: nat, n: nat)
    requires |a| == |b| && n <= |a|
    ensures |ChunksUpTo(a, size, n)| == |ChunksUpTo(b, size, n)| <= n
    ensures forall i :: 0 <= i < |ChunksUpTo(a, size, n)| ==>
      |ChunksUpTo(a, size, n)[i]| == |ChunksUpTo(b, size, n)[i]|
      && (size > 0 ==> 1 <= |ChunksUpTo(a, size, n)[i]| <= size)
  {
    if n == 0 {
    } else {
      ChunksAligned(a, b, size, n - 1);
    }
  }
}
