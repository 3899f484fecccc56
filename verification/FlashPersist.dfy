/** Splitting the flash among its image files (src/flash_persist.c:26-83). */
module FlashPersist {
  import opened Words

  const MAX_RANGES := 16

  datatype Range = Range(path: string, offset: u32, length: u32)

  // ---------------------------------------------------------------- the index sort

  /** `pos` inverts `idx`: together they are a permutation of the first |idx| numbers. */
  ghost predicate Inverse(idx: seq<nat>, pos: seq<nat>) {
    && |pos| == |idx|
    && (forall k :: 0 <= k < |idx| ==> idx[k] < |idx| && pos[idx[k]] == k)
    && (forall v :: 0 <= v < |pos| ==> pos[v] < |pos| && idx[pos[v]] == v)
  }

  ghost predicate InRange(idx: seq<nat>, n: nat) { forall k :: 0 <= k < |idx| ==> idx[k] < n }

  /** Entries before `i` are in place. */
  ghost predicate SortedTo(idx: seq<nat>, offsets: seq<u32>, i: nat)
    requires InRange(idx, |offsets|)
  {
    forall a, b :: 0 <= a < i && a < b < |idx| ==> offsets[idx[a]] <= offsets[idx[b]]
  }

  /** Entry `i` is minimal among the entries up to `j`. */
  ghost predicate MinTo(idx: seq<nat>, offsets: seq<u32>, i: nat, j: nat)
    requires InRange(idx, |offsets|) && i < |idx|
  {
    forall b :: i < b < j && b < |idx| ==> offsets[idx[i]] <= offsets[idx[b]]
  }

  function Swap(idx: seq<nat>, i: nat, j: nat): (r: seq<nat>)
    requires i < |idx| && j < |idx|
    ensures |r| == |idx|
    ensures forall k :: 0 <= k < |idx| ==> r[k] == if k == i then idx[j] else if k == j then idx[i] else idx[k]
  {
    idx[i := idx[j]][j := idx[i]]
  }

  lemma SwapInverse(idx: seq<nat>, pos: seq<nat>, i: nat, j: nat)
    requires Inverse(idx, pos) && i < j < |idx|
    ensures Inverse(Swap(idx, i, j), Swap(pos, idx[i], idx[j]))
  {
  }

  lemma SwapSortedTo(idx: seq<nat>, offsets: seq<u32>, i: nat, j: nat)
    requires InRange(idx, |offsets|) && i < j < |idx| && SortedTo(idx, offsets, i)
    ensures InRange(Swap(idx, i, j), |offsets|) && SortedTo(Swap(idx, i, j), offsets, i)
  {
    var s := Swap(idx, i, j);
    forall a, b | 0 <= a < i && a < b < |s|
      ensures offsets[s[a]] <= offsets[s[b]]
    {
      var b' := if b == i then j else if b == j then i else b;
      assert s[a] == idx[a] && s[b] == idx[b'] && a < b';
    }
  }

  lemma SwapMinTo(idx: seq<nat>, offsets: seq<u32>, i: nat, j: nat)
    requires InRange(idx, |offsets|) && i < j < |idx| && MinTo(idx, offsets, i, j)
    requires offsets[idx[j]] < offsets[idx[i]]
    ensures InRange(Swap(idx, i, j), |offsets|) && MinTo(Swap(idx, i, j), offsets, i, j + 1)
  {
  }

  lemma SortedNext(idx: seq<nat>, offsets: seq<u32>, i: nat)
    requires InRange(idx, |offsets|) && i < |idx| && SortedTo(idx, offsets, i) && MinTo(idx, offsets, i, |idx|)
    ensures SortedTo(idx, offsets, i + 1)
  {
  }

  /** `sort_indices`: the identity, then exchanges until every entry is minimal among its followers. */
  method SortIndices(idx: array<nat>, offsets: seq<u32>) returns (ghost pos: seq<nat>)
    requires idx.Length == |offsets|
    modifies idx
    ensures Inverse(idx[..], pos)
    ensures InRange(idx[..], |offsets|) && SortedTo(idx[..], offsets, |offsets|)
  {
    hide SortedTo, MinTo, Inverse;
    var n := |offsets|;
    pos := IdentityFill(idx);
    InverseRange(idx[..], pos);
    assert SortedTo(idx[..], offsets, 0) by { SortedNone(idx[..], offsets); }
    var i := 0;
    while i < n
      invariant 0 <= i <= n && Inverse(idx[..], pos)
      invariant InRange(idx[..], n) && SortedTo(idx[..], offsets, i)
    {
      pos := SelectMin(idx, offsets, i, pos);
      SortedNext(idx[..], offsets, i);
      i := i + 1;
    }
  }

  method IdentityFill(idx: array<nat>) returns (ghost pos: seq<nat>)
    modifies idx
    ensures Inverse(idx[..], pos)
  {
    var i := 0;
    while i < idx.Length
      invariant 0 <= i <= idx.Length
      invariant forall k :: 0 <= k < i ==> idx[k] == k
    {
      idx[i] := i;
      i := i + 1;
    }
    pos := idx[..];
  }

  /** The inner loop: brings a minimal entry to position `i`. */
  method SelectMin(idx: array<nat>, offsets: seq<u32>, i: nat, ghost pos0: seq<nat>) returns (ghost pos: seq<nat>)
    requires idx.Length == |offsets| && i < idx.Length
    requires Inverse(idx[..], pos0) && InRange(idx[..], |offsets|) && SortedTo(idx[..], offsets, i)
    modifies idx
    ensures Inverse(idx[..], pos) && InRange(idx[..], |offsets|)
    ensures SortedTo(idx[..], offsets, i) && MinTo(idx[..], offsets, i, |offsets|)
  {
    hide SortedTo, Inverse;
    pos := pos0;
    var j := i + 1;
    while j < idx.Length
      invariant i + 1 <= j <= idx.Length && Inverse(idx[..], pos)
      invariant InRange(idx[..], |offsets|) && SortedTo(idx[..], offsets, i) && MinTo(idx[..], offsets, i, j)
    {
      if offsets[idx[j]] < offsets[idx[i]] {
        ghost var was := idx[..];
        SwapInBounds(was, pos, i, j);
        SwapInverse(was, pos, i, j);
        SwapSortedTo(was, offsets, i, j);
        SwapMinTo(was, offsets, i, j);
        pos := Swap(pos, was[i], was[j]);
        idx[i], idx[j] := idx[j], idx[i];
        assert idx[..] == Swap(was, i, j);
      }
      j := j + 1;
    }
  }

  lemma SwapInBounds(idx: seq<nat>, pos: seq<nat>, i: nat, j: nat)
    requires Inverse(idx, pos) && i < |idx| && j < |idx|
    ensures idx[i] < |pos| && idx[j] < |pos|
  {
  }

  lemma InverseRange(idx: seq<nat>, pos: seq<nat>)
    requires Inverse(idx, pos)
    ensures InRange(idx, |idx|)
  {
  }

  lemma SortedNone(idx: seq<nat>, offsets: seq<u32>)
    requires InRange(idx, |offsets|)
    ensures SortedTo(idx, offsets, 0)
  {
  }

  // ---------------------------------------------------------------- the ranges

  /** Range `i` of the sorted images: up to the next image or the end of flash, with the source's clamps and
      its 32-bit subtraction. */
  function RangeOf(idx: seq<nat>, offsets: seq<u32>, paths: seq<string>, size: u32, i: nat): Range
    requires InRange(idx, |offsets|) && |paths| == |offsets| && i < |idx|
  {
    var start := offsets[idx[i]];
    var end0 := if i + 1 < |idx| then offsets[idx[i + 1]] else size;
    var end1 := if end0 < start then start else end0;
    var end2 := if end1 > size then size else end1;
    Range(paths[idx[i]], start, Wrap(end2 - start))
  }

  /** `mm_flash_persist_build` for a non-empty image list; at most sixteen images are used. */
  method Build(size: u32, paths: seq<string>, offsets: seq<u32>) returns (ranges: seq<Range>, ghost idx: seq<nat>, ghost pos: seq<nat>)
    requires |paths| == |offsets|
    ensures |ranges| == |idx| == (if |offsets| > 16 then 16 else |offsets|)
    ensures Inverse(idx, pos)
    ensures InRange(idx, |offsets|) && SortedTo(idx, offsets, |idx|)
    ensures forall i :: 0 <= i < |ranges| ==> ranges[i] == RangeOf(idx, offsets, paths, size, i)
  {
    var count := if |offsets| > MAX_RANGES then MAX_RANGES else |offsets|;
    var order := new nat[count];
    pos := SortIndices(order, offsets[..count]);
    idx := order[..];
    assert SortedTo(idx, offsets, count) by { SortedPrefix(idx, offsets, count); }
    hide SortedTo, Inverse;
    ranges := [];
    var i := 0;
    while i < count
      invariant 0 <= i <= count && |ranges| == i && order[..] == idx
      invariant forall k :: 0 <= k < i ==> ranges[k] == RangeOf(idx, offsets, paths, size, k)
    {
      var cur := order[i];
      var start := offsets[cur];
      var end := if i + 1 < count then offsets[order[i + 1]] else size;
      if end < start { end := start; }
      if end > size { end := size; }
      ranges := ranges + [Range(paths[cur], start, Wrap(end - start))];
      i := i + 1;
    }
  }

  lemma SortedPrefix(idx: seq<nat>, offsets: seq<u32>, n: nat)
    requires n <= |offsets| && |idx| == n && InRange(idx, n) && SortedTo(idx, offsets[..n], n)
    ensures InRange(idx, |offsets|) && SortedTo(idx, offsets, n)
  {
    forall a, b | 0 <= a < n && a < b < |idx|
      ensures offsets[idx[a]] <= offsets[idx[b]]
    {
      assert offsets[..n][idx[a]] <= offsets[..n][idx[b]];
    }
  }

  /** What `Build` returns. */
  ghost predicate Built(ranges: seq<Range>, idx: seq<nat>, paths: seq<string>, offsets: seq<u32>, size: u32) {
    && |paths| == |offsets| && |ranges| == |idx| > 0
    && InRange(idx, |offsets|) && SortedTo(idx, offsets, |idx|)
    && forall i :: 0 <= i < |ranges| ==> ranges[i] == RangeOf(idx, offsets, paths, size, i)
  }

  /** End of a range. */
  function End(r: Range): int { r.offset + r.length }

  /** Every image that is used starts inside the flash or at its end. */
  ghost predicate Inside(idx: seq<nat>, offsets: seq<u32>, size: u32)
    requires InRange(idx, |offsets|)
  {
    forall k :: 0 <= k < |idx| ==> offsets[idx[k]] <= size
  }

  /** Each range carries its own image's path and start; it ends where the next begins, the last
      at the end of flash, exactly when that next image (or itself, if last) is not beyond the flash. */
  lemma RangesContiguousIff(ranges: seq<Range>, idx: seq<nat>, paths: seq<string>, offsets: seq<u32>, size: u32, i: nat)
    requires Built(ranges, idx, paths, offsets, size) && i < |ranges|
    ensures ranges[i].offset == offsets[idx[i]] && ranges[i].path == paths[idx[i]]
    ensures var last := i + 1 == |ranges|;
            End(ranges[i]) == (if last then size else ranges[i + 1].offset)
            <==> offsets[idx[if last then i else i + 1]] <= size
  {
    if i + 1 < |ranges| {
      assert offsets[idx[i]] <= offsets[idx[i + 1]];
    }
    if offsets[idx[i]] > size {
      assert Wrap(size - offsets[idx[i]]) == U32 + size - offsets[idx[i]];
    }
  }

  lemma {:induction false} StartsOrdered(ranges: seq<Range>, idx: seq<nat>, paths: seq<string>, offsets: seq<u32>, size: u32, i: nat, j: nat)
    requires Built(ranges, idx, paths, offsets, size) && i < j < |ranges|
    requires Inside(idx, offsets, size)
    ensures End(ranges[i]) <= ranges[j].offset
  {
    hide SortedTo, RangeOf;
    RangesContiguousIff(ranges, idx, paths, offsets, size, i);
    if i + 1 < j {
      RangesContiguousIff(ranges, idx, paths, offsets, size, j - 1);
      StartsOrdered(ranges, idx, paths, offsets, size, i, j - 1);
    }
  }

  /** Every flash offset from the first image on lies in some range; ranges do not overlap, so in
      exactly one. */
  lemma {:induction false} RangesCover(ranges: seq<Range>, idx: seq<nat>, paths: seq<string>, offsets: seq<u32>, size: u32, x: int, i: nat) returns (j: nat)
    requires Built(ranges, idx, paths, offsets, size) && i < |ranges|
    requires Inside(idx, offsets, size)
    requires ranges[i].offset <= x < size
    ensures i <= j < |ranges| && ranges[j].offset <= x < End(ranges[j])
    ensures forall m :: 0 <= m < |ranges| && ranges[m].offset <= x < End(ranges[m]) ==> m == j
    decreases |ranges| - i
  {
    hide SortedTo, RangeOf;
    RangesContiguousIff(ranges, idx, paths, offsets, size, i);
    if x < End(ranges[i]) {
      j := i;
      forall m | 0 <= m < |ranges| && ranges[m].offset <= x < End(ranges[m])
        ensures m == j
      {
        if m < j {
          StartsOrdered(ranges, idx, paths, offsets, size, m, j);
        } else if j < m {
          StartsOrdered(ranges, idx, paths, offsets, size, j, m);
        }
      }
    } else {
      j := RangesCover(ranges, idx, paths, offsets, size, x, i + 1);
    }
  }

  /** An image placed beyond the flash makes its range run backwards: the length wraps exactly then. */
  lemma LengthWrapsIff(idx: seq<nat>, offsets: seq<u32>, paths: seq<string>, size: u32, i: nat)
    requires InRange(idx, |offsets|) && |paths| == |offsets| && i < |idx| && SortedTo(idx, offsets, |idx|)
    ensures End(RangeOf(idx, offsets, paths, size, i)) > size <==> offsets[idx[i]] > size
  {
    var start := offsets[idx[i]];
    if i + 1 < |idx| { assert start <= offsets[idx[i + 1]]; }
    if start > size {
      assert Wrap(size - start) == U32 + size - start;
    }
  }

  /** One image 16 bytes beyond a 64-byte flash: the length is 2^32 - 16. */
  lemma LengthWrapsExample()
    ensures RangeOf([0], [80], ["a"], 64, 0) == Range("a", 80, 0xFFFF_FFF0)
  {
  }
}
