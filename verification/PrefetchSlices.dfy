/** Slicing the extents of a file into bounded prefetch reads. */
module PrefetchSlices {
  import opened Collections

  const MAX_IO_SIZE := 1024 * 1024
  const ALIGNMENT := 512

  /** A range of the image: an extent of a file, or a read to be replayed. */
  datatype Range = Range(offset: int, count: nat)

  /** The byte positions of a range, in order. */
  function Positions(r: Range): seq<int> {
    seq(r.count, k => r.offset + k)
  }

  function AllPositions(rs: seq<Range>): seq<int> {
    if rs == [] then [] else AllPositions(rs[..|rs| - 1]) + Positions(rs[|rs| - 1])
  }

  lemma AllPositionsPush(rs: seq<Range>, r: Range)
    ensures AllPositions(rs + [r]) == AllPositions(rs) + Positions(r)
  {
    assert (rs + [r])[..|rs|] == rs;
  }

  predicate Bounded(rs: seq<Range>) {
    forall k | 0 <= k < |rs| :: 1 <= rs[k].count <= MAX_IO_SIZE
  }

  /** The smallest multiple of 512 that is not below the size. */
  function AlignUp(size: nat): (r: nat)
    ensures r % ALIGNMENT == 0 && size <= r < size + ALIGNMENT
  {
    var n := size + (ALIGNMENT - 1);
    assert n == n / 512 * 512 + n % 512;
    n / ALIGNMENT * ALIGNMENT
  }

  /** Queue one extent as reads of at most 1 MiB: they cover it byte by byte in order. */
  method SliceExtent(queue: seq<Range>, extent: Range) returns (q: seq<Range>)
    requires Bounded(queue)
    ensures queue <= q && Bounded(q)
    ensures AllPositions(q) == AllPositions(queue) + Positions(extent)
  {
    q := queue;
    var left := extent;
    while left.count > 0
      invariant queue <= q && Bounded(q)
      invariant AllPositions(q) + Positions(left) == AllPositions(queue) + Positions(extent)
      decreases left.count
    {
      var slice := if left.count > MAX_IO_SIZE then MAX_IO_SIZE else left.count;
      ghost var before := AllPositions(q);
      AllPositionsPush(q, Range(left.offset, slice));
      var rest := Range(left.offset + slice, left.count - slice);
      assert Positions(left) == Positions(Range(left.offset, slice)) + Positions(rest);
      assert before + (Positions(Range(left.offset, slice)) + Positions(rest))
          == (before + Positions(Range(left.offset, slice))) + Positions(rest);
      q := q + [Range(left.offset, slice)];
      left := rest;
    }
    assert Positions(left) == [];
  }

  /** The queued reads cover exactly the first min(aligned size, total length) bytes of the
      extents, in the order of the extents; each is non-empty and at most 1 MiB. When replay is
      stopped after some extents, the same holds of these. */
  method GetExtents(queue: seq<Range>, size: nat, extents: seq<Range>, stopAfter: nat)
    returns (q: seq<Range>)
    requires Bounded(queue)
    ensures queue <= q && Bounded(q)
    ensures var seen := AllPositions(extents[..Min(stopAfter, |extents|)]);
            AllPositions(q) == AllPositions(queue) + seen[..Min(AlignUp(size), |seen|)]
  {
    hide AllPositions, Positions, AlignUp;
    q := queue;
    ghost var n := 0;
    NoPositions();
    var count := AlignUp(size);
    var i := 0;
    assert extents[..0] == [];
    while i < |extents|
      invariant 0 <= i <= Min(stopAfter, |extents|)
      invariant queue <= q && Bounded(q)
      invariant n + count == AlignUp(size)
      invariant n == Min(AlignUp(size), |AllPositions(extents[..i])|)
      invariant AllPositions(q) == AllPositions(queue) + AllPositions(extents[..i])[..n]
    {
      if i == stopAfter {
        return;
      }
      var e := Range(extents[i].offset, if extents[i].count < count then extents[i].count else count);
      count := count - e.count;
      q := SliceExtent(q, e);
      ClipNext(extents, i, AlignUp(size), n, e.count);
      assert AllPositions(queue) + AllPositions(extents[..i])[..n] + Positions(e)
          == AllPositions(queue) + (AllPositions(extents[..i])[..n] + Positions(e));
      n := n + e.count;
      i := i + 1;
    }
  }

  lemma NoPositions()
    ensures AllPositions([]) == []
  {
  }

  /** The next extent, cut to what is left of the limit, extends the covered prefix. */
  lemma ClipNext(extents: seq<Range>, i: nat, limit: nat, n: nat, take: nat)
    requires i < |extents| && n == Min(limit, |AllPositions(extents[..i])|)
    requires take == Min(extents[i].count, limit - n)
    ensures n + take == Min(limit, |AllPositions(extents[..i + 1])|)
    ensures AllPositions(extents[..i + 1])[..n + take] ==
            AllPositions(extents[..i])[..n] + Positions(Range(extents[i].offset, take))
  {
    assert extents[..i + 1] == extents[..i] + [extents[i]];
    AllPositionsPush(extents[..i], extents[i]);
  }
}
