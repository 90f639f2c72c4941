/** PartitionFilter: the byte ranges of the rootfs partitions and the remapping of
disk offsets to offsets in the extracted output. */
module Partitions {
  import opened Collections
  import opened Runs
  import opened Qcow2Format

  const UINT64_MAX := 0xffff_ffff_ffff_ffff

  datatype ByteRange = ByteRange(start: nat, end: nat)

  type Ranges = rs: seq<ByteRange> | forall i | 0 <= i < |rs| :: rs[i].start <= rs[i].end

  predicate Covers(r: ByteRange, a: nat) {
    r.start <= a < r.end
  }

  /** The length of the output. */
  function Total(rs: Ranges): nat {
    if rs == [] then 0 else (rs[0].end - rs[0].start) + Total(rs[1..])
  }

  /** Where the byte at disk offset `a` goes: the ranges are laid out in table order. */
  function ToOutput(rs: Ranges, a: nat): Option<nat> {
    if rs == [] then None
    else if Covers(rs[0], a) then Some(a - rs[0].start)
    else
      match ToOutput(rs[1..], a)
      case None => None
      case Some(x) => Some((rs[0].end - rs[0].start) + x)
  }

  /** The disk offset that output offset `x` stands for. */
  function FromOutput(rs: Ranges, x: nat): nat
    requires x < Total(rs)
  {
    var n := rs[0].end - rs[0].start;
    if x < n then rs[0].start + x else FromOutput(rs[1..], x - n)
  }

  predicate Disjoint(rs: Ranges) {
    forall i, j | 0 <= i < j < |rs| :: rs[i].end <= rs[j].start || rs[j].end <= rs[i].start
                                       || rs[i].start == rs[i].end || rs[j].start == rs[j].end
  }

  /** An offset has an output place exactly when some range covers it. */
  lemma {:induction false} ToOutputDefined(rs: Ranges, a: nat)
    ensures ToOutput(rs, a).Some? <==> exists i :: 0 <= i < |rs| && Covers(rs[i], a)
    ensures ToOutput(rs, a).Some? ==> ToOutput(rs, a).value < Total(rs)
  {
    if rs != [] {
      ToOutputDefined(rs[1..], a);
      if !Covers(rs[0], a) {
        if ToOutput(rs[1..], a).Some? {
          var i :| 0 <= i < |rs[1..]| && Covers(rs[1..][i], a);
          assert Covers(rs[i + 1], a);
        }
        if i :| 0 <= i < |rs| && Covers(rs[i], a) {
          assert Covers(rs[1..][i - 1], a);
        }
      }
    }
  }

  /** Going to the output and back: no two disk offsets share an output place. */
  lemma {:induction false} ThereAndBack(rs: Ranges, a: nat)
    requires ToOutput(rs, a).Some?
    ensures ToOutput(rs, a).value < Total(rs)
    ensures FromOutput(rs, ToOutput(rs, a).value) == a
  {
    if !Covers(rs[0], a) {
      ThereAndBack(rs[1..], a);
    }
  }

  /** The output offset `x` lies in a covering range. */
  lemma {:induction false} FromOutputCovered(rs: Ranges, x: nat) returns (i: nat)
    requires x < Total(rs)
    ensures i < |rs| && Covers(rs[i], FromOutput(rs, x))
  {
    var n := rs[0].end - rs[0].start;
    if x < n {
      i := 0;
    } else {
      var j := FromOutputCovered(rs[1..], x - n);
      i := j + 1;
    }
  }

  lemma {:induction false} BackAndThere(rs: Ranges, x: nat)
    requires Disjoint(rs) && x < Total(rs)
    ensures ToOutput(rs, FromOutput(rs, x)) == Some(x)
  {
    var n := rs[0].end - rs[0].start;
    if x >= n {
      var i := FromOutputCovered(rs[1..], x - n);
      assert Covers(rs[i + 1], FromOutput(rs, x));
      assert Disjoint(rs[1..]) by {
        assert forall i, j | 0 <= i < j < |rs[1..]| :: rs[1..][i] == rs[i + 1] && rs[1..][j] == rs[j + 1];
      }
      BackAndThere(rs[1..], x - n);
    }
  }

  /** The output offset that the byte `a` of range `j` stands for by position. */
  lemma {:induction false} PlaceOf(rs: Ranges, j: nat, a: nat) returns (x: nat)
    requires j < |rs| && Covers(rs[j], a)
    ensures x < Total(rs) && FromOutput(rs, x) == a
    ensures forall i | 0 <= i < j && Covers(rs[i], a) :: ToOutput(rs, a) != Some(x)
  {
    if j == 0 {
      x := a - rs[0].start;
    } else {
      var y := PlaceOf(rs[1..], j - 1, a);
      x := y + (rs[0].end - rs[0].start);
      forall i | 0 <= i < j && Covers(rs[i], a) ensures ToOutput(rs, a) != Some(x) {
        if i > 0 && !Covers(rs[0], a) {
          assert Covers(rs[1..][i - 1], a);
        }
      }
    }
  }

  /** `ToOutput` is a bijection from the union of the ranges onto [0, Total) exactly when
      the non-empty ranges do not overlap. */
  lemma BijectionIffDisjoint(rs: Ranges)
    ensures Disjoint(rs) <==> forall x | 0 <= x < Total(rs) :: ToOutput(rs, FromOutput(rs, x)) == Some(x)
  {
    if Disjoint(rs) {
      forall x | 0 <= x < Total(rs) ensures ToOutput(rs, FromOutput(rs, x)) == Some(x) {
        BackAndThere(rs, x);
      }
    } else {
      var i, j :| 0 <= i < j < |rs| && rs[i].end > rs[j].start && rs[j].end > rs[i].start
                  && rs[i].start != rs[i].end && rs[j].start != rs[j].end;
      var a := if rs[i].start < rs[j].start then rs[j].start else rs[i].start;
      var x := PlaceOf(rs, j, a);
      assert Covers(rs[i], a);
    }
  }

  /** Two overlapping ranges: output offset 12 belongs to disk offset 7, which is written to
      output offset 7. */
  lemma OverlapCollides()
    ensures var rs := [ByteRange(0, 10), ByteRange(5, 15)];
            !Disjoint(rs) && FromOutput(rs, 12) == 7 && ToOutput(rs, 7) == Some(7)
  {
    var rs := [ByteRange(0, 10), ByteRange(5, 15)];
    assert Covers(rs[0], 7) && Covers(rs[1], 7);
    assert rs[1..] == [ByteRange(5, 15)];
    assert Total(rs[1..]) == 10;
  }

  /** Ranges that begin and end on a cluster boundary. */
  ghost predicate Aligned(rs: Ranges, cs: nat) {
    forall i | 0 <= i < |rs| :: Multiple(rs[i].start, cs) && Multiple(rs[i].end, cs)
  }

  ghost predicate Multiple(a: nat, m: nat) {
    exists q: nat :: q * m == a
  }

  lemma AlignedCover(r: ByteRange, cs: nat, c: nat, k: nat)
    requires k < cs && Multiple(r.start, cs) && Multiple(r.end, cs)
    ensures c * cs >= 0
    ensures Covers(r, c * cs + k) <==> Covers(r, c * cs)
  {
    hide Multiple;
    CompareMultiple(r.start, c, cs, k);
    CompareMultiple(r.end, c, cs, k);
  }

  lemma CompareMultiple(a: nat, c: nat, cs: nat, k: nat)
    requires k < cs && Multiple(a, cs)
    ensures a <= c * cs + k <==> a <= c * cs
  {
    var p: nat :| p * cs == a;
    CompareMultiples(p, c, cs, k);
  }

  lemma CompareMultiples(p: nat, c: nat, cs: nat, k: nat)
    requires k < cs
    ensures p * cs <= c * cs + k <==> p * cs <= c * cs
  {
    if p <= c {
      MulMono(p, c, cs);
    } else {
      MulMono(c + 1, p, cs);
      assert (c + 1) * cs == c * cs + cs;
    }
  }

  /** With aligned ranges a cluster moves as a whole. */
  lemma {:induction false} ClusterMovesWhole(rs: Ranges, cs: nat, c: nat, k: nat)
    requires Aligned(rs, cs) && k < cs
    ensures c * cs >= 0
    ensures ToOutput(rs, c * cs + k) ==
            match ToOutput(rs, c * cs)
            case None => None
            case Some(x) => Some(x + k)
  {
    if rs != [] {
      hide Multiple;
      AlignedCover(rs[0], cs, c, k);
      assert Aligned(rs[1..], cs);
      ClusterMovesWhole(rs[1..], cs, c, k);
    }
  }

  class PartitionFilter {
    var enabled: bool
    var ranges: Ranges

    constructor (enabled: bool, ranges: Ranges)
      ensures this.enabled == enabled && this.ranges == ranges
    {
      this.enabled := enabled;
      this.ranges := ranges;
    }

    /** overlaps_rootfs. */
    method OverlapsRootfs(offset: nat, len: nat) returns (r: bool)
      ensures !enabled ==> r
      ensures enabled ==> (r <==> exists i ::
                0 <= i < |ranges| && offset < ranges[i].end && offset + len > ranges[i].start)
    {
      if !enabled {
        return true;
      }
      var i := 0;
      while i < |ranges|
        invariant 0 <= i <= |ranges|
        invariant forall j | 0 <= j < i :: offset >= ranges[j].end || offset + len <= ranges[j].start
      {
        if offset < ranges[i].end && offset + len > ranges[i].start {
          return true;
        }
        i := i + 1;
      }
      return false;
    }

    /** total_rootfs_size. */
    method TotalRootfsSize() returns (total: nat)
      ensures total == if enabled then Total(ranges) else 0
    {
      if !enabled {
        return 0;
      }
      total := 0;
      var i := 0;
      while i < |ranges|
        invariant 0 <= i <= |ranges|
        invariant total + Total(ranges[i..]) == Total(ranges)
      {
        assert ranges[i..][1..] == ranges[i + 1..];
        total := total + (ranges[i].end - ranges[i].start);
        i := i + 1;
      }
    }

    /** to_output_offset: the place of the offset in the output, or the largest 64-bit
        number when no range has it. */
    method ToOutputOffset(a: nat) returns (x: nat)
      ensures !enabled ==> x == a
      ensures enabled ==> x == (match ToOutput(ranges, a) case None => UINT64_MAX case Some(y) => y)
    {
      if !enabled {
        return a;
      }
      var cumulative := 0;
      var i := 0;
      while i < |ranges|
        invariant 0 <= i <= |ranges|
        invariant ToOutput(ranges, a) ==
                  match ToOutput(ranges[i..], a)
                  case None => None
                  case Some(y) => Some(cumulative + y)
      {
        assert ranges[i..][1..] == ranges[i + 1..];
        if a >= ranges[i].start && a < ranges[i].end {
          return cumulative + (a - ranges[i].start);
        }
        cumulative := cumulative + (ranges[i].end - ranges[i].start);
        i := i + 1;
      }
      return UINT64_MAX;
    }
  }
}
