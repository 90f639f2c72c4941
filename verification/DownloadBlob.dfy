/** The resumable block copy of a remote layer into the temporary file.

The remote file is a byte sequence that may be longer or shorter than the expected size.
Each call to the environment (a read, a write, a seek) may fail or come back short, which
both files count; the buffer is one allocation reused for all blocks, so what a short read
leaves in it is what the block before left there. The local file system allocates whole
units, so a write that stops inside a unit leaves the rest of it allocated and zero.
 */
module DownloadBlob {
  import opened Collections

  type Bytes = seq<nat>

  // ----- allocation units

  function UnitOf(k: nat, unit: nat): nat
    requires unit > 0
  {
    k / unit
  }

  ghost predicate Aligned(a: nat, unit: nat) {
    exists q: nat :: q * unit == a
  }

  /** A unit does not straddle an aligned position. */
  lemma Straddle(a: nat, unit: nat, j: nat, k: nat)
    requires unit > 0 && Aligned(a, unit) && UnitOf(j, unit) == UnitOf(k, unit)
    ensures j < a <==> k < a
  {
    var q: nat :| q * unit == a;
    Below(q, unit, j);
    Below(q, unit, k);
  }

  lemma Below(q: nat, unit: nat, j: nat)
    requires unit > 0
    ensures j < q * unit <==> UnitOf(j, unit) < q
  {
    var u := UnitOf(j, unit);
    UnitBounds(j, unit);
    hide UnitOf;
    if u < q {
      MulMono(u + 1, q, unit);
      assert (u + 1) * unit == u * unit + unit;
    } else {
      MulMono(q, u, unit);
    }
  }

  lemma UnitBounds(j: nat, unit: nat)
    requires unit > 0
    ensures UnitOf(j, unit) * unit <= j < UnitOf(j, unit) * unit + unit
  {
  }

  lemma AlignedSum(a: nat, b: nat, unit: nat)
    requires Aligned(a, unit) && Aligned(b, unit)
    ensures Aligned(a + b, unit)
  {
    var p: nat :| p * unit == a;
    var q: nat :| q * unit == b;
    assert (p + q) * unit == a + b;
  }

  /** The units of `n` bytes at `offset`. */
  function Units(offset: nat, n: nat, unit: nat): set<nat>
    requires unit > 0
  {
    set k | offset <= k < offset + n :: UnitOf(k, unit)
  }

  // ----- the remote file

  /** What there is to read of `want` bytes at `offset`. */
  function Available(size: nat, offset: nat, want: nat): nat {
    if offset >= size then 0 else Min(want, size - offset)
  }

  /** The layer in the registry. `faults` counts failed reads, `shorts` those that brought less
      than there was, and `fetched` lists the offsets read from. */
  class RemoteFile {
    const bytes: Bytes
    ghost var faults: nat
    ghost var shorts: nat
    ghost var fetched: seq<nat>

    constructor (bytes: Bytes)
      ensures this.bytes == bytes && faults == 0 && shorts == 0 && fetched == []
    {
      this.bytes, faults, shorts, fetched := bytes, 0, 0, [];
    }

    /** Up to a buffer of bytes at `offset`; the rest of the buffer keeps what it held. */
    method Pread(buffer: Bytes, offset: nat) returns (b: Bytes, r: int)
      modifies this
      ensures |b| == |buffer| && -1 <= r <= Available(|bytes|, offset, |buffer|)
      ensures forall k | 0 <= k < r :: b[k] == bytes[offset + k]
      ensures forall k | 0 <= k < |b| && r <= k :: b[k] == buffer[k]
      ensures faults == old(faults) + (if r < 0 then 1 else 0)
      ensures shorts == old(shorts) + (if 0 <= r < Available(|bytes|, offset, |buffer|) then 1 else 0)
      ensures fetched == old(fetched) + [offset]
    {
      r := *;
      fetched := fetched + [offset];
      if !(0 <= r <= Available(|bytes|, offset, |buffer|)) {
        faults := faults + 1;
        return buffer, -1;
      }
      shorts := shorts + if r < Available(|bytes|, offset, |buffer|) then 1 else 0;
      b := if r > 0 then bytes[offset..offset + r] + buffer[r..] else buffer;
    }
  }

  // ----- the local file

  /** A sparse file: its bytes and the units that are allocated. `unwritten` has the positions
      that are allocated but were never written, `top` the end of the highest write since the
      file was truncated, and `faults` counts seeks that failed and writes that fell short. */
  class LocalFile {
    const unit: nat
    var bytes: seq<nat>
    var units: set<nat>
    ghost var unwritten: set<nat>
    ghost var top: nat
    ghost var faults: nat

    ghost predicate Valid()
      reads this
    {
      && unit > 0 && HolesAreZero(bytes, units, unit) && Backed(bytes, units, unit)
      && StrayInv(bytes, units, unit, unwritten)
    }

    /** A new file. */
    constructor (unit: nat)
      requires unit > 0
      ensures Valid() && this.unit == unit && bytes == [] && units == {} && unwritten == {} && faults == 0
    {
      this.unit, bytes, units, unwritten, top, faults := unit, [], {}, {}, 0, 0;
    }

    /** Cut, or extended by zeros: by a hole, except in a unit that is allocated already. */
    method Ftruncate(size: nat)
      requires Valid()
      modifies this`bytes, this`units, this`unwritten, this`top
      ensures Valid() && |bytes| == size && top == 0
      ensures forall k | 0 <= k < Min(size, |old(bytes)|) :: bytes[k] == old(bytes)[k]
      ensures forall k | |old(bytes)| <= k < size :: bytes[k] == 0
      ensures units <= old(units)
      ensures forall k: nat | k < size :: UnitOf(k, unit) in units <==> UnitOf(k, unit) in old(units)
      ensures unwritten == AfterCut(old(unwritten), |old(bytes)|, old(units), unit, size)
    {
      hide UnitOf;
      unwritten := AfterCut(unwritten, |bytes|, units, unit, size);
      top := 0;
      if size <= |bytes| {
        units := set u | u in units && exists k :: 0 <= k < size && UnitOf(k, unit) == u;
        bytes := bytes[..size];
      } else {
        bytes := bytes + seq(size - |bytes|, _ => 0);
      }
    }

    /** The first hole at or after `offset`; the end of the file counts as one. -1 on error. */
    method SeekHole(offset: nat) returns (r: int)
      requires Valid() && offset <= |bytes|
      modifies this`faults
      ensures r == -1 || offset <= r <= |bytes|
      ensures forall k | offset <= k < r :: UnitOf(k, unit) in units
      ensures r != -1 && r < |bytes| ==> UnitOf(r, unit) !in units
      ensures faults == old(faults) + (if r == -1 then 1 else 0)
    {
      var fails: bool := *;
      if fails {
        faults := faults + 1;
        return -1;
      }
      r := offset;
      while r < |bytes| && UnitOf(r, unit) in units
        invariant offset <= r <= |bytes|
        invariant forall k | offset <= k < r :: UnitOf(k, unit) in units
      {
        r := r + 1;
      }
    }

    /** Writes a prefix of `count` bytes of the buffer, or nothing and returns -1. */
    method Pwrite(buffer: seq<nat>, count: nat, offset: nat) returns (w: int)
      requires Valid() && count <= |buffer| && offset + count <= |bytes|
      modifies this
      ensures Valid() && -1 <= w <= count
      ensures var n := if w > 0 then w else 0;
              && Wrote(old(bytes), old(units), bytes, units, unit, buffer, offset, n)
              && unwritten == AfterWrite(old(unwritten), Stray(|bytes|, old(units), unit, offset, n), offset, n)
              && top == (if n > 0 && old(top) < offset + n then offset + n else old(top))
      ensures faults == old(faults) + (if w < count then 1 else 0)
    {
      hide UnitOf, HolesAreZero, Backed, StrayInv, Stray, Units, AfterWrite;
      ghost var bytes0, units0, unwritten0 := bytes, units, unwritten;
      w := *;
      if !(0 <= w <= count) {
        w := -1;
      }
      var n := if w > 0 then w else 0;
      bytes := bytes[..offset] + buffer[..n] + bytes[offset + n..];
      units := units + Units(offset, n, unit);
      unwritten := AfterWrite(unwritten, Stray(|bytes|, units0, unit, offset, n), offset, n);
      top := if n > 0 && top < offset + n then offset + n else top;
      faults := faults + if w < count then 1 else 0;
      assert Wrote(bytes0, units0, bytes, units, unit, buffer, offset, n);
      WriteKeeps(bytes0, units0, bytes, units, unit, buffer, offset, n, unwritten0);
    }
  }

  /** Positions that are allocated without having been written, after a truncation: a file that
      grows inside an allocated unit gets new ones. */
  ghost function AfterCut(unwritten: set<nat>, size: nat, units: set<nat>, unit: nat, size': nat): set<nat>
    requires unit > 0
  {
    set k: nat | k < size' && (k in unwritten || (size <= k && UnitOf(k, unit) in units))
  }

  /** The same after a write of `w` bytes at `offset` that allocated `stray` besides. */
  ghost function AfterWrite(unwritten: set<nat>, stray: set<nat>, offset: nat, w: nat): set<nat> {
    set k | k in unwritten + stray && !(offset <= k < offset + w)
  }

  /** What was never written is zero. */
  ghost predicate StrayInv(bytes: Bytes, units: set<nat>, unit: nat, unwritten: set<nat>)
    requires unit > 0
  {
    forall k | k in unwritten :: k < |bytes| && UnitOf(k, unit) in units && bytes[k] == 0
  }

  ghost predicate HolesAreZero(bytes: Bytes, units: set<nat>, unit: nat)
    requires unit > 0
  {
    forall k: nat | k < |bytes| && UnitOf(k, unit) !in units :: bytes[k] == 0
  }

  /** No unit lies wholly behind the end of the file. */
  ghost predicate Backed(bytes: Bytes, units: set<nat>, unit: nat)
    requires unit > 0
  {
    forall u | u in units :: exists k: nat :: k < |bytes| && UnitOf(k, unit) == u
  }

  /** `w` bytes of the buffer were written at `offset`. */
  ghost predicate Wrote(bytes: Bytes, units: set<nat>, bytes': Bytes, units': set<nat>, unit: nat,
                        buffer: Bytes, offset: nat, w: nat)
    requires unit > 0
  {
    && |bytes'| == |bytes| && offset + w <= |bytes| && w <= |buffer|
    && (forall k: nat | k < |bytes| :: bytes'[k] == if offset <= k < offset + w then buffer[k - offset] else bytes[k])
    && units' == units + Units(offset, w, unit)
  }

  // ----- what a write leaves behind

  /** Allocated bytes are bytes of the remote file. */
  ghost predicate Agrees(bytes: Bytes, units: set<nat>, unit: nat, src: Bytes)
    requires unit > 0
  {
    forall k: nat | k < |bytes| && UnitOf(k, unit) in units :: k < |src| && bytes[k] == src[k]
  }

  predicate CopiedTo(bytes: Bytes, src: Bytes, n: nat) {
    n <= |bytes| && n <= |src| && forall k | 0 <= k < n :: bytes[k] == src[k]
  }

  /** The positions a write of `w` bytes at `offset` allocates without writing them. */
  ghost function Stray(size: nat, units: set<nat>, unit: nat, offset: nat, w: nat): set<nat>
    requires unit > 0
  {
    set k: nat | k < size && !(offset <= k < offset + w)
                 && UnitOf(k, unit) in Units(offset, w, unit) && UnitOf(k, unit) !in units
  }

  /** The remote file is zero there. */
  predicate ZeroAt(stray: set<nat>, src: Bytes) {
    forall k | k in stray :: k < |src| && src[k] == 0
  }

  /** After a write of remote bytes the allocated bytes are still the remote file's exactly when
      it is zero wherever the write allocated more than it wrote. */
  lemma WriteAgrees(bytes: Bytes, units: set<nat>, bytes': Bytes, units': set<nat>, unit: nat,
                    buffer: Bytes, offset: nat, w: nat, src: Bytes)
    requires unit > 0 && HolesAreZero(bytes, units, unit) && Agrees(bytes, units, unit, src)
    requires Wrote(bytes, units, bytes', units', unit, buffer, offset, w)
    requires offset + w <= |src| && forall k | 0 <= k < w :: buffer[k] == src[offset + k]
    ensures Agrees(bytes', units', unit, src) <==> ZeroAt(Stray(|bytes|, units, unit, offset, w), src)
  {
    hide UnitOf;
    var stray := Stray(|bytes|, units, unit, offset, w);
    if Agrees(bytes', units', unit, src) {
      forall k | k in stray ensures k < |src| && src[k] == 0 {
        assert UnitOf(k, unit) in units';
      }
    }
    if ZeroAt(stray, src) {
      forall k: nat | k < |bytes'| && UnitOf(k, unit) in units' ensures k < |src| && bytes'[k] == src[k] {
        WrittenOrStray(bytes, units, unit, offset, w, k);
      }
    }
  }

  lemma WrittenOrStray(bytes: Bytes, units: set<nat>, unit: nat, offset: nat, w: nat, k: nat)
    requires unit > 0 && k < |bytes| && UnitOf(k, unit) in units + Units(offset, w, unit)
    ensures offset <= k < offset + w || UnitOf(k, unit) in units || k in Stray(|bytes|, units, unit, offset, w)
  {
  }

  /** A write between unit boundaries, or up to the end of the file, leaves nothing behind. */
  lemma NoStray(size: nat, units: set<nat>, unit: nat, offset: nat, w: nat)
    requires unit > 0 && Aligned(offset, unit) && (Aligned(offset + w, unit) || offset + w >= size)
    ensures Stray(size, units, unit, offset, w) == {}
  {
    StrayWithin(size, units, unit, offset, w, w);
  }

  /** Such bytes mislead a resumed copy: one byte of a two-byte block written, with units of two
      bytes, leaves a block without a hole that is not the remote file's. */
  lemma CutWriteMisleads()
    ensures var src := [5, 6]; var after, units := [5, 0], {0};
            && Wrote([0, 0], {}, after, units, 2, src, 0, 1)
            && !Agrees(after, units, 2, src) && forall k | 0 <= k < 2 :: UnitOf(k, 2) in units
  {
    var after := [5, 0];
    assert Units(0, 1, 2) == {0} by { assert UnitOf(0, 2) in Units(0, 1, 2); }
    assert UnitOf(1, 2) == 0 && after[1] == 0;
  }

  /** A write keeps the file well-formed. */
  lemma WriteKeeps(bytes: Bytes, units: set<nat>, bytes': Bytes, units': set<nat>, unit: nat,
                   buffer: Bytes, offset: nat, w: nat, unwritten: set<nat>)
    requires unit > 0 && HolesAreZero(bytes, units, unit) && Backed(bytes, units, unit)
    requires StrayInv(bytes, units, unit, unwritten)
    requires Wrote(bytes, units, bytes', units', unit, buffer, offset, w)
    ensures HolesAreZero(bytes', units', unit) && Backed(bytes', units', unit)
    ensures StrayInv(bytes', units', unit, AfterWrite(unwritten, Stray(|bytes|, units, unit, offset, w), offset, w))
  {
    hide UnitOf;
    assert forall k: nat | offset <= k < offset + w :: UnitOf(k, unit) in Units(offset, w, unit);
    forall u | u in units' ensures exists k: nat :: k < |bytes'| && UnitOf(k, unit) == u {
      if u in units {
        var k: nat :| k < |bytes| && UnitOf(k, unit) == u;
        assert k < |bytes'|;
      } else {
        var k :| offset <= k < offset + w && UnitOf(k, unit) == u;
        assert k < |bytes'|;
      }
    }
  }

  // ----- what may be resumed from

  /** Allocated bytes that were written are bytes of the remote file. */
  ghost predicate Sound(bytes: Bytes, units: set<nat>, unit: nat, src: Bytes, unwritten: set<nat>)
    requires unit > 0
  {
    forall k: nat | k < |bytes| && UnitOf(k, unit) in units && k !in unwritten :: k < |src| && bytes[k] == src[k]
  }

  /** Then all allocated bytes are the remote file's exactly when it is zero wherever nothing was
      written. */
  lemma SoundIsAgrees(bytes: Bytes, units: set<nat>, unit: nat, src: Bytes, unwritten: set<nat>)
    requires unit > 0 && StrayInv(bytes, units, unit, unwritten) && Sound(bytes, units, unit, src, unwritten)
    ensures Agrees(bytes, units, unit, src) <==> ZeroAt(unwritten, src)
  {
    hide UnitOf;
  }

  /** Writing remote bytes keeps that. */
  lemma WriteSound(bytes: Bytes, units: set<nat>, bytes': Bytes, units': set<nat>, unit: nat,
                   buffer: Bytes, offset: nat, w: nat, src: Bytes, unwritten: set<nat>)
    requires unit > 0 && Sound(bytes, units, unit, src, unwritten)
    requires Wrote(bytes, units, bytes', units', unit, buffer, offset, w)
    requires offset + w <= |src| && forall k | 0 <= k < w :: buffer[k] == src[offset + k]
    ensures Sound(bytes', units', unit, src,
                  AfterWrite(unwritten, Stray(|bytes|, units, unit, offset, w), offset, w))
  {
    hide UnitOf;
    var after := AfterWrite(unwritten, Stray(|bytes|, units, unit, offset, w), offset, w);
    forall k: nat | k < |bytes'| && UnitOf(k, unit) in units' && k !in after
      ensures k < |src| && bytes'[k] == src[k]
    {
      WrittenOrStray(bytes, units, unit, offset, w, k);
    }
  }

  /** So does truncation of a file all of whose allocated bytes are the remote file's. */
  lemma TruncateSound(bytes: Bytes, units: set<nat>, bytes': Bytes, units': set<nat>, unit: nat, src: Bytes,
                      unwritten: set<nat>)
    requires unit > 0 && Agrees(bytes, units, unit, src) && units' <= units
    requires forall k | 0 <= k < Min(|bytes'|, |bytes|) :: bytes'[k] == bytes[k]
    ensures Sound(bytes', units', unit, src, AfterCut(unwritten, |bytes|, units, unit, |bytes'|))
  {
    hide UnitOf;
  }

  /** Truncation leaves nothing unwritten that was not so before, if the file does not grow or
      ends on a unit boundary. */
  lemma TruncateStrays(bytes: Bytes, units: set<nat>, unit: nat, size: nat, unwritten: set<nat>)
    requires unit > 0 && Backed(bytes, units, unit) && (Aligned(|bytes|, unit) || size <= |bytes|)
    ensures AfterCut(unwritten, |bytes|, units, unit, size) <= unwritten
  {
    hide UnitOf, Aligned;
    forall k: nat | |bytes| <= k < size && UnitOf(k, unit) in units ensures false {
      var j: nat :| j < |bytes| && UnitOf(j, unit) == UnitOf(k, unit);
      Straddle(|bytes|, unit, j, k);
    }
  }

  /** What a write allocates besides lies before any boundary at or after its end. */
  lemma StrayWithin(size: nat, units: set<nat>, unit: nat, offset: nat, w: nat, m: nat)
    requires unit > 0 && w <= m && Aligned(offset, unit) && (Aligned(offset + m, unit) || offset + m >= size)
    ensures forall k | k in Stray(size, units, unit, offset, w) :: offset <= k < offset + m
  {
    hide UnitOf, Aligned;
    forall k | k in Stray(size, units, unit, offset, w) ensures offset <= k < offset + m {
      var j :| offset <= j < offset + w && UnitOf(j, unit) == UnitOf(k, unit);
      Straddle(offset, unit, j, k);
      if offset + m < size {
        Straddle(offset + m, unit, j, k);
      }
    }
  }

  /** Two writes at a boundary, the longer of which ends at one: nothing new is left unwritten. */
  lemma NoNewStrays(size: nat, units: set<nat>, unit: nat, offset: nat, w1: nat, w2: nat, unwritten: set<nat>)
    requires unit > 0 && Aligned(offset, unit)
    requires var m := if w1 < w2 then w2 else w1; Aligned(offset + m, unit) || offset + m >= size
    ensures var one := AfterWrite(unwritten, Stray(size, units, unit, offset, w1), offset, w1);
            var units1 := units + Units(offset, w1, unit);
            AfterWrite(one, Stray(size, units1, unit, offset, w2), offset, w2) <= unwritten
  {
    var m := if w1 < w2 then w2 else w1;
    StrayWithin(size, units, unit, offset, w1, m);
    StrayWithin(size, units + Units(offset, w1, unit), unit, offset, w2, m);
    hide UnitOf, Aligned;
    assert w2 <= w1 ==> Units(offset, w2, unit) <= Units(offset, w1, unit);
  }

  // ----- one block

  /** The buffer begins with the block of the remote file. */
  predicate Holds(b: Bytes, src: Bytes, offset: nat, count: nat) {
    count <= |b| && offset + count <= |src| && forall k | 0 <= k < count :: b[k] == src[offset + k]
  }

  /** What one write tells of the bytes and units. */
  lemma WroteTells(bytes: Bytes, units: set<nat>, bytes': Bytes, units': set<nat>, unit: nat,
                   buffer: Bytes, offset: nat, w: nat)
    requires unit > 0 && Wrote(bytes, units, bytes', units', unit, buffer, offset, w)
    ensures |bytes'| == |bytes| && units' == units + Units(offset, w, unit)
    ensures forall k | 0 <= k < |bytes| ::
              bytes'[k] == if offset <= k < offset + w then buffer[k - offset] else bytes[k]
  {
  }

  lemma NothingMore(size: nat, units: set<nat>, unit: nat, offset: nat, unwritten: set<nat>)
    requires unit > 0
    ensures AfterWrite(unwritten, Stray(size, units, unit, offset, 0), offset, 0) == unwritten
  {
  }

  /** Write `count` bytes of the buffer, of which the read brought `r`, with one retry. A write that
      fell short of `r` twice is an error; so is a read that brought more than the block. */
  method WriteBlock(dst: LocalFile, b: Bytes, offset: nat, count: nat, r: nat, ghost src: Bytes) returns (ok: bool)
    requires dst.Valid() && 0 < count <= |b| && offset + count <= |dst.bytes|
    modifies dst
    ensures dst.Valid() && |dst.bytes| == |old(dst.bytes)| && old(dst.units) <= dst.units
    ensures forall k | 0 <= k < |dst.bytes| && !(offset <= k < offset + count) :: dst.bytes[k] == old(dst.bytes)[k]
    ensures Holds(b, src, offset, count) && Sound(old(dst.bytes), old(dst.units), dst.unit, src, old(dst.unwritten)) ==>
              Sound(dst.bytes, dst.units, dst.unit, src, dst.unwritten)
    ensures ok && r >= count ==> forall k | offset <= k < offset + count :: dst.bytes[k] == b[k - offset]
    ensures old(dst.top) <= offset ==> old(dst.top) <= dst.top <= offset + count
    ensures old(dst.top) <= offset && Aligned(offset, dst.unit) && AtBoundary(dst.top, dst.unit, |dst.bytes|) ==>
              dst.unwritten <= old(dst.unwritten)
    ensures ok && r >= count && old(dst.top) <= offset ==> dst.top == offset + count
    ensures dst.faults >= old(dst.faults) + (if !ok && r <= count then 2 else 0)
    ensures dst.faults == old(dst.faults) ==> (ok <==> r <= count)
  {
    hide Wrote, Units, Sound, Stray, AfterWrite, UnitOf, Aligned, HolesAreZero, Backed, StrayInv, Holds;
    ghost var size, units0, unwritten0 := |dst.bytes|, dst.units, dst.unwritten;
    ghost var sound := Holds(b, src, offset, count) && Sound(dst.bytes, dst.units, dst.unit, src, dst.unwritten);
    ghost var w1, w2 := 0, 0;
    var w;
    w, w1 := WriteOnce(dst, b, offset, count, src, sound);
    NothingMore(size, dst.units, dst.unit, offset, dst.unwritten);
    if w < r {
      w, w2 := WriteOnce(dst, b, offset, count, src, sound);
    }
    ok := w >= r;
    if old(dst.top) <= offset && Aligned(offset, dst.unit) && AtBoundary(dst.top, dst.unit, size) {
      if w1 > 0 || w2 > 0 {
        NoNewStrays(size, units0, dst.unit, offset, w1, w2, unwritten0);
      } else {
        NothingMore(size, units0, dst.unit, offset, unwritten0);
        NothingMore(size, units0 + Units(offset, 0, dst.unit), dst.unit, offset, unwritten0);
      }
    }
  }

  /** A unit boundary or the end of the file. */
  ghost predicate AtBoundary(a: nat, unit: nat, size: nat) {
    Aligned(a, unit) || a >= size
  }

  /** One write, of `n` bytes. */
  method WriteOnce(dst: LocalFile, b: Bytes, offset: nat, count: nat, ghost src: Bytes, ghost sound: bool)
    returns (w: int, ghost n: nat)
    requires dst.Valid() && 0 < count <= |b| && offset + count <= |dst.bytes|
    requires sound ==> Holds(b, src, offset, count) && Sound(dst.bytes, dst.units, dst.unit, src, dst.unwritten)
    modifies dst
    ensures dst.Valid() && |dst.bytes| == |old(dst.bytes)| && -1 <= w <= count && n == if w > 0 then w else 0
    ensures forall k | 0 <= k < |dst.bytes| ::
              dst.bytes[k] == if offset <= k < offset + n then b[k - offset] else old(dst.bytes)[k]
    ensures sound ==> Sound(dst.bytes, dst.units, dst.unit, src, dst.unwritten)
    ensures dst.units == old(dst.units) + Units(offset, n, dst.unit)
    ensures dst.unwritten ==
            AfterWrite(old(dst.unwritten), Stray(|dst.bytes|, old(dst.units), dst.unit, offset, n), offset, n)
    ensures dst.top == if n > 0 && old(dst.top) < offset + n then offset + n else old(dst.top)
    ensures dst.faults == old(dst.faults) + (if w < count then 1 else 0)
  {
    hide Wrote, Units, Sound, Stray, AfterWrite, UnitOf, HolesAreZero, Backed, StrayInv;
    ghost var bytes0, units0, unwritten0 := dst.bytes, dst.units, dst.unwritten;
    w := dst.Pwrite(b, count, offset);
    n := if w > 0 then w else 0;
    WroteTells(bytes0, units0, dst.bytes, dst.units, dst.unit, b, offset, n);
    if sound {
      WriteSound(bytes0, units0, dst.bytes, dst.units, dst.unit, b, offset, n, src, unwritten0);
    }
  }

  /** Copy one block: read with one retry, then write with one retry. A block read in full is the
      remote file's when the copy succeeds, nothing outside it changes, and what was written stays
      the remote file's in any case. It fails only after two failures, or when the read brings
      more than the block. */
  method CopyBlock(dst: LocalFile, src: RemoteFile, buffer: Bytes, offset: nat, count: nat)
    returns (ok: bool, b: Bytes)
    requires dst.Valid() && 0 < count <= |buffer| && offset + count <= |dst.bytes|
    modifies dst, src
    ensures dst.Valid() && |dst.bytes| == |old(dst.bytes)| && |b| == |buffer| && old(dst.units) <= dst.units
    ensures forall k | 0 <= k < |dst.bytes| && !(offset <= k < offset + count) :: dst.bytes[k] == old(dst.bytes)[k]
    ensures src.shorts >= old(src.shorts) && src.faults >= old(src.faults) && dst.faults >= old(dst.faults)
    ensures src.shorts == old(src.shorts) && offset + count <= |src.bytes| ==>
              && (Sound(old(dst.bytes), old(dst.units), dst.unit, src.bytes, old(dst.unwritten)) ==>
                    Sound(dst.bytes, dst.units, dst.unit, src.bytes, dst.unwritten))
              && (ok ==> forall k | offset <= k < offset + count :: dst.bytes[k] == src.bytes[k])
              && (ok && old(dst.top) <= offset ==> dst.top == offset + count)
    ensures old(dst.top) <= offset ==> old(dst.top) <= dst.top <= offset + count
    ensures old(dst.top) <= offset && Aligned(offset, dst.unit) && AtBoundary(dst.top, dst.unit, |dst.bytes|) ==>
              dst.unwritten <= old(dst.unwritten)
    ensures !ok && Available(|src.bytes|, offset, |buffer|) <= count ==>
              src.faults + dst.faults >= old(src.faults) + old(dst.faults) + 2
    ensures NoTrouble(src.faults, src.shorts, dst.faults, old(src.faults), old(src.shorts), old(dst.faults)) ==>
              (ok <==> Available(|src.bytes|, offset, |buffer|) <= count)
    ensures old(src.fetched) <= src.fetched
    ensures forall k | |old(src.fetched)| <= k < |src.fetched| :: src.fetched[k] == offset
  {
    hide Sound, Aligned, HolesAreZero, Backed, StrayInv, UnitOf;
    var r;
    b, r := src.Pread(buffer, offset);
    if r < 0 {
      b, r := src.Pread(b, offset);
    }
    if r < 0 {
      return false, b;
    }
    ok := WriteBlock(dst, b, offset, count, r, src.bytes);
  }

  /** No read or write has failed or come back short. */
  predicate NoTrouble(readFaults: nat, shorts: nat, writeFaults: nat, readFaults0: nat, shorts0: nat,
                      writeFaults0: nat) {
    readFaults == readFaults0 && shorts == shorts0 && writeFaults == writeFaults0
  }

  // ----- the whole file

  /** A temporary file that a copy may resume from: what is allocated is the remote file's, and
      blocks and a growing file begin at unit boundaries. */
  ghost predicate Resumable(bytes: Bytes, units: set<nat>, unit: nat, src: Bytes, fileSize: nat, blockSize: nat)
    requires unit > 0
  {
    && Agrees(bytes, units, unit, src)
    && Aligned(blockSize, unit)
    && AtBoundary(|bytes|, unit, fileSize)
  }

  /** The block has a hole, or is the incomplete last one. */
  predicate HasHole(units: set<nat>, unit: nat, offset: nat, blockSize: nat, size: nat)
    requires unit > 0
  {
    offset + blockSize > size || exists k :: offset <= k < offset + blockSize && UnitOf(k, unit) !in units
  }

  lemma SkippedBlock(bytes: Bytes, units: set<nat>, unit: nat, src: Bytes, offset: nat, upTo: nat)
    requires unit > 0 && Agrees(bytes, units, unit, src) && CopiedTo(bytes, src, offset) && offset <= upTo <= |bytes|
    requires forall k | offset <= k < upTo :: UnitOf(k, unit) in units
    ensures CopiedTo(bytes, src, upTo)
  {
    hide UnitOf;
    forall k: nat | offset <= k < upTo ensures k < |src| && bytes[k] == src[k] {
      assert UnitOf(k, unit) in units;
    }
    if offset < upTo {
      var last := upTo - 1;
      assert last < |src| && bytes[last] == src[last];
    }
  }

  lemma WholeFile(bytes: Bytes, src: Bytes)
    requires CopiedTo(bytes, src, |bytes|)
    ensures |bytes| <= |src| && bytes == src[..|bytes|]
  {
  }

  lemma BlockCopied(before: Bytes, after: Bytes, src: Bytes, offset: nat, end: nat)
    requires CopiedTo(before, src, offset) && offset < end <= |after| == |before| && end <= |src|
    requires forall k | 0 <= k < offset :: after[k] == before[k]
    requires forall k | offset <= k < end :: after[k] == src[k]
    ensures CopiedTo(after, src, end)
  {
  }

  lemma LessUnwritten(a: set<nat>, b: set<nat>, src: Bytes)
    requires a <= b && ZeroAt(b, src)
    ensures ZeroAt(a, src)
  {
  }

  /** What a copy that began with `u0` unwritten has kept, up to `offset`: reads were full, `agreed`
      says the file agreed with the remote one at first, `copied` that all of it is to be right. */
  ghost predicate Kept(bytes: Bytes, units: set<nat>, unit: nat, unwritten: set<nat>, u0: set<nat>, src: Bytes,
                       offset: nat, agreed: bool, copied: bool, aligned: bool)
    requires unit > 0
  {
    && (agreed ==> Sound(bytes, units, unit, src, unwritten))
    && (copied ==> CopiedTo(bytes, src, if offset < |bytes| then offset else |bytes|))
    && (aligned ==> unwritten <= u0)
  }

  /** Skipping a block without a hole, when resuming. */
  lemma SkipKept(bytes: Bytes, units: set<nat>, unit: nat, unwritten: set<nat>, u0: set<nat>, src: Bytes,
                 offset: nat, blockSize: nat, agreed: bool, copied: bool, aligned: bool)
    requires unit > 0 && StrayInv(bytes, units, unit, unwritten)
    requires Kept(bytes, units, unit, unwritten, u0, src, offset, agreed, copied, aligned)
    requires offset + blockSize <= |bytes| && forall k | offset <= k < offset + blockSize :: UnitOf(k, unit) in units
    requires copied ==> agreed && aligned && ZeroAt(u0, src)
    ensures Kept(bytes, units, unit, unwritten, u0, src, offset + blockSize, agreed, copied, aligned)
  {
    hide Sound, UnitOf, StrayInv, CopiedTo, ZeroAt, Agrees;
    if copied {
      LessUnwritten(unwritten, u0, src);
      SoundIsAgrees(bytes, units, unit, src, unwritten);
      SkippedBlock(bytes, units, unit, src, offset, offset + blockSize);
    }
  }

  /** The next block, and what it keeps. */
  method CopyNext(dst: LocalFile, src: RemoteFile, buffer: Bytes, offset: nat, count: nat,
                  ghost u0: set<nat>, ghost agreed: bool, ghost copied: bool, ghost aligned: bool)
    returns (ok: bool, b: Bytes)
    requires dst.Valid() && 0 < count <= |buffer| && offset + count <= |dst.bytes|
    requires dst.top <= offset
    requires aligned ==> Aligned(offset, dst.unit) && AtBoundary(offset + count, dst.unit, |dst.bytes|)
    modifies dst, src
    ensures dst.Valid() && |dst.bytes| == |old(dst.bytes)| && |b| == |buffer| && old(dst.units) <= dst.units
    ensures src.shorts >= old(src.shorts) && src.faults >= old(src.faults) && dst.faults >= old(dst.faults)
    ensures dst.top <= offset + count
    ensures old(Kept(dst.bytes, dst.units, dst.unit, dst.unwritten, u0, src.bytes, offset, agreed, copied, aligned)) &&
            src.shorts == old(src.shorts) && offset + count <= |src.bytes| ==>
              if ok
              then Kept(dst.bytes, dst.units, dst.unit, dst.unwritten, u0, src.bytes, offset + count, agreed, copied,
                        aligned)
              else && (agreed ==> Sound(dst.bytes, dst.units, dst.unit, src.bytes, dst.unwritten))
                   && (aligned && AtBoundary(dst.top, dst.unit, |dst.bytes|) ==> dst.unwritten <= u0)
    ensures !ok && Available(|src.bytes|, offset, |buffer|) <= count ==>
              src.faults + dst.faults >= old(src.faults) + old(dst.faults) + 2
    ensures NoTrouble(src.faults, src.shorts, dst.faults, old(src.faults), old(src.shorts), old(dst.faults)) ==>
              (ok <==> Available(|src.bytes|, offset, |buffer|) <= count)
    ensures old(src.fetched) <= src.fetched
    ensures forall k | |old(src.fetched)| <= k < |src.fetched| :: src.fetched[k] == offset
  {
    hide Sound, Aligned, HolesAreZero, Backed, StrayInv, UnitOf, CopiedTo;
    ghost var bytes0 := dst.bytes;
    ghost var kept := Kept(dst.bytes, dst.units, dst.unit, dst.unwritten, u0, src.bytes, offset, agreed, copied,
                           aligned);
    ok, b := CopyBlock(dst, src, buffer, offset, count);
    if ok && kept && copied && src.shorts == old(src.shorts) && offset + count <= |src.bytes| {
      BlockCopied(bytes0, dst.bytes, src.bytes, offset, offset + count);
    }
  }

  /** The last block is incomplete, and the remote file goes on after it: the read brings more than
      the block, which the copy takes for a short write. */
  predicate Overlong(size: nat, fileSize: nat, blockSize: nat)
    requires blockSize > 0
  {
    size > fileSize && fileSize % blockSize != 0
  }

  /** The end of the first `m` blocks. */
  function Span(m: nat, blockSize: nat): nat {
    MulMono(0, m, blockSize);
    m * blockSize
  }

  lemma SpanMono(a: nat, b: nat, blockSize: nat)
    requires a <= b
    ensures Span(a, blockSize) <= Span(b, blockSize)
  {
    MulMono(a, b, blockSize);
  }

  lemma OverlongBlock(size: nat, fileSize: nat, blockSize: nat, m: nat, offset: nat)
    requires blockSize > 0 && offset == Span(m, blockSize) < fileSize
    ensures var count := Min(blockSize, fileSize - offset);
            && (Available(size, offset, blockSize) > count ==> Overlong(size, fileSize, blockSize))
            && (Overlong(size, fileSize, blockSize) && offset + count >= fileSize ==>
                  Available(size, offset, blockSize) > count)
            && (offset + blockSize == fileSize ==> !Overlong(size, fileSize, blockSize))
            && (offset + count < fileSize ==> count == blockSize)
            && Span(m + 1, blockSize) == offset + blockSize
  {
    assert (m + 1) * blockSize == m * blockSize + blockSize;
    if fileSize - offset <= blockSize {
      LastBlock(fileSize, blockSize, m);
    }
  }

  lemma LastBlock(fileSize: nat, blockSize: nat, m: nat)
    requires blockSize > 0 && 0 <= m * blockSize < fileSize <= m * blockSize + blockSize
    ensures fileSize % blockSize == 0 <==> fileSize == m * blockSize + blockSize
  {
    var rest := fileSize - m * blockSize;
    if rest == blockSize {
      assert (m + 1) * blockSize == m * blockSize + blockSize;
      OneQuotient(m + 1, 0, fileSize / blockSize, fileSize % blockSize, blockSize);
    } else {
      OneQuotient(m, rest, fileSize / blockSize, fileSize % blockSize, blockSize);
    }
  }

  lemma OneQuotient(q: nat, r: nat, q': nat, r': nat, m: nat)
    requires r < m && r' < m && q * m + r == q' * m + r'
    ensures r == r'
  {
    assert (q + 1) * m == q * m + m && (q' + 1) * m == q' * m + m;
    if q < q' {
      MulMono(q + 1, q', m);
    } else if q' < q {
      MulMono(q' + 1, q, m);
    }
  }

  /** Blocks, the file before the copy and the highest write all end at unit boundaries. */
  ghost predicate Bounded(size0: nat, top: nat, unit: nat, fileSize: nat, blockSize: nat) {
    Aligned(blockSize, unit) && AtBoundary(size0, unit, fileSize) && AtBoundary(top, unit, fileSize)
  }

  /** The reads so far were full. */
  predicate Full(shorts: nat, shorts0: nat, fileSize: nat, size: nat) {
    shorts == shorts0 && fileSize <= size
  }

  ghost predicate AllHoles(fetched: seq<nat>, from: nat, units: set<nat>, unit: nat, blockSize: nat, size: nat)
    requires unit > 0
  {
    forall k | from <= k < |fetched| :: HasHole(units, unit, fetched[k], blockSize, size)
  }

  lemma HoleThere(units: set<nat>, more: set<nat>, unit: nat, offset: nat, blockSize: nat, size: nat, hole: int)
    requires unit > 0 && units <= more && offset <= hole < offset + blockSize && hole <= size
    requires hole < size ==> UnitOf(hole, unit) !in more
    ensures HasHole(units, unit, offset, blockSize, size)
  {
    hide UnitOf;
  }

  lemma BoundaryNext(offset: nat, blockSize: nat, count: nat, unit: nat, size: nat)
    requires Aligned(blockSize, unit) && AtBoundary(offset, unit, size) && offset < size
    requires count == Min(blockSize, size - offset)
    ensures Aligned(offset, unit)
    ensures AtBoundary(offset + count, unit, size) && AtBoundary(offset + blockSize, unit, size)
  {
    AlignedSum(offset, blockSize, unit);
  }

  /** The loop over the blocks. */
  method CopyAll(dst: LocalFile, src: RemoteFile, fileSize: nat, blockSize: nat, force: bool, polls: nat,
                 ghost u0: set<nat>, ghost units0: set<nat>, ghost agreed: bool, ghost copied: bool,
                 ghost aligned: bool)
    returns (ok: bool)
    requires dst.Valid() && blockSize > 0 && |dst.bytes| == fileSize && dst.top == 0
    requires dst.unwritten == u0 && dst.units == units0
    requires agreed ==> Sound(dst.bytes, dst.units, dst.unit, src.bytes, dst.unwritten)
    requires copied ==> force || (agreed && aligned && ZeroAt(u0, src.bytes))
    requires aligned ==> Aligned(blockSize, dst.unit)
    modifies dst, src
    ensures dst.Valid() && |dst.bytes| == fileSize
    ensures Full(src.shorts, old(src.shorts), fileSize, |src.bytes|) ==>
              && (agreed ==> Sound(dst.bytes, dst.units, dst.unit, src.bytes, dst.unwritten))
              && (aligned && AtBoundary(dst.top, dst.unit, fileSize) ==> dst.unwritten <= u0)
              && (ok && copied ==> CopiedTo(dst.bytes, src.bytes, fileSize))
    ensures polls >= fileSize
            && NoTrouble(src.faults, src.shorts, dst.faults, old(src.faults), old(src.shorts), old(dst.faults)) ==>
              (ok <==> !Overlong(|src.bytes|, fileSize, blockSize))
    ensures !ok && polls >= fileSize && !Overlong(|src.bytes|, fileSize, blockSize) ==>
              src.faults + dst.faults >= old(src.faults) + old(dst.faults) + 2
    ensures ok ==> fileSize <= Span(polls, blockSize)
    ensures old(src.fetched) <= src.fetched
    ensures !force && dst.faults == old(dst.faults) ==>
              AllHoles(src.fetched, |old(src.fetched)|, units0, dst.unit, blockSize, fileSize)
  {
    hide Sound, Aligned, HolesAreZero, Backed, StrayInv, UnitOf, CopiedTo, ZeroAt, HasHole, Overlong, Available;
    hide AtBoundary, Kept, AllHoles, Span;
    ghost var unit := dst.unit;
    var buffer: seq<nat> := seq(blockSize, _ => 0);
    var offset, turns := 0, 0;
    Begins(dst.bytes, dst.units, unit, u0, src.bytes, blockSize, agreed, copied, aligned, src.fetched);
    while offset < fileSize
      invariant dst.Valid() && |dst.bytes| == fileSize && |buffer| == blockSize && dst.top <= offset
      invariant turns <= offset && offset <= Span(turns, blockSize) && turns <= polls
      invariant offset < fileSize ==> offset == Span(turns, blockSize)
      invariant units0 <= dst.units && old(src.fetched) <= src.fetched
      invariant aligned ==> AtBoundary(offset, unit, fileSize)
      invariant src.faults >= old(src.faults) && src.shorts >= old(src.shorts) && dst.faults >= old(dst.faults)
      invariant Full(src.shorts, old(src.shorts), fileSize, |src.bytes|) ==>
                  Kept(dst.bytes, dst.units, unit, dst.unwritten, u0, src.bytes, offset, agreed, copied, aligned)
      invariant offset >= fileSize
                && NoTrouble(src.faults, src.shorts, dst.faults, old(src.faults), old(src.shorts), old(dst.faults)) ==>
                  !Overlong(|src.bytes|, fileSize, blockSize)
      invariant !force && dst.faults == old(dst.faults) ==>
                  AllHoles(src.fetched, |old(src.fetched)|, units0, unit, blockSize, fileSize)
    {
      if turns >= polls {
        if Full(src.shorts, old(src.shorts), fileSize, |src.bytes|) {
          KeptTells(dst.bytes, dst.units, unit, dst.unwritten, u0, src.bytes, offset, agreed, copied, aligned);
        }
        return false;
      }
      OverlongBlock(|src.bytes|, fileSize, blockSize, turns, offset);
      var count := Min(blockSize, fileSize - offset);
      if aligned {
        BoundaryNext(offset, blockSize, count, unit, fileSize);
      }
      turns := turns + 1;
      var skip := false;
      if !force {
        var hole := dst.SeekHole(offset);
        skip := hole >= offset + blockSize;
        if !skip && hole >= 0 {
          HoleThere(units0, dst.units, unit, offset, blockSize, fileSize, hole);
        }
      }
      if skip {
        if Full(src.shorts, old(src.shorts), fileSize, |src.bytes|) {
          SkipKept(dst.bytes, dst.units, unit, dst.unwritten, u0, src.bytes, offset, blockSize, agreed, copied,
                   aligned);
        }
        offset := offset + blockSize;
      } else {
        ghost var fetched := src.fetched;
        ok, buffer := CopyNext(dst, src, buffer, offset, count, u0, agreed, copied, aligned);
        if !force && dst.faults == old(dst.faults) {
          HolesGrow(fetched, src.fetched, |old(src.fetched)|, units0, unit, offset, blockSize, fileSize);
        }
        if !ok {
          return;
        }
        offset := offset + count;
      }
    }
    if Full(src.shorts, old(src.shorts), fileSize, |src.bytes|) {
      KeptTells(dst.bytes, dst.units, unit, dst.unwritten, u0, src.bytes, offset, agreed, copied, aligned);
    }
    SpanMono(turns, polls, blockSize);
    ok := true;
  }

  lemma KeptTells(bytes: Bytes, units: set<nat>, unit: nat, unwritten: set<nat>, u0: set<nat>, src: Bytes,
                  offset: nat, agreed: bool, copied: bool, aligned: bool)
    requires unit > 0 && Kept(bytes, units, unit, unwritten, u0, src, offset, agreed, copied, aligned)
    ensures (agreed ==> Sound(bytes, units, unit, src, unwritten)) && (aligned ==> unwritten <= u0)
    ensures copied && offset >= |bytes| ==> CopiedTo(bytes, src, |bytes|)
  {
    hide Sound, CopiedTo;
  }

  lemma HolesGrow(fetched: seq<nat>, fetched': seq<nat>, from: nat, units: set<nat>, unit: nat, offset: nat,
                  blockSize: nat, size: nat)
    requires unit > 0 && AllHoles(fetched, from, units, unit, blockSize, size) && fetched <= fetched'
    requires forall k | |fetched| <= k < |fetched'| :: fetched'[k] == offset
    requires HasHole(units, unit, offset, blockSize, size)
    ensures AllHoles(fetched', from, units, unit, blockSize, size)
  {
    hide HasHole;
  }

  lemma Begins(bytes: Bytes, units: set<nat>, unit: nat, u0: set<nat>, src: Bytes, blockSize: nat,
               agreed: bool, copied: bool, aligned: bool, fetched: seq<nat>)
    requires unit > 0 && blockSize > 0 && (agreed ==> Sound(bytes, units, unit, src, u0))
    ensures Kept(bytes, units, unit, u0, u0, src, 0, agreed, copied, aligned)
    ensures AtBoundary(0, unit, |bytes|) && Span(0, blockSize) == 0
    ensures |bytes| == 0 ==> !Overlong(|src|, |bytes|, blockSize)
    ensures AllHoles(fetched, |fetched|, units, unit, blockSize, |bytes|)
  {
    hide Sound;
    assert 0 * unit == 0;
  }

  /** Copy every block, skipping on resumption the blocks without a hole unless the copy is forced;
      the image is seen closed after `polls` blocks. When no read was short:

      - a file whose allocated bytes are the remote file's is such a file again on every exit, if
        and only if the remote file is zero wherever nothing was written; no such place is new
        unless the highest write stopped inside a unit;
      - on success the file is the remote file, when the copy was forced or resumed from such a
        file.

      A copy that meets no trouble succeeds exactly when the remote file is not longer than
      expected or the last block is complete, and any other copy fails only after two failures or
      because the image was closed. A block without a hole is not fetched again. */
  method Download(dst: LocalFile, src: RemoteFile, fileSize: nat, blockSize: nat, force: bool, polls: nat)
    returns (ok: bool)
    requires dst.Valid() && blockSize > 0
    modifies dst, src
    ensures dst.Valid() && |dst.bytes| == fileSize
    ensures src.shorts == old(src.shorts) && fileSize <= |src.bytes| ==>
              && (Agrees(old(dst.bytes), old(dst.units), dst.unit, src.bytes) ==>
                    (Agrees(dst.bytes, dst.units, dst.unit, src.bytes) <==> ZeroAt(dst.unwritten, src.bytes)))
              && (Bounded(|old(dst.bytes)|, dst.top, dst.unit, fileSize, blockSize) ==>
                    dst.unwritten <= old(dst.unwritten))
              && (ok
                  && (force
                      || Resumable(old(dst.bytes), old(dst.units), dst.unit, src.bytes, fileSize, blockSize)) ==>
                    dst.bytes == src.bytes[..fileSize])
    ensures polls >= fileSize
            && NoTrouble(src.faults, src.shorts, dst.faults, old(src.faults), old(src.shorts), old(dst.faults)) ==>
              (ok <==> !Overlong(|src.bytes|, fileSize, blockSize))
    ensures !ok && polls >= fileSize && !Overlong(|src.bytes|, fileSize, blockSize) ==>
              src.faults + dst.faults >= old(src.faults) + old(dst.faults) + 2
    ensures ok ==> fileSize <= Span(polls, blockSize)
    ensures old(src.fetched) <= src.fetched
    ensures !force && dst.faults == old(dst.faults) ==>
              forall k | |old(src.fetched)| <= k < |src.fetched| ::
                HasHole(old(dst.units), dst.unit, src.fetched[k], blockSize, fileSize)
  {
    hide Sound, Aligned, HolesAreZero, Backed, StrayInv, UnitOf, CopiedTo, ZeroAt, HasHole, Overlong;
    hide AtBoundary, Agrees;
    ghost var unit := dst.unit;
    ghost var bytes0, units0, unwritten0 := dst.bytes, dst.units, dst.unwritten;
    ghost var agreed := Agrees(bytes0, units0, unit, src.bytes);
    ghost var resumed := Resumable(bytes0, units0, unit, src.bytes, fileSize, blockSize);
    ghost var aligned := Aligned(blockSize, unit);
    dst.Ftruncate(fileSize);
    ghost var u0, units1 := dst.unwritten, dst.units;
    if agreed {
      TruncateSound(bytes0, units0, dst.bytes, dst.units, unit, src.bytes, unwritten0);
    }
    if AtBoundary(|bytes0|, unit, fileSize) {
      NoneGained(bytes0, units0, unit, fileSize, unwritten0);
    }
    if resumed {
      OldStraysAgree(bytes0, units0, unit, src.bytes, unwritten0, u0);
    }
    ok := CopyAll(dst, src, fileSize, blockSize, force, polls, u0, units1, agreed, force || resumed, aligned);
    if agreed && Full(src.shorts, old(src.shorts), fileSize, |src.bytes|) {
      SoundIsAgrees(dst.bytes, dst.units, unit, src.bytes, dst.unwritten);
    }
    if ok && (force || resumed) && Full(src.shorts, old(src.shorts), fileSize, |src.bytes|) {
      WholeFile(dst.bytes, src.bytes);
    }
    if !force && dst.faults == old(dst.faults) {
      SameHoles(src.fetched, |old(src.fetched)|, units1, units0, unit, blockSize, fileSize);
    }
  }

  lemma NoneGained(bytes: Bytes, units: set<nat>, unit: nat, size: nat, unwritten: set<nat>)
    requires unit > 0 && Backed(bytes, units, unit) && AtBoundary(|bytes|, unit, size)
    ensures AfterCut(unwritten, |bytes|, units, unit, size) <= unwritten
  {
    TruncateStrays(bytes, units, unit, size, unwritten);
  }

  lemma OldStraysAgree(bytes: Bytes, units: set<nat>, unit: nat, src: Bytes, unwritten: set<nat>, u0: set<nat>)
    requires unit > 0 && Agrees(bytes, units, unit, src) && StrayInv(bytes, units, unit, unwritten) && u0 <= unwritten
    ensures ZeroAt(u0, src)
  {
    hide UnitOf;
  }

  lemma SameHoles(fetched: seq<nat>, from: nat, units: set<nat>, units': set<nat>, unit: nat, blockSize: nat, size: nat)
    requires unit > 0 && AllHoles(fetched, from, units, unit, blockSize, size)
    requires forall k: nat | k < size :: UnitOf(k, unit) in units <==> UnitOf(k, unit) in units'
    ensures forall k | from <= k < |fetched| :: HasHole(units', unit, fetched[k], blockSize, size)
  {
    hide UnitOf;
    forall k | from <= k < |fetched| ensures HasHole(units', unit, fetched[k], blockSize, size) {
      assert HasHole(units, unit, fetched[k], blockSize, size);
    }
  }

  /** A remote file of two bytes where one is expected, in blocks of two: the copy fails although
      nothing goes wrong. */
  method TooLongFails(src: RemoteFile) returns (ok: bool, dst: LocalFile)
    requires src.bytes == [5, 6]
    modifies src
    ensures NoTrouble(src.faults, src.shorts, dst.faults, old(src.faults), old(src.shorts), 0) ==> !ok
  {
    dst := new LocalFile(1);
    ok := Download(dst, src, 1, 2, true, 1);
  }
}
