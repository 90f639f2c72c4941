/** convert_qcow2_to_imgfile: writing the clusters of an image to a target, the whole
disk or the rootfs ranges only. */
module Qcow2Convert {
  import opened Collections
  import opened Runs
  import opened Qcow2Format
  import opened Qcow2Reading
  import opened Partitions

  /** Byte `x` of the target, zero where nothing was written. */
  function At(data: seq<Byte>, x: nat): Byte {
    if x < |data| then data[x] else 0
  }

  function Zeros(n: nat): seq<Byte> {
    seq(n, _ => 0)
  }

  /** The target's content after a write. */
  function Overlay(data: seq<Byte>, off: nat, b: seq<Byte>): (r: seq<Byte>)
    ensures forall x: nat :: At(r, x) == if off <= x < off + |b| then b[x - off] else At(data, x)
  {
    var wide := if |data| < off + |b| then data + Zeros(off + |b| - |data|) else data;
    wide[..off] + b + wide[off + |b|..]
  }

  /** The overlaybd image written to; every operation may fail, and then leaves the
      content unspecified. `faults` counts the failures. */
  class Target {
    var data: seq<Byte>
    ghost var faults: nat

    constructor ()
      ensures data == [] && faults == 0
    {
      data, faults := [], 0;
    }

    method Pwrite(b: seq<Byte>, off: nat) returns (written: int)
      modifies this
      ensures written == |b| ==> data == Overlay(old(data), off, b)
      ensures faults == old(faults) + (if written == |b| then 0 else 1)
    {
      var ok: bool := *;
      if ok {
        data := Overlay(data, off, b);
        return |b|;
      }
      data := *;
      faults := faults + 1;
      return -1;
    }

    /** fallocate with PUNCH_HOLE | KEEP_SIZE. */
    method PunchHole(off: nat, len: nat) returns (ret: int)
      modifies this
      ensures ret >= 0 ==> data == Overlay(old(data), off, Zeros(len))
      ensures faults == old(faults) + (if ret >= 0 then 0 else 1)
    {
      var ok: bool := *;
      if ok {
        data := Overlay(data, off, Zeros(len));
        return 0;
      }
      data := *;
      faults := faults + 1;
      return -1;
    }
  }

  /** Where the conversion puts the byte at disk offset `a`; without a filter every byte
      keeps its place. */
  function Place(ranges: Option<Ranges>, a: nat): Option<nat> {
    match ranges
    case None => Some(a)
    case Some(rs) => ToOutput(rs, a)
  }

  ghost predicate AlignedPlaces(ranges: Option<Ranges>, cs: nat) {
    ranges.Some? ==> Aligned(ranges.value, cs)
  }

  /** The byte at `a` has arrived. */
  predicate Arrived(img: Image, ranges: Option<Ranges>, data: seq<Byte>, a: nat)
    requires img.Valid()
  {
    Place(ranges, a).Some? ==> SeenByte(img, a) == Some(At(data, Place(ranges, a).value))
  }

  /** The place of the byte at `a` still reads as zero. */
  predicate Blank(ranges: Option<Ranges>, data: seq<Byte>, a: nat) {
    Place(ranges, a).Some? ==> At(data, Place(ranges, a).value) == 0
  }

  /** The clusters below `i` have arrived and the places of the others are blank. */
  ghost predicate Progress(img: Image, ranges: Option<Ranges>, data: seq<Byte>, i: nat)
    requires img.Valid()
  {
    && (forall a: nat | img.ClusterOf(a) < i :: Arrived(img, ranges, data, a))
    && (forall a: nat | img.ClusterOf(a) >= i :: Blank(ranges, data, a))
  }

  lemma NoTwoShare(ranges: Option<Ranges>, a: nat, b: nat)
    requires Place(ranges, a).Some? && Place(ranges, a) == Place(ranges, b)
    ensures a == b
  {
    if ranges.Some? {
      ThereAndBack(ranges.value, a);
      ThereAndBack(ranges.value, b);
    }
  }

  /** The offset `a` of cluster `c` counted from the start of the cluster. */
  lemma ClusterStart(img: Image, a: nat)
    requires img.Valid()
    ensures a == img.ClusterOf(a) * img.clusterSize + img.InCluster(a)
  {
    QuotRem(a, img.clusterSize);
  }

  lemma PlaceMovesWhole(img: Image, ranges: Option<Ranges>, a: nat)
    requires img.Valid() && AlignedPlaces(ranges, img.clusterSize)
    ensures img.ClusterOf(a) * img.clusterSize >= 0
    ensures Place(ranges, a) ==
            match Place(ranges, img.ClusterOf(a) * img.clusterSize)
            case None => None
            case Some(x) => Some(x + img.InCluster(a))
  {
    hide Quot, Rem;
    ClusterStart(img, a);
    if ranges.Some? {
      ClusterMovesWhole(ranges.value, img.clusterSize, img.ClusterOf(a), img.InCluster(a));
    }
  }

  /** A cluster that is not written needs nothing: it reads as zero or has no place. */
  lemma SkipKeepsProgress(img: Image, ranges: Option<Ranges>, data: seq<Byte>, i: nat)
    requires img.Valid() && AlignedPlaces(ranges, img.clusterSize) && Progress(img, ranges, data, i)
    requires i * img.clusterSize >= 0
    requires SeenCluster(img, i * img.clusterSize).Unallocated? || Place(ranges, i * img.clusterSize).None?
    ensures Progress(img, ranges, data, i + 1)
  {
    forall a: nat | img.ClusterOf(a) < i + 1 ensures Arrived(img, ranges, data, a) {
      if img.ClusterOf(a) == i {
        SkippedByte(img, ranges, data, i, a);
      }
    }
  }

  lemma SkippedByte(img: Image, ranges: Option<Ranges>, data: seq<Byte>, i: nat, a: nat)
    requires img.Valid() && AlignedPlaces(ranges, img.clusterSize) && img.ClusterOf(a) == i
    requires i * img.clusterSize >= 0
    requires SeenCluster(img, i * img.clusterSize).Unallocated? || Place(ranges, i * img.clusterSize).None?
    requires Blank(ranges, data, a)
    ensures Arrived(img, ranges, data, a)
  {
    hide SeenCluster, Place, Quot, Rem;
    PlaceMovesWhole(img, ranges, a);
    ByteOfCluster(img, i, a);
  }

  /** The bytes of cluster `i` are those from its start. */
  lemma ByteOfCluster(img: Image, i: nat, a: nat)
    requires img.Valid() && img.ClusterOf(a) == i
    ensures i * img.clusterSize >= 0
    ensures a == i * img.clusterSize + img.InCluster(a)
    ensures SeenByte(img, a) == ByteAt(img, SeenCluster(img, i * img.clusterSize), img.InCluster(a))
  {
    hide SeenCluster, ByteAt, Quot, Rem;
    ClusterStart(img, a);
    DivMod(i, img.clusterSize, 0);
    SameCluster(img, i * img.clusterSize, img.InCluster(a));
  }

  /** Writing the bytes of cluster `i` at its place. */
  lemma WriteKeepsProgress(img: Image, ranges: Option<Ranges>, data: seq<Byte>, i: nat, b: seq<Byte>)
    requires img.Valid() && AlignedPlaces(ranges, img.clusterSize) && Progress(img, ranges, data, i)
    requires i * img.clusterSize >= 0 && Place(ranges, i * img.clusterSize).Some?
    requires ClusterBytes(img, i, b)
    ensures Progress(img, ranges, Overlay(data, Place(ranges, i * img.clusterSize).value, b), i + 1)
  {
    hide SeenByte, Place, Quot, Rem, Overlay, ClusterBytes, AlignedPlaces;
    var off := Place(ranges, i * img.clusterSize).value;
    var after := Overlay(data, off, b);
    forall a: nat ensures if img.ClusterOf(a) < i + 1 then Arrived(img, ranges, after, a) else Blank(ranges, after, a) {
      WrittenByte(img, ranges, data, i, b, a);
    }
  }

  /** `b` is what the reader sees in cluster `i`. */
  ghost predicate ClusterBytes(img: Image, i: nat, b: seq<Byte>)
    requires img.Valid()
  {
    && |b| == img.clusterSize
    && forall a: nat | img.ClusterOf(a) == i :: SeenByte(img, a) == Some(b[img.InCluster(a)])
  }

  lemma WrittenByte(img: Image, ranges: Option<Ranges>, data: seq<Byte>, i: nat, b: seq<Byte>, a: nat)
    requires img.Valid() && AlignedPlaces(ranges, img.clusterSize)
    requires i * img.clusterSize >= 0 && Place(ranges, i * img.clusterSize).Some?
    requires ClusterBytes(img, i, b)
    requires if img.ClusterOf(a) < i then Arrived(img, ranges, data, a) else Blank(ranges, data, a)
    ensures var after := Overlay(data, Place(ranges, i * img.clusterSize).value, b);
            if img.ClusterOf(a) < i + 1 then Arrived(img, ranges, after, a) else Blank(ranges, after, a)
  {
    hide SeenByte, Quot, Rem, Place;
    var off := Place(ranges, i * img.clusterSize).value;
    PlaceMovesWhole(img, ranges, a);
    if Place(ranges, a).Some? && img.ClusterOf(a) != i {
      var x := Place(ranges, a).value;
      if off <= x < off + |b| {
        OwnPlace(img, ranges, i, x - off);
        NoTwoShare(ranges, a, i * img.clusterSize + (x - off));
        assert false;
      }
    }
  }

  /** Byte `k` of cluster `i` has the place `k` after the cluster's. */
  lemma OwnPlace(img: Image, ranges: Option<Ranges>, i: nat, k: nat)
    requires img.Valid() && AlignedPlaces(ranges, img.clusterSize) && k < img.clusterSize
    requires i * img.clusterSize >= 0 && Place(ranges, i * img.clusterSize).Some?
    ensures img.ClusterOf(i * img.clusterSize + k) == i
    ensures Place(ranges, i * img.clusterSize + k) == Some(Place(ranges, i * img.clusterSize).value + k)
  {
    hide Quot, Rem, Place;
    DivMod(i, img.clusterSize, k);
    PlaceMovesWhole(img, ranges, i * img.clusterSize + k);
  }

  /** A delivered read of a cluster, padded with zeros, is the cluster. */
  lemma PaddedRead(img: Image, i: nat, got: seq<Byte>)
    requires img.Valid() && i * img.clusterSize >= 0
    requires Delivered(img, i * img.clusterSize, img.clusterSize, got)
    ensures ClusterBytes(img, i, got + Zeros(img.clusterSize - |got|))
  {
    var o, b := i * img.clusterSize, got + Zeros(img.clusterSize - |got|);
    forall a: nat | img.ClusterOf(a) == i ensures SeenByte(img, a) == Some(b[img.InCluster(a)]) {
      PaddedByte(img, i, got, a);
    }
  }

  lemma PaddedByte(img: Image, i: nat, got: seq<Byte>, a: nat)
    requires img.Valid() && i * img.clusterSize >= 0 && img.ClusterOf(a) == i
    requires Delivered(img, i * img.clusterSize, img.clusterSize, got)
    ensures SeenByte(img, a) == Some((got + Zeros(img.clusterSize - |got|))[img.InCluster(a)])
  {
    hide SeenByte, PastEof, SeenCluster, Quot, Rem;
    var o, k := i * img.clusterSize, img.InCluster(a);
    ByteOfCluster(img, i, a);
    if k >= |got| {
      DivMod(i, img.clusterSize, 0);
      LiftByte(img, o, |got|, SeenCluster(img, o));
      assert PastIn(img, SeenCluster(img, o), |got|);
    }
  }

  lemma ZeroClusterBytes(img: Image, i: nat)
    requires img.Valid() && i * img.clusterSize >= 0
    requires SeenCluster(img, i * img.clusterSize).Zero?
    ensures ClusterBytes(img, i, Zeros(img.clusterSize))
  {
    forall a: nat | img.ClusterOf(a) == i ensures SeenByte(img, a) == Some(Zeros(img.clusterSize)[img.InCluster(a)]) {
      hide SeenCluster, SeenByte, Quot, Rem;
      ByteOfCluster(img, i, a);
    }
  }

  /** When all listed clusters are done, every byte below the virtual size has arrived. */
  lemma AllArrived(img: Image, ranges: Option<Ranges>, data: seq<Byte>, a: nat)
    requires img.Valid() && Progress(img, ranges, data, ClusterCount(img)) && a < img.virtualSize
    ensures Arrived(img, ranges, data, a)
  {
    if img.ClusterOf(a) >= ClusterCount(img) {
      hide SeenByte, Quot, Rem, Ceil, Place;
      BeyondList(img, a);
      BeyondTableByte(img, a, a);
    }
  }

  lemma BeyondList(img: Image, a: nat)
    requires img.Valid() && a < img.virtualSize && img.ClusterOf(a) >= ClusterCount(img)
    ensures img.L1Index(img.ClusterOf(a)) >= |img.l1|
  {
    hide Quot, Rem, Ceil;
    var c := img.ClusterOf(a);
    assert c < Ceil(img.virtualSize, img.clusterSize) by {
      ClusterStart(img, a);
      CeilBound(img.virtualSize, img.clusterSize, c);
    }
    var n := |img.l1| * img.l2Size;
    assert n <= c;
    DivMod(|img.l1|, img.l2Size, 0);
    QuotMono(n, c, img.l2Size);
  }

  // ----- the conversion

  function RangesOf(filter: PartitionFilter): Option<Ranges>
    reads filter
  {
    if filter.enabled then Some(filter.ranges) else None
  }

  /** A listed cluster is read where it is: its offset does not wrap. */
  lemma ListedFits(img: Image, i: nat)
    requires img.Valid() && i < ClusterCount(img)
    ensures 0 <= i * img.clusterSize && WrappedOffset(img, i * img.clusterSize) == i * img.clusterSize
  {
    hide Quot, Rem, Ceil, Pow2, WrappedOffset;
    assert i + 1 <= |img.l1| * img.l2Size;
    MulMono(|img.l1|, 0x1_0000_0000, img.l2Size);
    MulMono(i + 1, 0x1_0000_0000 * img.l2Size, img.clusterSize);
    assert (i + 1) * img.clusterSize == i * img.clusterSize + img.clusterSize;
    assert 0x1_0000_0000 * img.l2Size * img.clusterSize == 0x1_0000_0000 * (img.l2Size * img.clusterSize);
    NatProduct(i, img.clusterSize);
    WrapFacts(img, i * img.clusterSize);
  }

  /** What a conversion has to be given to preserve the disk: an L1 table that covers at most
      2^64 bytes, ranges on cluster boundaries, and a blank target. */
  ghost predicate Sane(img: Image, ranges: Option<Ranges>, data: seq<Byte>) {
    && CoverageFits(img)
    && AlignedPlaces(ranges, img.clusterSize)
    && (ranges.Some? ==> Total(ranges.value) <= UINT64_MAX)
    && forall x: nat :: At(data, x) == 0
  }

  /** The first `i` clusters of the list are done, of an image and ranges that can be
      converted. */
  ghost predicate Underway(img: Image, ranges: Option<Ranges>, data: seq<Byte>, i: nat)
    requires img.Valid()
  {
    && AlignedPlaces(ranges, img.clusterSize)
    && (ranges.Some? ==> Total(ranges.value) <= UINT64_MAX)
    && i <= ClusterCount(img) && Progress(img, ranges, data, i)
  }

  /** Cluster `i` is to be written and some byte of it cannot be had. */
  ghost predicate Blocked(img: Image, ranges: Option<Ranges>, i: nat)
    requires img.Valid()
  {
    && i * img.clusterSize >= 0 && Place(ranges, i * img.clusterSize).Some?
    && Undeliverable(img, i * img.clusterSize, img.clusterSize)
  }

  ghost predicate SomeBlocked(img: Image, ranges: Option<Ranges>)
    requires img.Valid()
  {
    exists i: nat :: i < ClusterCount(img) && Blocked(img, ranges, i)
  }

  lemma ConstantByte(img: Image, i: nat, k: nat)
    requires img.Valid() && i * img.clusterSize >= 0 && k < img.clusterSize
    requires SeenCluster(img, i * img.clusterSize).Unallocated? || SeenCluster(img, i * img.clusterSize).Zero?
    ensures SeenByte(img, i * img.clusterSize + k) == Some(0)
  {
    hide SeenCluster, SeenByte, Quot, Rem;
    DivMod(i, img.clusterSize, k);
    ByteOfCluster(img, i, i * img.clusterSize + k);
  }

  /** The bytes of an unallocated or zero cluster can always be had. */
  lemma ConstantDelivers(img: Image, i: nat)
    requires img.Valid() && i * img.clusterSize >= 0
    requires SeenCluster(img, i * img.clusterSize).Unallocated? || SeenCluster(img, i * img.clusterSize).Zero?
    ensures !Undeliverable(img, i * img.clusterSize, img.clusterSize)
  {
    hide SeenCluster, SeenByte, PastEof;
    var o := i * img.clusterSize;
    forall k | o <= k < o + img.clusterSize ensures SeenByte(img, k).Some? {
      ConstantByte(img, i, k - o);
    }
  }

  /** The loop body: cluster `i`, which the list describes by `cm`. */
  method ConvertCluster(reader: Qcow2Reader, filter: PartitionFilter,
                        target: Target, buf: array<Byte>, i: nat, cm: ClusterMapping, ghost sane: bool)
    returns (ok: bool)
    requires reader.img.Valid() && reader.img.host == reader.host && reader.img.inflate == reader.inflate
    requires buf.Length == reader.img.clusterSize == cm.clusterSize
    requires sane ==> Underway(reader.img, RangesOf(filter), target.data, i)
    requires sane ==> i < ClusterCount(reader.img) && MappingOf(reader.img, i, cm)
    modifies target, buf
    ensures ok && sane ==> Underway(reader.img, RangesOf(filter), target.data, i + 1)
    ensures target.faults >= old(target.faults)
    ensures sane ==>
              (ok <==> target.faults == old(target.faults) && !Blocked(reader.img, RangesOf(filter), i))
  {
    hide Progress, Overlay, Delivered, Undeliverable, SeenCluster, ClusterCount, AlignedPlaces, MappingOf;
    var img := reader.img;
    ghost var ranges := RangesOf(filter);
    if sane {
      ListedFits(img, i);
      MappingTells(img, i, cm);
    }
    if cm.isUnallocated {
      if sane {
        SkipKeepsProgress(img, ranges, target.data, i);
        ConstantDelivers(img, i);
      }
      return true;
    }
    if filter.enabled {
      var overlaps := filter.OverlapsRootfs(cm.logicalOffset, cm.clusterSize);
      if !overlaps {
        ToOutputDefined(filter.ranges, cm.logicalOffset);
        if sane { SkipKeepsProgress(img, ranges, target.data, i); }
        return true;
      }
    }
    var outOffset := cm.logicalOffset;
    if filter.enabled {
      outOffset := filter.ToOutputOffset(cm.logicalOffset);
      ToOutputDefined(filter.ranges, cm.logicalOffset);
      if outOffset == UINT64_MAX {
        if sane { SkipKeepsProgress(img, ranges, target.data, i); }
        return true;
      }
    }
    assert sane ==> Place(ranges, i * img.clusterSize) == Some(outOffset);
    ghost var before := target.data;
    if cm.isZero {
      if sane {
        ZeroClusterBytes(img, i);
        ConstantDelivers(img, i);
        WriteKeepsProgress(img, ranges, before, i, Zeros(img.clusterSize));
      }
      var ret := target.PunchHole(outOffset, cm.clusterSize);
      return ret >= 0;
    }
    var n := reader.ReadData(cm.logicalOffset, buf, cm.clusterSize);
    if n < 0 {
      return false;
    }
    if sane {
      DeliveredOrNot(img, i * img.clusterSize, img.clusterSize, buf[..n]);
    }
    var b := buf[..n] + Zeros(cm.clusterSize - n);
    if sane {
      PaddedRead(img, i, buf[..n]);
      WriteKeepsProgress(img, ranges, before, i, b);
    }
    var written := target.Pwrite(b, outOffset);
    return written == cm.clusterSize;
  }

  /** What the flags of a mapping say about its cluster. */
  lemma MappingTells(img: Image, i: nat, cm: ClusterMapping)
    requires img.Valid() && i * img.clusterSize >= 0 && MappingOf(img, i, cm)
    ensures cm.logicalOffset == i * img.clusterSize
    ensures cm.isUnallocated <==> SeenCluster(img, i * img.clusterSize).Unallocated?
    ensures cm.isZero && !cm.isUnallocated <==> SeenCluster(img, i * img.clusterSize).Zero?
  {
    hide SeenEntry, Classify;
  }

  /** convert_qcow2_to_imgfile after the image was opened and scanned. When it returns 0
      every byte below the virtual size that has a place in the output has arrived
      there: skipped clusters, zero clusters and short reads included. It fails exactly when there
      is nothing to extract, a write fails, or a byte to be written cannot be had. */
  method Convert(reader: Qcow2Reader, filter: PartitionFilter, target: Target)
    returns (ret: int)
    requires reader.img.Valid() && reader.img.host == reader.host && reader.img.inflate == reader.inflate
    modifies target
    ensures ret == 0 || ret == -1
    ensures ret == 0 && old(Sane(reader.img, RangesOf(filter), target.data)) ==>
              forall a: nat | a < reader.img.virtualSize :: Arrived(reader.img, RangesOf(filter), target.data, a)
    ensures old(Sane(reader.img, RangesOf(filter), target.data)) ==>
              (ret == -1 <==>
                || (filter.enabled && Total(filter.ranges) == 0)
                || target.faults > old(target.faults) || SomeBlocked(reader.img, RangesOf(filter)))
    ensures filter.enabled && Total(filter.ranges) == 0 ==> ret == -1
  {
    if filter.enabled {
      var size := filter.TotalRootfsSize();
      if size == 0 {
        return -1;
      }
    }
    var img := reader.img;
    ghost var ranges := RangesOf(filter);
    ghost var sane := Sane(img, ranges, target.data);
    var mappings := reader.GetClusterMappings();
    if sane {
      NothingDone(img, ranges, target.data);
      ListIsWhole(img, mappings);
    }
    hide Progress, MappingOf, AlignedPlaces, Arrived, Underway, Sane, CoverageFits, ClusterCount, ListsUpTo, Blocked;
    var ok := ConvertClusters(reader, filter, target, mappings, sane);
    if !ok {
      return -1;
    }
    if sane {
      Arrives(img, ranges, target.data);
    }
    return 0;
  }

  /** The loop over the listed clusters, until one fails. */
  method ConvertClusters(reader: Qcow2Reader, filter: PartitionFilter, target: Target, mappings: seq<ClusterMapping>,
                         ghost sane: bool)
    returns (ok: bool)
    requires reader.img.Valid() && reader.img.host == reader.host && reader.img.inflate == reader.inflate
    requires forall c | 0 <= c < |mappings| :: mappings[c].clusterSize == reader.img.clusterSize
    requires sane ==> Underway(reader.img, RangesOf(filter), target.data, 0)
    requires sane ==> |mappings| == ClusterCount(reader.img)
    requires sane ==> forall c | 0 <= c < |mappings| :: MappingOf(reader.img, c, mappings[c])
    modifies target
    ensures ok && sane ==> Underway(reader.img, RangesOf(filter), target.data, |mappings|)
    ensures target.faults >= old(target.faults)
    ensures sane ==> (ok <==> target.faults == old(target.faults) && !SomeBlocked(reader.img, RangesOf(filter)))
  {
    hide Progress, MappingOf, AlignedPlaces, Underway, ClusterCount, Blocked, SomeBlocked;
    var img := reader.img;
    ghost var ranges := RangesOf(filter);
    var buf := new Byte[img.clusterSize](_ => 0);
    var i := 0;
    while i < |mappings|
      invariant 0 <= i <= |mappings| && target.faults >= old(target.faults)
      invariant sane ==> Underway(img, ranges, target.data, i)
      invariant sane ==> target.faults == old(target.faults)
      invariant sane ==> forall j: nat | j < i :: !Blocked(img, ranges, j)
    {
      ok := ConvertCluster(reader, filter, target, buf, i, mappings[i], sane);
      if !ok {
        if sane && Blocked(img, ranges, i) {
          BlockedThere(img, ranges, i);
        }
        return;
      }
      i := i + 1;
    }
    if sane {
      NoneBlocked(img, ranges);
    }
    ok := true;
  }

  lemma BlockedThere(img: Image, ranges: Option<Ranges>, i: nat)
    requires img.Valid() && i < ClusterCount(img) && Blocked(img, ranges, i)
    ensures SomeBlocked(img, ranges)
  {
  }

  lemma NoneBlocked(img: Image, ranges: Option<Ranges>)
    requires img.Valid() && forall j: nat | j < ClusterCount(img) :: !Blocked(img, ranges, j)
    ensures !SomeBlocked(img, ranges)
  {
  }

  lemma NothingDone(img: Image, ranges: Option<Ranges>, data: seq<Byte>)
    requires img.Valid() && Sane(img, ranges, data)
    ensures Underway(img, ranges, data, 0)
  {
  }

  lemma ListIsWhole(img: Image, mappings: seq<ClusterMapping>)
    requires img.Valid() && ListsUpTo(img, mappings, FirstCluster(img, |img.l1|))
    ensures |mappings| == ClusterCount(img)
    ensures forall c | 0 <= c < |mappings| :: MappingOf(img, c, mappings[c])
  {
  }

  lemma Arrives(img: Image, ranges: Option<Ranges>, data: seq<Byte>)
    requires img.Valid() && Underway(img, ranges, data, ClusterCount(img))
    ensures forall a: nat | a < img.virtualSize :: Arrived(img, ranges, data, a)
  {
    hide Progress, Arrived, ClusterCount;
    forall a: nat | a < img.virtualSize ensures Arrived(img, ranges, data, a) {
      AllArrived(img, ranges, data, a);
    }
  }

  // ----- what the conversion means to a guest

  /** Every L2 table the disk uses can be read and keeps the format's reserved bits, the image is
      not encrypted, and a backing file has nothing but zeros to show. */
  ghost predicate Sound(img: Image, out: Outside)
    requires img.Valid()
  {
    && !img.extended && !Encrypted(img.host)
    && forall a: nat | a < img.virtualSize :: SoundAt(img, out, a)
  }

  predicate SoundAt(img: Image, out: Outside, a: nat)
    requires img.Valid()
  {
    ReservedClear(img, a) && TableReadable(img, a) && !Overlaid(img, out, SeenCluster(img, a), a)
  }

  /** A byte that has arrived is the guest's. */
  lemma ArrivedIsGuest(img: Image, out: Outside, ranges: Option<Ranges>, data: seq<Byte>, a: nat)
    requires img.Valid() && !img.extended && !Encrypted(img.host) && SoundAt(img, out, a)
    requires Arrived(img, ranges, data, a) && Place(ranges, a).Some?
    ensures GuestByte(img, out, a) == Some(At(data, Place(ranges, a).value))
  {
    SeenIsGuest(img, out, a);
    hide SeenByte, GuestByte, ReservedClear, TableReadable, Overlaid, Place;
  }

  /** Full-disk conversion: the target is the guest's disk, byte by byte. */
  lemma FullDiskPreserved(img: Image, out: Outside, data: seq<Byte>)
    requires img.Valid() && Sound(img, out)
    requires forall a: nat | a < img.virtualSize :: Arrived(img, None, data, a)
    ensures forall a: nat | a < img.virtualSize :: GuestByte(img, out, a) == Some(At(data, a))
  {
    forall a: nat | a < img.virtualSize ensures GuestByte(img, out, a) == Some(At(data, a)) {
      hide GuestByte, SoundAt, Arrived;
      ArrivedIsGuest(img, out, None, data, a);
    }
  }

  /** The guest's bytes of the ranges, one range after the other in table order. */
  function Extract(img: Image, out: Outside, rs: Ranges): seq<Option<Byte>>
    requires img.Valid() && !img.extended
  {
    if rs == [] then []
    else
      seq(rs[0].end - rs[0].start, k requires 0 <= k => GuestByte(img, out, rs[0].start + k))
      + Extract(img, out, rs[1..])
  }

  lemma {:induction false} ExtractAt(img: Image, out: Outside, rs: Ranges, x: nat)
    requires img.Valid() && !img.extended && x < Total(rs)
    ensures |Extract(img, out, rs)| == Total(rs)
    ensures Extract(img, out, rs)[x] == GuestByte(img, out, FromOutput(rs, x))
  {
    hide GuestByte;
    var n := rs[0].end - rs[0].start;
    ExtractLength(img, out, rs);
    if x >= n {
      ExtractAt(img, out, rs[1..], x - n);
    }
  }

  lemma {:induction false} ExtractLength(img: Image, out: Outside, rs: Ranges)
    requires img.Valid() && !img.extended
    ensures |Extract(img, out, rs)| == Total(rs)
  {
    if rs != [] {
      hide GuestByte;
      ExtractLength(img, out, rs[1..]);
    }
  }

  /** Rootfs extraction: the output is exactly the concatenation of the guest's bytes of
      the ranges. */
  lemma RootfsPreserved(img: Image, out: Outside, rs: Ranges, data: seq<Byte>)
    requires img.Valid() && Sound(img, out) && Disjoint(rs) && Within(rs, img.virtualSize)
    requires forall a: nat | a < img.virtualSize :: Arrived(img, Some(rs), data, a)
    ensures |Extract(img, out, rs)| == Total(rs)
    ensures forall x: nat | x < Total(rs) :: Extract(img, out, rs)[x] == Some(At(data, x))
  {
    ExtractLength(img, out, rs);
    forall x: nat | x < Total(rs) ensures Extract(img, out, rs)[x] == Some(At(data, x)) {
      hide GuestByte, SoundAt, Extract, Arrived;
      ExtractAt(img, out, rs, x);
      var a := FromOutput(rs, x);
      BackAndThere(rs, x);
      var i := FromOutputCovered(rs, x);
      ArrivedIsGuest(img, out, Some(rs), data, a);
    }
  }

  predicate Within(rs: Ranges, size: nat) {
    forall i | 0 <= i < |rs| :: rs[i].end <= size
  }

  /** convert_qcow2_to_imgfile to a guest: on success the target is the guest's disk, or the
      concatenation of the guest's bytes of disjoint ranges. */
  method ConvertForGuest(reader: Qcow2Reader, filter: PartitionFilter, target: Target, ghost out: Outside)
    returns (ret: int)
    requires reader.img.Valid() && reader.img.host == reader.host && reader.img.inflate == reader.inflate
    modifies target
    ensures old(Sane(reader.img, RangesOf(filter), target.data)) ==>
              (ret != 0 <==>
                || (filter.enabled && Total(filter.ranges) == 0)
                || target.faults > old(target.faults) || SomeBlocked(reader.img, RangesOf(filter)))
    ensures ret == 0 && !filter.enabled && Sound(reader.img, out) && old(Sane(reader.img, None, target.data)) ==>
              forall a: nat | a < reader.img.virtualSize :: GuestByte(reader.img, out, a) == Some(At(target.data, a))
    ensures ret == 0 && filter.enabled && Sound(reader.img, out) && Disjoint(filter.ranges)
            && Within(filter.ranges, reader.img.virtualSize)
            && old(Sane(reader.img, Some(filter.ranges), target.data)) ==>
              && |Extract(reader.img, out, filter.ranges)| == Total(filter.ranges)
              && forall x: nat | x < Total(filter.ranges) ::
                   Extract(reader.img, out, filter.ranges)[x] == Some(At(target.data, x))
  {
    hide Arrived, GuestByte, Extract, Sane, SoundAt, SomeBlocked;
    ghost var sane := Sane(reader.img, RangesOf(filter), target.data);
    ret := Convert(reader, filter, target);
    var img := reader.img;
    if ret == 0 && sane && Sound(img, out) {
      var ranges := RangesOf(filter);
      assert forall a: nat | a < img.virtualSize :: Arrived(img, ranges, target.data, a);
      if !filter.enabled {
        FullDiskPreserved(img, out, target.data);
      } else if Disjoint(filter.ranges) && Within(filter.ranges, img.virtualSize) {
        RootfsPreserved(img, out, filter.ranges, target.data);
      }
    }
  }
}
