/** Qcow2Reader: opening an image, enumerating its clusters and reading guest data
in chunks across clusters. */
module Qcow2Reading {
  import opened Collections
  import opened Runs
  import opened Qcow2Format

  const QCOW2_MAGIC := 0x514649fb

  // ----- the header

  /** Incompatible features other than dirty, corrupt and extended L2. */
  predicate Unsupported(features: U64) {
    (features / 4) % 4 != 0 || features / 32 != 0
  }

  predicate ExtendedFlag(features: U64) {
    (features / 16) % 2 == 1
  }

  /** The version 3 feature word, zero when there is none. */
  function Features(h: Host): U64 {
    if Stored32(h, 4) == 3 && Readable(h, 72, 32) then StoredWord(h, 72) else 0
  }

  /** What `open` accepts. */
  predicate HeaderOk(h: Host) {
    && Readable(h, 0, 72)
    && Stored32(h, 0) == QCOW2_MAGIC
    && 2 <= Stored32(h, 4) <= 3
    && 9 <= Stored32(h, 20) <= 30
    && !Unsupported(Features(h))
    && Readable(h, StoredWord(h, 40), Stored32(h, 36) * 8)
  }

  /** The fields of an opened image are those of its header. */
  predicate OpenedAs(h: Host, img: Image) {
    && img.Valid() && img.host == h
    && img.clusterBits == Stored32(h, 20) && img.virtualSize == StoredWord(h, 24)
    && img.extended == ExtendedFlag(Features(h))
    && |img.l1| == Stored32(h, 36)
    && forall i | 0 <= i < |img.l1| :: img.l1[i] == StoredWord(h, StoredWord(h, 40) + i * 8)
  }

  lemma BytesAsStored(h: Host, off: nat, n: nat, k: nat)
    requires Readable(h, off, n)
    ensures k + 8 <= n ==> Be64(Pread(h, off, n).value[k..k + 8]) == StoredWord(h, off + k)
    ensures k + 4 <= n ==> Be32(Pread(h, off, n).value[k..k + 4]) == Stored32(h, off + k)
  {
    hide Be64, Be32, Padded, Pread, Readable;
    if k + 8 <= n {
      ReadIsPadded(h, off, n, k, 8);
    }
    if k + 4 <= n {
      ReadIsPadded(h, off, n, k, 4);
    }
  }

  lemma OpenedGeometry(cb: nat, extended: bool)
    requires 9 <= cb <= 30
    ensures Pow2(cb) >= 512
    ensures (Pow2(cb) / (if extended then 16 else 8)) * (if extended then 16 else 8) == Pow2(cb)
  {
    FourDoublings(cb - 4);
    Pow2Mono(5, cb - 4);
    assert Pow2(5) == 32;
    Divisible(Pow2(cb - 4), Pow2(cb), extended);
    hide Pow2;
  }

  lemma FourDoublings(k: nat)
    ensures Pow2(k + 4) == 16 * Pow2(k)
  {
    assert Pow2(k + 1) == 2 * Pow2(k);
    assert Pow2(k + 2) == 2 * Pow2(k + 1);
    assert Pow2(k + 3) == 2 * Pow2(k + 2);
  }

  lemma Divisible(a: nat, b: nat, extended: bool)
    requires b == 16 * a
    ensures (b / (if extended then 16 else 8)) * (if extended then 16 else 8) == b
  {
    if extended {
      assert b / 16 == a;
    } else {
      assert b / 8 == 2 * a;
    }
  }

  // ----- bytes of one cluster

  /** Offsets of one cluster share its descriptor. */
  lemma SameCluster(img: Image, o: nat, k: nat)
    requires img.Valid() && img.InCluster(o) + k < img.clusterSize
    ensures img.ClusterOf(o + k) == img.ClusterOf(o)
    ensures img.InCluster(o + k) == img.InCluster(o) + k
    ensures SeenCluster(img, o + k) == SeenCluster(img, o)
  {
    var q, r := img.ClusterOf(o), img.InCluster(o);
    QuotRem(o, img.clusterSize);
    DivMod(q, img.clusterSize, r + k);
    assert q * img.clusterSize + (r + k) == o + k;
    assert L1Word(img, o + k) == L1Word(img, o);
  }

  /** A chunk of a cluster was delivered as the reader's view has it: `n` bytes, short
      only where the host file ends. */
  ghost predicate Delivered(img: Image, o: nat, want: nat, got: seq<Byte>)
    requires img.Valid()
  {
    && |got| <= want
    && (forall k | o <= k < o + |got| :: SeenByte(img, k) == Some(got[k - o]) && !PastEof(img, k))
    && (|got| < want ==> PastEof(img, o + |got|))
  }

  /** The first byte that cannot be had comes before any end of the host file. */
  ghost predicate Undeliverable(img: Image, o: nat, want: nat)
    requires img.Valid()
  {
    exists k :: && o <= k < o + want && SeenByte(img, k).None?
                && forall j | o <= j < k :: !PastEof(img, j)
  }

  /** The same for the bytes from `at` of a cluster backed by `c`. */
  ghost predicate ChunkOk(img: Image, c: Cluster, at: nat, want: nat, got: seq<Byte>)
    requires img.Valid() && at + want <= img.clusterSize
  {
    && |got| <= want
    && (forall i | at <= i < at + |got| :: ByteAt(img, c, i) == Some(got[i - at]) && !PastIn(img, c, i))
    && (|got| < want ==> PastIn(img, c, at + |got|))
  }

  ghost predicate ChunkBad(img: Image, c: Cluster, at: nat, want: nat)
    requires img.Valid() && at + want <= img.clusterSize
  {
    exists i :: && at <= i < at + want && ByteAt(img, c, i).None?
                && forall j | at <= j < i :: !PastIn(img, c, j)
  }

  lemma ZeroChunk(img: Image, c: Cluster, at: nat, chunk: nat)
    requires img.Valid() && at + chunk <= img.clusterSize
    requires c.Unallocated? || c.Zero?
    ensures ChunkOk(img, c, at, chunk, seq(chunk, _ => 0))
  {
  }

  lemma InflatedChunk(img: Image, c: Cluster, at: nat, chunk: nat)
    requires img.Valid() && 0 < chunk && at + chunk <= img.clusterSize && c.Compressed?
    ensures var d := Inflated(img, c.offset, c.size);
            if d.Some? then ChunkOk(img, c, at, chunk, d.value[at..at + chunk])
            else ChunkBad(img, c, at, chunk)
  {
    var d := Inflated(img, c.offset, c.size);
    if d.None? {
      assert ByteAt(img, c, at).None?;
    }
  }

  lemma NormalChunk(img: Image, c: Cluster, at: nat, chunk: nat)
    requires img.Valid() && 0 < chunk && at + chunk <= img.clusterSize && c.Normal?
    ensures var d := Pread(img.host, c.offset + at, chunk);
            if d.Some? then ChunkOk(img, c, at, chunk, d.value) else ChunkBad(img, c, at, chunk)
  {
    var p := c.offset + at;
    var d := Pread(img.host, p, chunk);
    PreadBytes(img.host, p, chunk);
    match d
    case None =>
      var i :| p <= i < p + chunk && i < |img.host.data| && HostByte(img.host, i).None?;
      assert ByteAt(img, c, i - c.offset).None?;
    case Some(b) =>
      forall i | at <= i < at + |b| ensures ByteAt(img, c, i) == Some(b[i - at]) && !PastIn(img, c, i) {
        assert HostByte(img.host, p + (i - at)) == Some(b[i - at]);
      }
  }

  /** What holds for the bytes of a cluster holds for the guest offsets in it. */
  lemma LiftByte(img: Image, o: nat, k: nat, c: Cluster)
    requires img.Valid() && img.InCluster(o) + k < img.clusterSize && c == SeenCluster(img, o)
    ensures SeenByte(img, o + k) == ByteAt(img, c, img.InCluster(o) + k)
    ensures PastEof(img, o + k) <==> PastIn(img, c, img.InCluster(o) + k)
  {
    hide SeenCluster, ByteAt, PastIn;
    SameCluster(img, o, k);
  }

  lemma LiftOk(img: Image, o: nat, want: nat, got: seq<Byte>)
    requires img.Valid() && img.InCluster(o) + want <= img.clusterSize
    requires ChunkOk(img, SeenCluster(img, o), img.InCluster(o), want, got)
    ensures Delivered(img, o, want, got)
  {
    hide SeenByte, PastEof, SeenCluster, ByteAt, PastIn;
    var c, at := SeenCluster(img, o), img.InCluster(o);
    forall k | o <= k < o + |got| ensures SeenByte(img, k) == Some(got[k - o]) && !PastEof(img, k) {
      LiftByte(img, o, k - o, c);
      assert ByteAt(img, c, at + (k - o)) == Some(got[at + (k - o) - at]);
    }
    if |got| < want {
      LiftByte(img, o, |got|, c);
    }
  }

  lemma LiftBad(img: Image, o: nat, want: nat)
    requires img.Valid() && img.InCluster(o) + want <= img.clusterSize
    requires ChunkBad(img, SeenCluster(img, o), img.InCluster(o), want)
    ensures Undeliverable(img, o, want)
  {
    hide SeenByte, PastEof, SeenCluster, ByteAt, PastIn;
    var c, at := SeenCluster(img, o), img.InCluster(o);
    var i :| && at <= i < at + want && ByteAt(img, c, i).None?
             && forall j | at <= j < i :: !PastIn(img, c, j);
    LiftByte(img, o, i - at, c);
    forall j | o <= j < o + (i - at) ensures !PastEof(img, j) {
      LiftByte(img, o, j - o, c);
    }
    assert SeenByte(img, o + (i - at)).None?;
  }

  // ----- chunks put together

  lemma DeliveredJoins(img: Image, o: nat, done: seq<Byte>, chunk: nat, got: seq<Byte>, want: nat)
    requires img.Valid() && Delivered(img, o, |done|, done) && Delivered(img, o + |done|, chunk, got)
    requires if |got| == chunk then want == |done| + chunk else want >= |done| + chunk
    ensures Delivered(img, o, want, done + got)
  {
    hide SeenByte, PastEof;
    forall k | o <= k < o + |done + got|
      ensures SeenByte(img, k) == Some((done + got)[k - o]) && !PastEof(img, k)
    {
      if k >= o + |done| {
        assert (done + got)[k - o] == got[k - (o + |done|)];
      }
    }
  }

  lemma UndeliverableJoins(img: Image, o: nat, done: seq<Byte>, chunk: nat, want: nat)
    requires img.Valid() && Delivered(img, o, |done|, done) && Undeliverable(img, o + |done|, chunk)
    requires want >= |done| + chunk
    ensures Undeliverable(img, o, want)
  {
    hide SeenByte, PastEof;
    var p := o + |done|;
    var k :| && p <= k < p + chunk && SeenByte(img, k).None?
             && forall j | p <= j < k :: !PastEof(img, j);
    assert forall j | o <= j < k :: !PastEof(img, j);
  }

  /** Past the L1 table everything reads as zero. */
  lemma BeyondTable(img: Image, o: nat, n: nat)
    requires img.Valid() && img.L1Index(img.ClusterOf(o)) >= |img.l1|
    ensures Delivered(img, o, n, seq(n, _ => 0))
  {
    forall k | o <= k < o + n ensures SeenByte(img, k) == Some(0) && !PastEof(img, k) {
      BeyondTableByte(img, o, k);
    }
  }

  lemma BeyondTableByte(img: Image, o: nat, k: nat)
    requires img.Valid() && o <= k && img.L1Index(img.ClusterOf(o)) >= |img.l1|
    ensures SeenByte(img, k) == Some(0) && !PastEof(img, k)
  {
    hide Quot;
    QuotMono(o, k, img.clusterSize);
    QuotMono(img.ClusterOf(o), img.ClusterOf(k), img.l2Size);
  }

  /** An error is reported only when a wanted byte cannot be had: a delivered read
      rules it out. */
  lemma DeliveredOrNot(img: Image, o: nat, want: nat, got: seq<Byte>)
    requires img.Valid() && Delivered(img, o, want, got)
    ensures !Undeliverable(img, o, want)
  {
    hide SeenByte, PastEof;
    if |got| < want {
      PastEofIsZero(img, o + |got|);
    }
    forall k | o <= k < o + want && SeenByte(img, k).None? ensures exists j :: o <= j < k && PastEof(img, j) {
      assert k > o + |got| && PastEof(img, o + |got|);
    }
  }

  lemma PastEofIsZero(img: Image, o: nat)
    requires img.Valid() && PastEof(img, o)
    ensures SeenByte(img, o) == Some(0)
  {
    hide SeenCluster;
  }

  // ----- cluster mappings

  datatype ClusterMapping = ClusterMapping(
    logicalOffset: nat,
    physicalOffset: nat,
    clusterSize: nat,
    isZero: bool,
    isUnallocated: bool,
    isCompressed: bool,
    compressedSize: nat)

  /** A mapping says how the reader takes the descriptor `e`. */
  predicate Maps(img: Image, e: U64, m: ClusterMapping)
    requires img.Valid()
  {
    && m.clusterSize == img.clusterSize
    && match Classify(img, e)
       case Unallocated => m.isUnallocated && m.isZero && !m.isCompressed
       case Zero => !m.isUnallocated && m.isZero && !m.isCompressed
       case Compressed(off, size) =>
         !m.isUnallocated && !m.isZero && m.isCompressed && m.physicalOffset == off && m.compressedSize == size
       case Normal(off) =>
         !m.isUnallocated && !m.isZero && !m.isCompressed && m.physicalOffset == off
  }

  /** The mapping of guest cluster `c` says what the reader would do with it. */
  predicate MappingOf(img: Image, c: nat, m: ClusterMapping)
    requires img.Valid()
  {
    && m.logicalOffset == c * img.clusterSize
    && Maps(img, SeenEntry(img, c * img.clusterSize), m)
  }

  /** The clusters below both the virtual size and the reach of the L1 table. */
  function ClusterCount(img: Image): nat
    requires img.Valid()
  {
    Min(Ceil(img.virtualSize, img.clusterSize), |img.l1| * img.l2Size)
  }

  function Ceil(a: nat, m: nat): nat
    requires m > 0
  {
    Quot(a + m - 1, m)
  }

  lemma CeilBound(a: nat, m: nat, c: nat)
    requires m > 0
    ensures c * m >= a <==> c >= Ceil(a, m)
  {
    var q := Ceil(a, m);
    QuotRem(a + m - 1, m);
    if c >= q {
      MulMono(q, c, m);
    } else {
      MulMono(c + 1, q, m);
      assert (c + 1) * m == c * m + m;
    }
  }

  lemma ClusterIndices(img: Image, l1Idx: nat, j: nat)
    requires img.Valid() && j < img.l2Size
    ensures var c := l1Idx * img.l2Size + j;
            && c >= 0 && c * img.clusterSize >= 0
            && img.ClusterOf(c * img.clusterSize) == c
            && img.L1Index(c) == l1Idx
            && img.L2Index(c) == j
  {
    NatProduct(l1Idx, img.l2Size);
    var c := l1Idx * img.l2Size + j;
    NatProduct(c, img.clusterSize);
    QuotOfProduct(c, img.clusterSize);
    DivMod(l1Idx, img.l2Size, j);
    hide *;
    hide Image.Valid;
  }

  lemma NatProduct(a: nat, b: nat)
    ensures a * b >= 0
  {
  }

  lemma QuotOfProduct(q: nat, m: nat)
    requires m > 0
    ensures q * m >= 0 && Quot(q * m, m) == q
  {
    DivMod(q, m, 0);
  }

  /** Where cluster `l1Idx * l2Size + j` finds its descriptor. */
  lemma MappedEntry(img: Image, l1Idx: nat, j: nat, c: nat)
    requires img.Valid() && l1Idx < |img.l1| && j < img.l2Size && c == l1Idx * img.l2Size + j
    ensures SeenEntry(img, c * img.clusterSize) ==
            if img.l1[l1Idx] == 0 then 0 else L2Table(img, OffsetBits(img.l1[l1Idx]))[j]
  {
    hide Quot, Rem, L2Table, OffsetBits;
    ClusterIndices(img, l1Idx, j);
    assert L1Word(img, c * img.clusterSize) == img.l1[l1Idx];
  }

  /** The mapping made from the descriptor found there is the cluster's. */
  lemma MappingBuilt(img: Image, l1Idx: nat, j: nat, c: nat, e: U64, m: ClusterMapping)
    requires img.Valid() && l1Idx < |img.l1| && j < img.l2Size && c == l1Idx * img.l2Size + j
    requires e == if img.l1[l1Idx] == 0 then 0 else L2Table(img, OffsetBits(img.l1[l1Idx]))[j]
    requires Maps(img, e, m) && m.logicalOffset == c * img.clusterSize
    ensures MappingOf(img, c, m)
  {
    hide Maps, L2Table, SeenEntry;
    MappedEntry(img, l1Idx, j, c);
  }

  /** Whether the loop over an L2 table goes on at entry `j`. */
  lemma LogicalOffset(img: Image, l1Idx: nat, j: nat, c: nat)
    requires img.Valid() && c == l1Idx * img.l2Size + j
    ensures l1Idx * img.l2Size * img.clusterSize + j * img.clusterSize == c * img.clusterSize >= 0
    ensures c * img.clusterSize >= img.virtualSize <==> c >= Ceil(img.virtualSize, img.clusterSize)
  {
    CeilBound(img.virtualSize, img.clusterSize, c);
    assert (l1Idx * img.l2Size + j) * img.clusterSize == l1Idx * img.l2Size * img.clusterSize + j * img.clusterSize;
  }

  // ----- offsets in 64 bits

  const TWO_64 := 0x1_0000_0000_0000_0000

  /** The L1 table covers at most 2^64 bytes. */
  predicate CoverageFits(img: Image) {
    |img.l1| * (img.l2Size * img.clusterSize) <= TWO_64
  }

  /** The list has exactly the clusters below `n` and the virtual size, in order. */
  ghost predicate ListsUpTo(img: Image, mappings: seq<ClusterMapping>, n: nat)
    requires img.Valid()
  {
    && |mappings| == Min(Ceil(img.virtualSize, img.clusterSize), n)
    && forall c | 0 <= c < |mappings| :: MappingOf(img, c, mappings[c])
  }

  predicate Ascending(mappings: seq<ClusterMapping>) {
    forall i, j | 0 <= i < j < |mappings| :: mappings[i].logicalOffset < mappings[j].logicalOffset
  }

  lemma ListsNothing(img: Image)
    requires img.Valid()
    ensures ListsUpTo(img, [], 0)
  {
  }

  lemma ListGrows(img: Image, mappings: seq<ClusterMapping>, c: nat, m: ClusterMapping)
    requires img.Valid() && ListsUpTo(img, mappings, c) && c < Ceil(img.virtualSize, img.clusterSize)
    requires MappingOf(img, c, m)
    ensures ListsUpTo(img, mappings + [m], c + 1)
  {
    hide MappingOf, Ceil;
  }

  lemma ListEnds(img: Image, mappings: seq<ClusterMapping>, c: nat, n: nat)
    requires img.Valid() && ListsUpTo(img, mappings, c) && Ceil(img.virtualSize, img.clusterSize) <= c <= n
    ensures ListsUpTo(img, mappings, n)
  {
    hide MappingOf, Ceil;
  }

  lemma ListAscends(img: Image, mappings: seq<ClusterMapping>, n: nat)
    requires img.Valid() && ListsUpTo(img, mappings, n)
    ensures Ascending(mappings)
  {
    hide MappingOf, Ceil;
    forall i, j | 0 <= i < j < |mappings| ensures mappings[i].logicalOffset < mappings[j].logicalOffset {
      LaterIsHigher(img, i, j, mappings[i], mappings[j]);
    }
  }

  lemma LaterIsHigher(img: Image, i: nat, j: nat, m: ClusterMapping, n: ClusterMapping)
    requires img.Valid() && i < j && MappingOf(img, i, m) && MappingOf(img, j, n)
    ensures m.logicalOffset < n.logicalOffset
  {
    hide Maps, SeenEntry;
    StrictMono(i, j, img.clusterSize);
  }

  lemma StrictMono(i: nat, j: nat, c: nat)
    requires i < j && c > 0
    ensures i * c < j * c
  {
    MulMono(i + 1, j, c);
    assert (i + 1) * c == i * c + c;
  }

  /** Within 2^64 bytes the offset of a cluster is not truncated. */
  lemma NoWrap(img: Image, l1Idx: nat, j: nat)
    requires img.Valid() && CoverageFits(img) && l1Idx < |img.l1| && j < img.l2Size
    ensures var base := l1Idx * img.l2Size * img.clusterSize;
            && BaseOffset(img, l1Idx) == base >= 0
            && (base + j * img.clusterSize) % TWO_64 == base + j * img.clusterSize
  {
    InsideSpan(|img.l1|, l1Idx, img.l2Size, img.clusterSize, j);
  }

  lemma InsideSpan(n: nat, i: nat, l: nat, c: nat, j: nat)
    requires i < n && j < l && c > 0
    ensures 0 <= i * l * c && 0 <= j * c && i * l * c + j * c < n * (l * c)
  {
    StrictMono(j, l, c);
    NatProduct(j, c);
    NatProduct(l, c);
    NatProduct(i, l * c);
    MulMono(i + 1, n, l * c);
    assert (i + 1) * (l * c) == i * (l * c) + l * c;
    assert i * l * c == i * (l * c);
  }

  /** The offset of the first cluster of an L1 entry, in 64 bits. */
  function BaseOffset(img: Image, l1Idx: nat): (r: nat)
    ensures r < TWO_64
  {
    NatProduct(l1Idx, img.l2Size);
    NatProduct(l1Idx * img.l2Size, img.clusterSize);
    (l1Idx * img.l2Size * img.clusterSize) % TWO_64
  }

  /** The number of the first cluster of an L1 entry. */
  function FirstCluster(img: Image, l1Idx: nat): nat {
    NatProduct(l1Idx, img.l2Size);
    l1Idx * img.l2Size
  }

  lemma NextFirst(img: Image, l1Idx: nat)
    ensures FirstCluster(img, l1Idx + 1) == FirstCluster(img, l1Idx) + img.l2Size
    ensures FirstCluster(img, 0) == 0
  {
  }

  lemma FirstOffset(base: nat, j: nat, c: nat)
    requires base < TWO_64
    ensures base + j * c >= 0
    ensures j == 0 ==> (base + j * c) % TWO_64 == base
  {
    NatProduct(j, c);
  }

  /** The L1 index whose clusters begin at 2^64. */
  ghost function WrapAt(img: Image): (w: nat)
    requires img.Valid()
    ensures w > 0
  {
    Pow2(64 - (2 * img.clusterBits - (if img.extended then 4 else 3)))
  }

  lemma WrapsThere(img: Image)
    requires img.Valid()
    ensures WrapAt(img) * (img.l2Size * img.clusterSize) == TWO_64
    ensures BaseOffset(img, WrapAt(img)) == 0 == BaseOffset(img, 0)
  {
    var k := if img.extended then 4 else 3;
    var s, w := 2 * img.clusterBits - k, WrapAt(img);
    SpanIsPower(img, k);
    Pow2Add(64 - s, s);
    Pow64();
    hide Pow2;
    assert 64 - s + s == 64;
    ThreeFactors(w, img.l2Size, img.clusterSize);
  }

  lemma ThreeFactors(a: nat, b: nat, c: nat)
    ensures a * (b * c) == a * b * c && 0 * b * c == 0
  {
  }

  lemma SpanIsPower(img: Image, k: nat)
    requires img.Valid() && k == if img.extended then 4 else 3
    ensures img.l2Size * img.clusterSize == Pow2(2 * img.clusterBits - k)
  {
    var cb := img.clusterBits;
    Pow2Add(cb - k, k);
    assert Pow2(3) == 8 && Pow2(4) == 16;
    assert cb - k + k == cb && cb - k + cb == 2 * cb - k;
    Pow2Add(cb - k, cb);
    hide Pow2;
    OneFactor(img.l2Size, Pow2(cb - k), img.EntrySize());
  }

  lemma OneFactor(a: nat, b: nat, m: nat)
    requires m > 0 && a * m == b * m
    ensures a == b
  {
    if a < b {
      StrictMono(a, b, m);
    } else if b < a {
      StrictMono(b, a, m);
    }
  }

  lemma Pow64()
    ensures Pow2(64) == TWO_64
  {
    Pow62();
    assert Pow2(2) == 4;
    Pow2Add(2, 62);
    hide Pow2;
  }

  lemma CoverageWraps(img: Image, w: nat)
    requires img.Valid() && !CoverageFits(img) && w * (img.l2Size * img.clusterSize) == TWO_64
    ensures w < |img.l1|
  {
    if w >= |img.l1| {
      Positive(img.l2Size, img.clusterSize);
      MulMono(|img.l1|, w, img.l2Size * img.clusterSize);
    }
  }

  class Qcow2Reader {
    const host: Host
    const inflate: seq<Byte> -> Option<seq<Byte>>
    var img: Image

    constructor (host: Host, inflate: seq<Byte> -> Option<seq<Byte>>)
      ensures this.host == host && this.inflate == inflate
    {
      this.host := host;
      this.inflate := inflate;
      this.img := Image(host, 0, 0, 0, false, [], 0, inflate);
    }

    /** open: exactly the images with an acceptable header and a readable L1 table are
        accepted, and the fields are those of the header. */
    method Open() returns (ok: bool)
      modifies this
      ensures ok <==> HeaderOk(host)
      ensures ok ==> OpenedAs(host, img) && img.inflate == inflate
    {
      hide Pread, StoredWord, Stored32, Be32, Be64, Pow2;
      var hdr := Pread(host, 0, 72);
      if hdr.None? || |hdr.value| != 72 {
        return false;
      }
      assert Readable(host, 0, 72);
      var raw := hdr.value;
      BytesAsStored(host, 0, 72, 0);
      BytesAsStored(host, 0, 72, 4);
      BytesAsStored(host, 0, 72, 20);
      BytesAsStored(host, 0, 72, 24);
      BytesAsStored(host, 0, 72, 36);
      BytesAsStored(host, 0, 72, 40);
      var magic, version := Be32(raw[0..4]), Be32(raw[4..8]);
      if magic != QCOW2_MAGIC || version < 2 || version > 3 {
        return false;
      }
      var virtualSize, clusterBits := Be64(raw[24..32]), Be32(raw[20..24]);
      if clusterBits < 9 || clusterBits > 30 {
        return false;
      }
      var l1Size, l1TableOffset := Be32(raw[36..40]), Be64(raw[40..48]);
      var extended, supported := ReadFeatures(version);
      if !supported {
        return false;
      }
      var l1Buf := Pread(host, l1TableOffset, l1Size * 8);
      if l1Buf.None? || |l1Buf.value| != l1Size * 8 {
        return false;
      }
      var l1 := DecodeWords(l1TableOffset, l1Size, 8);
      OpenedGeometry(clusterBits, extended);
      img := Image(host, clusterBits, Pow2(clusterBits), Pow2(clusterBits) / (if extended then 16 else 8),
                   extended, l1, virtualSize, inflate);
      return true;
    }

    /** The version 3 header extension; a short one is ignored. */
    method ReadFeatures(version: nat) returns (extended: bool, supported: bool)
      requires version == Stored32(host, 4)
      ensures extended == ExtendedFlag(Features(host))
      ensures supported == !Unsupported(Features(host))
    {
      hide Be64, StoredWord, Pread;
      extended, supported := false, true;
      if version == 3 {
        var ext := Pread(host, 72, 32);
        if ext.Some? && |ext.value| == 32 {
          var incompat := Be64(ext.value[0..8]);
          BytesAsStored(host, 72, 32, 0);
          if (incompat / 16) % 2 == 1 {
            extended := true;
          }
          if (incompat / 4) % 4 != 0 || incompat / 32 != 0 {
            supported := false;
          }
        }
      }
    }

    /** Big-endian words at every `width` bytes of a readable range. */
    method DecodeWords(off: nat, n: nat, width: nat) returns (t: seq<U64>)
      requires width >= 8 && Readable(host, off, n * width)
      ensures |t| == n && forall i | 0 <= i < n :: t[i] == StoredWord(host, off + i * width)
    {
      hide Pread, StoredWord, EntryAt;
      var b := Pread(host, off, n * width).value;
      t := [];
      var i := 0;
      while i < n
        invariant 0 <= i <= n && |t| == i
        invariant forall j | 0 <= j < i :: t[j] == StoredWord(host, off + j * width)
      {
        WordAsRead(host, off, n, width, i);
        t := t + [EntryAt(b, i, n, width)];
        i := i + 1;
      }
    }

    /** read_l2_table: an error is not reported, it makes an empty table. */
    method ReadL2Table(off: nat) returns (t: seq<U64>)
      requires img.Valid() && img.host == host
      ensures t == L2Table(img, off)
    {
      hide StoredWord, EntryAt, Pow2;
      var n := img.l2Size * img.EntrySize();
      var b := Pread(host, off, n);
      if b.None? || |b.value| != n {
        t := seq(img.l2Size, _ => 0);
      } else {
        t := DecodeWords(off, img.l2Size, img.EntrySize());
        forall j | 0 <= j < img.l2Size ensures t[j] == L2Table(img, off)[j] {
          EntryAsRead(img, off, j);
        }
      }
    }

    /** The branches of get_cluster_mappings on one descriptor. */
    method MapEntry(logical: nat, l2Entry: U64) returns (m: ClusterMapping)
      requires img.Valid()
      ensures m.logicalOffset == logical && m.clusterSize == img.clusterSize && Maps(img, l2Entry, m)
    {
      if l2Entry == 0 {
        m := ClusterMapping(logical, 0, img.clusterSize, true, true, false, 0);
      } else if CompressedFlag(l2Entry) {
        var shift := 62 - (img.clusterBits - 8);
        var physical := Rem(l2Entry, Pow2(shift));
        var nbSectors := Rem(Quot(l2Entry, Pow2(shift)), Pow2(img.clusterBits - 8)) + 1;
        CompressedRange(img.clusterBits, l2Entry);
        m := ClusterMapping(logical, physical, img.clusterSize, false, false, true, nbSectors * 512 - physical % 512);
      } else if !img.extended && ZeroFlag(l2Entry) {
        m := ClusterMapping(logical, OffsetBits(l2Entry), img.clusterSize, true, false, false, 0);
      } else {
        m := ClusterMapping(logical, OffsetBits(l2Entry), img.clusterSize, false, false, false, 0);
      }
    }

    /** The clusters of one L1 entry, appended in order up to the virtual size. Offsets are
        computed in 64 bits. */
    method MapL1Entry(l1Idx: nat, before: seq<ClusterMapping>) returns (mappings: seq<ClusterMapping>)
      requires img.Valid() && img.host == host && l1Idx < |img.l1|
      requires CoverageFits(img) ==> ListsUpTo(img, before, FirstCluster(img, l1Idx))
      ensures CoverageFits(img) ==> ListsUpTo(img, mappings, FirstCluster(img, l1Idx) + img.l2Size)
      ensures before <= mappings && (img.virtualSize == 0 ==> mappings == before)
      ensures forall c | |before| <= c < |mappings| :: mappings[c].clusterSize == img.clusterSize
      ensures BaseOffset(img, l1Idx) == 0 && img.virtualSize > 0 ==>
                |mappings| > |before| && mappings[|before|].logicalOffset == 0
    {
      hide Maps, MappingOf, L2Table, Ceil, Pow2, ListsUpTo, CoverageFits, BaseOffset;
      mappings := before;
      var l1Entry := img.l1[l1Idx];
      var l2Table := seq(img.l2Size, _ => 0);
      if l1Entry != 0 {
        l2Table := ReadL2Table(OffsetBits(l1Entry));
      }
      var baseOffset := BaseOffset(img, l1Idx);
      ghost var first := FirstCluster(img, l1Idx);
      var j := 0;
      while j < img.l2Size
        invariant 0 <= j <= img.l2Size && before <= mappings
        invariant CoverageFits(img) ==> ListsUpTo(img, mappings, first + j)
        invariant img.virtualSize == 0 ==> j == 0 && mappings == before
        invariant j == 0 ==> mappings == before
        invariant forall c | |before| <= c < |mappings| :: mappings[c].clusterSize == img.clusterSize
        invariant j > 0 && baseOffset == 0 ==> |mappings| > |before| && mappings[|before|].logicalOffset == 0
      {
        var logical := (baseOffset + j * img.clusterSize) % TWO_64;
        if CoverageFits(img) {
          NoWrap(img, l1Idx, j);
          LogicalOffset(img, l1Idx, j, first + j);
        }
        FirstOffset(baseOffset, j, img.clusterSize);
        if logical >= img.virtualSize {
          if CoverageFits(img) {
            ListEnds(img, mappings, first + j, first + img.l2Size);
          }
          return;
        }
        var m := MapEntry(logical, l2Table[j]);
        if CoverageFits(img) {
          MappingBuilt(img, l1Idx, j, first + j, l2Table[j], m);
          ListGrows(img, mappings, first + j, m);
        }
        mappings := mappings + [m];
        j := j + 1;
      }
    }

    /** get_cluster_mappings: every cluster below the virtual size and within the L1 table exactly
        once, in ascending order, classified as `ReadData` takes it, when the table covers at
        most 2^64 bytes. A larger one makes the offsets wrap and lists clusters again. */
    method GetClusterMappings() returns (mappings: seq<ClusterMapping>)
      requires img.Valid() && img.host == host
      ensures CoverageFits(img) ==> ListsUpTo(img, mappings, FirstCluster(img, |img.l1|))
      ensures Ascending(mappings) <==> CoverageFits(img) || img.virtualSize == 0
      ensures forall c | 0 <= c < |mappings| :: mappings[c].clusterSize == img.clusterSize
    {
      hide MappingOf, Ceil, CoverageFits, ListsUpTo, FirstCluster, BaseOffset, WrapAt, Pow2, Image.Valid;
      mappings := [];
      ListsNothing(img);
      NextFirst(img, 0);
      WrapsThere(img);
      ghost var wrap := WrapAt(img);
      ghost var again := 0;
      var l1Idx := 0;
      while l1Idx < |img.l1|
        invariant 0 <= l1Idx <= |img.l1|
        invariant CoverageFits(img) ==> ListsUpTo(img, mappings, FirstCluster(img, l1Idx))
        invariant img.virtualSize == 0 || l1Idx == 0 ==> mappings == []
        invariant forall c | 0 <= c < |mappings| :: mappings[c].clusterSize == img.clusterSize
        invariant img.virtualSize > 0 && l1Idx > 0 ==> |mappings| > 0 && mappings[0].logicalOffset == 0
        invariant img.virtualSize > 0 && l1Idx > wrap ==>
                    0 < again < |mappings| && mappings[again].logicalOffset == 0
      {
        if l1Idx == wrap {
          again := |mappings|;
        }
        mappings := MapL1Entry(l1Idx, mappings);
        NextFirst(img, l1Idx);
        l1Idx := l1Idx + 1;
      }
      if CoverageFits(img) {
        ListAscends(img, mappings, FirstCluster(img, |img.l1|));
      } else {
        CoverageWraps(img, wrap);
      }
    }

    /** The data of one chunk, for the descriptor that was found. */
    method ReadEntry(l2Entry: U64, at: nat, chunk: nat) returns (d: Option<seq<Byte>>)
      requires img.Valid() && img.host == host && img.inflate == inflate
      requires 0 < chunk && at + chunk <= img.clusterSize
      ensures d.Some? ==> ChunkOk(img, Classify(img, l2Entry), at, chunk, d.value)
      ensures d.None? ==> ChunkBad(img, Classify(img, l2Entry), at, chunk)
    {
      hide ChunkOk, ChunkBad, Inflated, Pread, Pow2;
      ghost var c := Classify(img, l2Entry);
      if l2Entry == 0 {
        ZeroChunk(img, c, at, chunk);
        return Some(seq(chunk, _ => 0));
      }
      if CompressedFlag(l2Entry) {
        var shift := 62 - (img.clusterBits - 8);
        var coffset := Rem(l2Entry, Pow2(shift));
        var nbSectors := Rem(Quot(l2Entry, Pow2(shift)), Pow2(img.clusterBits - 8)) + 1;
        CompressedRange(img.clusterBits, l2Entry);
        var decomp := ReadCompressed(coffset, nbSectors * 512 - coffset % 512);
        InflatedChunk(img, c, at, chunk);
        if decomp.None? {
          return None;
        }
        return Some(decomp.value[at..at + chunk]);
      }
      if !img.extended && ZeroFlag(l2Entry) {
        ZeroChunk(img, c, at, chunk);
        return Some(seq(chunk, _ => 0));
      }
      NormalChunk(img, c, at, chunk);
      return Pread(host, OffsetBits(l2Entry) + at, chunk);
    }

    /** One turn of the read loop: the bytes of one cluster, that of offset `o`. */
    method ReadChunk(l1Idx: nat, l2Idx: nat, at: nat, chunk: nat, ghost o: nat) returns (d: Option<seq<Byte>>)
      requires img.Valid() && img.host == host && img.inflate == inflate
      requires l1Idx == img.L1Index(img.ClusterOf(o)) < |img.l1|
      requires l2Idx == img.L2Index(img.ClusterOf(o)) && at == img.InCluster(o)
      requires 0 < chunk && at + chunk <= img.clusterSize
      ensures d.Some? ==> Delivered(img, o, chunk, d.value)
      ensures d.None? ==> Undeliverable(img, o, chunk)
    {
      var l1Entry := img.l1[l1Idx];
      var l2Entry := 0;
      if l1Entry != 0 {
        var l2Table := ReadL2Table(OffsetBits(l1Entry));
        l2Entry := l2Table[l2Idx];
      }
      assert l2Entry == SeenEntry(img, o);
      d := ReadEntry(l2Entry, at, chunk);
      if d.Some? {
        LiftOk(img, o, chunk, d.value);
      } else {
        LiftBad(img, o, chunk);
      }
    }

    /** Reading and inflating a compressed cluster. */
    method ReadCompressed(coffset: nat, compressedSize: nat) returns (d: Option<seq<Byte>>)
      requires img.Valid() && img.host == host && img.inflate == inflate
      ensures d == Inflated(img, coffset, compressedSize)
    {
      var comp := Pread(host, coffset, compressedSize);
      if comp.None? || |comp.value| != compressedSize {
        return None;
      }
      var out := inflate(comp.value);
      if out.None? || |out.value| > img.clusterSize {
        return None;
      }
      return Some(out.value + seq(img.clusterSize - |out.value|, _ => 0));
    }

    /** Stores bytes at `pos`, leaving the rest of the buffer alone. */
    method Put(buf: array<Byte>, pos: nat, d: seq<Byte>)
      requires pos + |d| <= buf.Length
      modifies buf
      ensures buf[..pos + |d|] == old(buf[..pos]) + d
      ensures buf[pos + |d|..] == old(buf[pos + |d|..])
    {
      forall k | 0 <= k < |d| {
        buf[pos + k] := d[k];
      }
    }

    /** read_data, for every offset and count: the first `r` bytes of the buffer are the reader's
        view from the wrapped offset on, byte by byte, across clusters of any kind; fewer than
        `count` only where the host file ends; an error only when a byte cannot be had. The L1
        index is kept in 32 bits, which is why offsets wrap. */
    method ReadData(o: nat, buf: array<Byte>, count: nat) returns (r: int)
      requires img.Valid() && img.host == host && img.inflate == inflate
      requires count <= buf.Length
      modifies buf
      ensures r == -1 || 0 <= r <= count
      ensures r >= 0 ==> Delivered(img, WrappedOffset(img, o), count, buf[..r])
      ensures r == -1 ==> Undeliverable(img, WrappedOffset(img, o), count)
      ensures buf[count..] == old(buf[count..])
    {
      hide Delivered, Undeliverable, Pow2, Quot, Rem, WrappedOffset;
      var totalRead := 0;
      ghost var base := WrappedOffset(img, o);
      WrapFacts(img, o);
      EmptyRead(img, base);
      assert buf[..0] == [];
      while totalRead < count
        invariant 0 <= totalRead <= count && base + totalRead < Reach(img)
        invariant Delivered(img, base, totalRead, buf[..totalRead])
        invariant buf[count..] == old(buf[count..])
      {
        var cur, remaining := o + totalRead, count - totalRead;
        ghost var done, b := buf[..totalRead], base + totalRead;
        var clusterIdx := img.ClusterOf(cur);
        var chunk := Min(remaining, img.clusterSize - img.InCluster(cur));
        SameIndices(img, o, totalRead);
        var l1Idx := img.L1Index(clusterIdx) % 0x1_0000_0000;
        if l1Idx >= |img.l1| {
          BeyondTable(img, b, remaining);
          DeliveredJoins(img, base, done, remaining, seq(remaining, _ => 0), count);
          Put(buf, totalRead, seq(remaining, _ => 0));
          return count;
        }
        var d := ReadChunk(l1Idx, img.L2Index(clusterIdx), img.InCluster(cur), chunk, b);
        if d.None? {
          UndeliverableJoins(img, base, done, chunk, count);
          return -1;
        }
        var n := |d.value|;
        ChunkLength(img, b, chunk, d.value);
        Put(buf, totalRead, d.value);
        assert buf[count..] == old(buf[count..]);
        DeliveredJoins(img, base, done, chunk, d.value, if n == chunk then totalRead + chunk else count);
        StaysBelow(img, b, chunk);
        totalRead := totalRead + n;
        if n < chunk {
          return totalRead;
        }
      }
      return totalRead;
    }
  }

  lemma EmptyRead(img: Image, o: nat)
    requires img.Valid()
    ensures Delivered(img, o, 0, [])
  {
  }

  lemma ChunkLength(img: Image, o: nat, chunk: nat, d: seq<Byte>)
    requires img.Valid() && Delivered(img, o, chunk, d)
    ensures |d| <= chunk
  {
  }

  // ----- the 32-bit L1 index

  /** The offsets that 2^32 L2 tables cover; at this offset the L1 index is zero again. */
  function Reach(img: Image): (r: nat)
    requires img.Valid()
    ensures r > 0
  {
    Positive(img.l2Size, img.clusterSize);
    0x1_0000_0000 * (img.l2Size * img.clusterSize)
  }

  lemma Positive(a: nat, b: nat)
    requires a > 0 && b > 0
    ensures a * b > 0
  {
  }

  /** Where the reader looks for the byte at `o`. */
  function WrappedOffset(img: Image, o: nat): nat
    requires img.Valid()
  {
    Rem(o, Reach(img))
  }

  lemma WrapFacts(img: Image, o: nat)
    requires img.Valid()
    ensures WrappedOffset(img, o) < Reach(img)
    ensures o < Reach(img) ==> WrappedOffset(img, o) == o
  {
    hide Reach;
  }

  /** The descriptor that the reader takes for `o` is the one for `o` exactly below the wrap, or
      where the L1 word at the wrapped index is zero, or the L2 word it leads to; the bytes then
      agree too. */
  lemma WrapExactly(img: Image, o: nat)
    requires img.Valid()
    ensures var w := WrappedOffset(img, o);
            SeenEntry(img, w) == SeenEntry(img, o) <==>
              || o < Reach(img) || L1Word(img, w) == 0
              || L2Table(img, OffsetBits(L1Word(img, w)))[img.L2Index(img.ClusterOf(w))] == 0
    ensures SeenEntry(img, WrappedOffset(img, o)) == SeenEntry(img, o) ==>
              SeenByte(img, WrappedOffset(img, o)) == SeenByte(img, o)
  {
    hide Quot, Rem, Pow2, Reach, WrappedOffset, L2Table, OffsetBits, ByteAt, Classify;
    WrapFacts(img, o);
    SameIndices(img, o, 0);
    if o >= Reach(img) {
      PastReach(img, o);
    }
  }

  lemma PastReach(img: Image, o: nat)
    requires img.Valid() && o >= Reach(img)
    ensures img.L1Index(img.ClusterOf(o)) >= |img.l1|
  {
    hide Quot, Pow2;
    var q := 0x1_0000_0000 * img.l2Size;
    assert Reach(img) == q * img.clusterSize;
    if img.L1Index(img.ClusterOf(o)) < 0x1_0000_0000 {
      BelowQuot(img.ClusterOf(o), 0x1_0000_0000, img.l2Size);
      BelowQuot(o, q, img.clusterSize);
    }
  }

  lemma QuotShift(k: nat, m: nat, b: nat)
    requires m > 0
    ensures k * m + b >= 0
    ensures Quot(k * m + b, m) == k + Quot(b, m) && Rem(k * m + b, m) == Rem(b, m)
  {
    hide Quot, Rem;
    var q, r := Quot(b, m), Rem(b, m);
    QuotRem(b, m);
    NatProduct(k, m);
    assert (k + q) * m + r == k * m + b;
    DivMod(k + q, m, r);
  }

  /** The indices computed from an offset in 32 bits are those of the wrapped one. */
  lemma SameIndices(img: Image, o: nat, t: nat)
    requires img.Valid() && WrappedOffset(img, o) + t < Reach(img)
    ensures var b := WrappedOffset(img, o) + t;
            && img.InCluster(o + t) == img.InCluster(b)
            && img.L2Index(img.ClusterOf(o + t)) == img.L2Index(img.ClusterOf(b))
            && img.L1Index(img.ClusterOf(o + t)) % 0x1_0000_0000 == img.L1Index(img.ClusterOf(b))
  {
    hide Quot, Rem, Pow2;
    var b, q := WrappedOffset(img, o) + t, Quot(o, Reach(img));
    QuotRem(o, Reach(img));
    assert o + t == q * Reach(img) + b;
    var l, c := img.l2Size, img.clusterSize;
    Regroup(q, l, c);
    QuotShift(q * 0x1_0000_0000 * l, c, b);
    QuotShift(q * 0x1_0000_0000, l, Quot(b, c));
    IndexFits(img, b);
    WrapIndex(q, Quot(Quot(b, c), l));
  }

  lemma Regroup(q: nat, l: nat, c: nat)
    ensures q * (0x1_0000_0000 * (l * c)) == (q * 0x1_0000_0000 * l) * c
    ensures q * 0x1_0000_0000 * l >= 0
  {
    NatProduct(q * 0x1_0000_0000, l);
  }

  lemma WrapIndex(q: nat, i: nat)
    requires i < 0x1_0000_0000
    ensures (q * 0x1_0000_0000 + i) % 0x1_0000_0000 == i
  {
  }

  /** Below 2^32 L2 tables the truncated L1 index is the index itself. */
  lemma IndexFits(img: Image, o: nat)
    requires img.Valid() && o < Reach(img)
    ensures img.L1Index(img.ClusterOf(o)) < 0x1_0000_0000
  {
    hide Quot;
    var q := 0x1_0000_0000 * img.l2Size;
    assert Reach(img) == q * img.clusterSize;
    QuotBelow(o, q, img.clusterSize);
    QuotBelow(img.ClusterOf(o), 0x1_0000_0000, img.l2Size);
  }

  lemma BelowQuot(a: nat, q: nat, m: nat)
    requires m > 0 && Quot(a, m) < q
    ensures a < q * m
  {
    hide Quot, Rem;
    QuotRem(a, m);
    MulMono(Quot(a, m) + 1, q, m);
    assert (Quot(a, m) + 1) * m == Quot(a, m) * m + m;
  }

  /** A chunk of a cluster in the L1 table ends below the wrap. */
  lemma StaysBelow(img: Image, b: nat, chunk: nat)
    requires img.Valid() && img.L1Index(img.ClusterOf(b)) < |img.l1| && img.InCluster(b) + chunk <= img.clusterSize
    ensures b + chunk < Reach(img)
  {
    hide Quot, Rem, Pow2;
    var l, c, q := img.l2Size, img.clusterSize, img.ClusterOf(b);
    BelowQuot(q, |img.l1|, l);
    QuotRem(b, c);
    MulMono(q + 1, |img.l1| * l, c);
    assert (q + 1) * c == q * c + c;
    Positive(l, c);
    MulMono(|img.l1| + 1, 0x1_0000_0000, l * c);
    assert (|img.l1| + 1) * (l * c) == |img.l1| * (l * c) + l * c;
    assert |img.l1| * (l * c) == |img.l1| * l * c;
  }
}
