/** The QCOW2 format as far as the converter uses it: host file, cluster
descriptors and the guest's view of every byte, following the section "Cluster
mapping" of the QEMU qcow2 image format specification.

Descriptors are 64-bit words kept as integers: a mask of low bits is a remainder,
a shift to the right is a division by a power of two.
 */
module Qcow2Format {
  import opened Collections
  import opened Runs

  type Byte = x: nat | x < 256
  type U64 = x: nat | x < 0x1_0000_0000_0000_0000

  // ----- arithmetic

  function Pow2(k: nat): (r: nat)
    ensures r > 0
  {
    if k == 0 then 1 else 2 * Pow2(k - 1)
  }

  lemma Double(x: nat, y: nat)
    ensures (2 * x) * y == 2 * (x * y)
  {
  }

  lemma {:induction false} Pow2Add(a: nat, b: nat)
    ensures Pow2(a + b) == Pow2(a) * Pow2(b)
  {
    if a > 0 {
      Pow2Add(a - 1, b);
      Double(Pow2(a - 1), Pow2(b));
    }
  }

  /** Integer quotient and remainder, the source's `/` and `%` on unsigned numbers
      (see QuotRemIsDivMod). */
  function Quot(a: nat, m: nat): nat
    requires m > 0
  {
    if a < m then 0 else 1 + Quot(a - m, m)
  }

  function Rem(a: nat, m: nat): (r: nat)
    requires m > 0
    ensures r < m
  {
    if a < m then a else Rem(a - m, m)
  }

  lemma {:induction false} QuotRem(a: nat, m: nat)
    requires m > 0
    ensures a == Quot(a, m) * m + Rem(a, m)
  {
    if a >= m {
      QuotRem(a - m, m);
      assert (1 + Quot(a - m, m)) * m == m + Quot(a - m, m) * m;
    }
  }

  /** A quotient and a remainder are the only ones. */
  lemma {:induction false} DivMod(q: nat, m: nat, r: nat)
    requires r < m
    ensures q * m + r >= 0
    ensures Quot(q * m + r, m) == q
    ensures Rem(q * m + r, m) == r
  {
    if q > 0 {
      DivMod(q - 1, m, r);
      assert q * m == (q - 1) * m + m;
      assert (q - 1) * m >= 0;
    }
  }

  lemma {:induction false} QuotMono(a: nat, b: nat, m: nat)
    requires a <= b && m > 0
    ensures Quot(a, m) <= Quot(b, m)
  {
    if a >= m {
      QuotMono(a - m, b - m, m);
    }
  }

  lemma QuotBelow(a: nat, q: nat, m: nat)
    requires m > 0 && a < q * m
    ensures Quot(a, m) < q
  {
    hide Quot, Rem;
    QuotRem(a, m);
    if Quot(a, m) >= q {
      MulMono(q, Quot(a, m), m);
    }
  }

  lemma QuotRemIsDivMod(a: nat, m: nat)
    requires m > 0
    ensures Quot(a, m) == a / m && Rem(a, m) == a % m
  {
    var q, r := a / m, a % m;
    assert a == q * m + r && q >= 0;
    DivMod(q, m, r);
  }

  // ----- host file

  /** The image file on the host; reading a bad byte is an I/O error. */
  datatype Host = Host(data: seq<Byte>, bad: set<nat>)

  function Clip(h: Host, off: nat, n: nat): (r: seq<Byte>)
    ensures |r| <= n
  {
    if off >= |h.data| then []
    else if off + n <= |h.data| then h.data[off..off + n]
    else h.data[off..]
  }

  /** pread: an error, or the bytes up to the end of the file. */
  function Pread(h: Host, off: nat, n: nat): Option<seq<Byte>> {
    if exists i :: off <= i < off + n && i < |h.data| && i in h.bad then None
    else Some(Clip(h, off, n))
  }

  /** A read that delivers every byte asked for. */
  predicate Readable(h: Host, off: nat, n: nat) {
    Pread(h, off, n).Some? && |Pread(h, off, n).value| == n
  }

  /** One host byte: zero past the end of the file, nothing when it is bad. */
  function HostByte(h: Host, off: nat): Option<Byte> {
    if off >= |h.data| then Some(0)
    else if off in h.bad then None
    else Some(h.data[off])
  }

  /** A successful read is the host bytes one by one, and stops only at the end of
      the file; a failed one has a bad byte to show. */
  lemma PreadBytes(h: Host, off: nat, n: nat)
    ensures match Pread(h, off, n)
            case Some(b) =>
              && |b| <= n
              && (forall k | 0 <= k < |b| :: off + k < |h.data| && HostByte(h, off + k) == Some(b[k]))
              && (|b| < n ==> off + |b| >= |h.data|)
            case None => exists i :: off <= i < off + n && i < |h.data| && HostByte(h, i).None?
  {
    if Pread(h, off, n).None? {
      var i :| off <= i < off + n && i < |h.data| && i in h.bad;
      assert HostByte(h, i).None?;
    }
  }

  /** The bytes of a range of the host file, zero past its end. */
  function Padded(h: Host, off: nat, n: nat): (r: seq<Byte>)
    ensures |r| == n
  {
    var d := h.data;
    seq(n, k => if 0 <= k && off + k < |d| then d[off + k] else 0)
  }

  /** Any part of a read that came back in full is the padded range there. */
  lemma ReadIsPadded(h: Host, off: nat, n: nat, k: nat, m: nat)
    requires Readable(h, off, n) && k + m <= n
    ensures Pread(h, off, n).value[k..k + m] == Padded(h, off + k, m)
  {
  }

  function Be64(b: seq<Byte>): U64
    requires |b| == 8
  {
    (b[0] as int) * 0x100_0000_0000_0000 + (b[1] as int) * 0x1_0000_0000_0000 +
    (b[2] as int) * 0x100_0000_0000 + (b[3] as int) * 0x1_0000_0000 +
    (b[4] as int) * 0x100_0000 + (b[5] as int) * 0x1_0000 + (b[6] as int) * 0x100 + b[7]
  }

  function Be32(b: seq<Byte>): (r: nat)
    requires |b| == 4
    ensures r < 0x1_0000_0000
  {
    (b[0] as int) * 0x100_0000 + (b[1] as int) * 0x1_0000 + (b[2] as int) * 0x100 + b[3]
  }

  // ----- descriptors

  /** What a guest cluster is backed by. */
  datatype Cluster =
    | Unallocated
    | Zero
    | Compressed(offset: nat, size: nat)
    | Normal(offset: nat)

  /** `e & 0x00fffffffffffe00`: bits 9 to 55. */
  function OffsetBits(e: U64): nat {
    (e % 0x100_0000_0000_0000) / 512 * 512
  }

  predicate CompressedFlag(e: U64) {
    (e / 0x4000_0000_0000_0000) % 2 == 1
  }

  predicate CopiedFlag(e: U64) {
    e / 0x8000_0000_0000_0000 == 1
  }

  predicate ZeroFlag(e: U64) {
    e % 2 == 1
  }

  /** Bits 0 to x-1 of a compressed descriptor, where x is 62 - (cluster_bits - 8). */
  function CompressedOffset(cb: nat, e: nat): nat
    requires 9 <= cb <= 30
  {
    Rem(e, Pow2(70 - cb))
  }

  /** Bits x to 61: the number of sectors, less one. */
  function CompressedSectors(cb: nat, e: nat): nat
    requires 9 <= cb <= 30
  {
    Rem(Quot(e, Pow2(70 - cb)), Pow2(cb - 8)) + 1
  }

  function CompressedSize(cb: nat, e: nat): int
    requires 9 <= cb <= 30
  {
    CompressedSectors(cb, e) * 512 - CompressedOffset(cb, e) % 512
  }

  /** A compressed descriptor with its two flag bits `top`. */
  function EncodeCompressed(cb: nat, offset: nat, sectors: nat, top: nat): int
    requires 9 <= cb <= 30
  {
    var q := top * Pow2(cb - 8) + (sectors - 1);
    q * Pow2(70 - cb) + offset
  }

  /** The two fields make up bits 0 to 61, so `top` is bits 62 and 63. */
  lemma FieldsFill62Bits(cb: nat)
    requires 9 <= cb <= 30
    ensures Pow2(cb - 8) * Pow2(70 - cb) == 0x4000_0000_0000_0000
  {
    Pow2Add(cb - 8, 70 - cb);
    assert cb - 8 + (70 - cb) == 62;
    Pow62();
  }

  lemma Pow2Product(a: nat, b: nat, x: nat, y: nat)
    requires Pow2(a) == x && Pow2(b) == y
    ensures Pow2(a + b) == x * y
  {
    Pow2Add(a, b);
  }

  lemma Pow62()
    ensures Pow2(62) == 0x4000_0000_0000_0000
  {
    assert Pow2(1) == 2 && Pow2(2) == 4 && Pow2(4) == 16;
    Pow2Product(4, 4, 16, 16);
    Pow2Product(8, 8, 0x100, 0x100);
    Pow2Product(16, 16, 0x1_0000, 0x1_0000);
    Pow2Product(2, 4, 4, 16);
    Pow2Product(6, 8, 64, 0x100);
    Pow2Product(14, 16, 0x4000, 0x1_0000);
    Pow2Product(30, 32, 0x4000_0000, 0x1_0000_0000);
  }

  /** Decoding undoes encoding, whatever the two flag bits hold. */
  lemma DecodeEncode(cb: nat, offset: nat, sectors: nat, top: nat)
    requires 9 <= cb <= 30
    requires offset < Pow2(70 - cb) && 1 <= sectors <= Pow2(cb - 8)
    ensures var e := EncodeCompressed(cb, offset, sectors, top);
            && e >= 0
            && CompressedOffset(cb, e) == offset
            && CompressedSectors(cb, e) == sectors
  {
    var s, b := Pow2(70 - cb), Pow2(cb - 8);
    var q: nat := top * b + (sectors - 1);
    DivMod(q, s, offset);
    DivMod(top, b, sectors - 1);
  }

  lemma Distribute(top: nat, b: nat, n: nat, s: nat)
    requires n < b && s > 0
    ensures (top * b + n) * s == top * (b * s) + n * s
    ensures 0 <= n * s && n * s + s <= b * s
  {
    MulMono(n + 1, b, s);
    MulMono(0, n, s);
    assert (n + 1) * s == n * s + s;
    assert top * (b * s) == top * b * s;
    assert (top * b + n) * s == top * b * s + n * s;
  }

  lemma SplitUnique(top: nat, b: nat, n: nat, s: nat, r: nat)
    requires n < b && r < s
    ensures b * s > 0
    ensures var q := top * b + n; Quot(q * s + r, b * s) == top
  {
    hide Quot, Rem;
    Distribute(top, b, n, s);
    DivMod(top, b * s, n * s + r);
  }

  lemma SplitTwice(e: nat, b: nat, s: nat)
    requires b > 0 && s > 0
    ensures b * s > 0
    ensures Quot(Quot(e, s), b) == Quot(e, b * s)
    ensures Quot(e, s) == Quot(e, b * s) * b + Rem(Quot(e, s), b)
    ensures e == Quot(e, s) * s + Rem(e, s)
  {
    hide Quot, Rem;
    var q, r := Quot(e, s), Rem(e, s);
    QuotRem(e, s);
    var top, n := Quot(q, b), Rem(q, b);
    QuotRem(q, b);
    SplitUnique(top, b, n, s, r);
  }

  /** Encoding undoes decoding: the offset and the sector field, with the two flag
      bits, are the whole word, so the fields partition bits 0 to 61. */
  lemma EncodeDecode(cb: nat, e: nat)
    requires 9 <= cb <= 30
    ensures CompressedOffset(cb, e) < Pow2(70 - cb)
    ensures 1 <= CompressedSectors(cb, e) <= Pow2(cb - 8)
    ensures EncodeCompressed(cb, CompressedOffset(cb, e), CompressedSectors(cb, e),
                             Quot(e, 0x4000_0000_0000_0000)) == e
  {
    FieldsFill62Bits(cb);
    hide Quot, Rem, Pow2;
    SplitTwice(e, Pow2(cb - 8), Pow2(70 - cb));
  }

  /** The compressed bytes are a non-empty range that ends on a sector boundary. */
  lemma CompressedRange(cb: nat, e: nat)
    requires 9 <= cb <= 30
    ensures CompressedSize(cb, e) > 0
    ensures (CompressedOffset(cb, e) + CompressedSize(cb, e)) % 512 == 0
  {
    var o, n := CompressedOffset(cb, e), CompressedSectors(cb, e);
    assert o + CompressedSize(cb, e) == (o / 512 + n) * 512;
  }

  // ----- image

  /** An opened image. `inflate` stands for zlib: the bytes of a complete raw deflate
      stream at the start of its argument, or None. */
  datatype Image = Image(
    host: Host,
    clusterBits: nat,
    clusterSize: nat,
    l2Size: nat,              // entries of an L2 table
    extended: bool,           // 16-byte L2 entries
    l1: seq<U64>,
    virtualSize: nat,
    inflate: seq<Byte> -> Option<seq<Byte>>)
  {
    predicate Valid() {
      && 9 <= clusterBits <= 30
      && clusterSize == Pow2(clusterBits)
      && clusterSize >= 512
      && l2Size * EntrySize() == clusterSize
      && |l1| < 0x1_0000_0000
    }

    function EntrySize(): nat {
      if extended then 16 else 8
    }

    function ClusterOf(o: nat): nat
      requires Valid()
    {
      Quot(o, clusterSize)
    }

    function InCluster(o: nat): (k: nat)
      requires Valid()
      ensures k < clusterSize
    {
      Rem(o, clusterSize)
    }

    function L1Index(c: nat): nat
      requires Valid()
    {
      Quot(c, l2Size)
    }

    function L2Index(c: nat): (j: nat)
      requires Valid()
      ensures j < l2Size
    {
      Rem(c, l2Size)
    }
  }

  lemma {:induction false} Pow2Mono(a: nat, b: nat)
    requires a <= b
    ensures Pow2(a) <= Pow2(b)
  {
    if a < b {
      Pow2Mono(a, b - 1);
    }
  }

  /** How the reader takes a descriptor. */
  function Classify(img: Image, e: U64): (c: Cluster)
    requires img.Valid()
    ensures c.Compressed? ==> c.size > 0
  {
    if e == 0 then Unallocated
    else if CompressedFlag(e) then
      CompressedRange(img.clusterBits, e);
      Compressed(CompressedOffset(img.clusterBits, e), CompressedSize(img.clusterBits, e))
    else if !img.extended && ZeroFlag(e) then Zero
    else Normal(OffsetBits(e))
  }

  /** The L2 table at `off` as the reader gets it: all zero when it cannot be read in
      full. */
  function L2Table(img: Image, off: nat): (t: seq<U64>)
    requires img.Valid()
    ensures |t| == img.l2Size
  {
    var n := img.l2Size * img.EntrySize();
    if Readable(img.host, off, n) then
      var b := Pread(img.host, off, n).value;
      seq(img.l2Size, j requires 0 <= j < img.l2Size => EntryAt(b, j, img.l2Size, img.EntrySize()))
    else seq(img.l2Size, j => 0)
  }

  function EntryAt(b: seq<Byte>, j: nat, n: nat, width: nat): U64
    requires j < n && width >= 8 && |b| == n * width
  {
    MulMono(j + 1, n, width);
    assert (j + 1) * width == j * width + width;
    Be64(b[j * width..j * width + 8])
  }

  // ----- the reader's view

  /** The L1 entry for the guest offset `o`, zero beyond the table. */
  function L1Word(img: Image, o: nat): U64
    requires img.Valid()
  {
    var i := img.L1Index(img.ClusterOf(o));
    if i >= |img.l1| then 0 else img.l1[i]
  }

  /** The descriptor the reader uses for the guest offset `o`. */
  function SeenEntry(img: Image, o: nat): U64
    requires img.Valid()
  {
    var w := L1Word(img, o);
    if w == 0 then 0 else L2Table(img, OffsetBits(w))[img.L2Index(img.ClusterOf(o))]
  }

  function SeenCluster(img: Image, o: nat): Cluster
    requires img.Valid()
  {
    Classify(img, SeenEntry(img, o))
  }

  /** The cluster that compressed bytes hold: a stream that does not end within the
      cluster is an error, a shorter one leaves zeros. */
  function Expand(img: Image, compressed: seq<Byte>): (r: Option<seq<Byte>>)
    requires img.Valid()
    ensures r.Some? ==> |r.value| == img.clusterSize
  {
    match img.inflate(compressed)
    case None => None
    case Some(out) =>
      if |out| > img.clusterSize then None
      else Some(out + seq(img.clusterSize - |out|, _ => 0))
  }

  /** A compressed cluster as the reader gets it: its range must be read in full. */
  function Inflated(img: Image, offset: nat, size: nat): (r: Option<seq<Byte>>)
    requires img.Valid()
    ensures r.Some? ==> |r.value| == img.clusterSize
  {
    if !Readable(img.host, offset, size) then None
    else Expand(img, Pread(img.host, offset, size).value)
  }

  /** Byte `k` of a cluster, or None when it cannot be had. */
  function ByteAt(img: Image, c: Cluster, k: nat): Option<Byte>
    requires img.Valid() && k < img.clusterSize
  {
    match c
    case Unallocated => Some(0)
    case Zero => Some(0)
    case Compressed(off, size) =>
      var d := Inflated(img, off, size);
      if d.None? then None else Some(d.value[k])
    case Normal(off) => HostByte(img.host, off + k)
  }

  function SeenByte(img: Image, o: nat): Option<Byte>
    requires img.Valid()
  {
    ByteAt(img, SeenCluster(img, o), img.InCluster(o))
  }

  /** The byte lies in a data cluster beyond the end of the host file. */
  predicate PastEof(img: Image, o: nat)
    requires img.Valid()
  {
    PastIn(img, SeenCluster(img, o), img.InCluster(o))
  }

  predicate PastIn(img: Image, c: Cluster, k: nat) {
    c.Normal? && c.offset + k >= |img.host.data|
  }

  // ----- the guest's view

  /** A stored word, zero where the host file ends. */
  function StoredWord(h: Host, off: nat): U64 {
    Be64(Padded(h, off, 8))
  }

  function Stored32(h: Host, off: nat): (r: nat)
    ensures r < 0x1_0000_0000
  {
    Be32(Padded(h, off, 4))
  }

  /** Header fields that `open` does not look at: the offset of the backing file's name, zero when
      there is none, and the encryption method, zero for none. */
  predicate HasBacking(h: Host) {
    StoredWord(h, 8) != 0
  }

  predicate Encrypted(h: Host) {
    Stored32(h, 32) != 0
  }

  /** What a guest sees that is not in the file: the bytes of the backing file at each guest
      offset, and what the payload there decrypts to. */
  datatype Outside = Outside(backing: nat -> Byte, plain: nat -> Byte)

  /** The descriptor the format gives for the guest offset `o`. */
  function StoredEntry(img: Image, o: nat): U64
    requires img.Valid()
  {
    var off := OffsetBits(L1Word(img, o));
    if off == 0 then 0
    else StoredWord(img.host, off + img.L2Index(img.ClusterOf(o)) * img.EntrySize())
  }

  /** What the format says about a standard descriptor. */
  function FormatCluster(img: Image, e: U64): Cluster
    requires img.Valid()
  {
    if CompressedFlag(e) then
      CompressedRange(img.clusterBits, e);
      Compressed(CompressedOffset(img.clusterBits, e), CompressedSize(img.clusterBits, e))
    else if ZeroFlag(e) then Zero
    else if OffsetBits(e) == 0 && !CopiedFlag(e) then Unallocated
    else Normal(OffsetBits(e))
  }

  /** Byte `k` of a cluster to the guest: also of a compressed range the bytes past the end
      of the host file are zero. */
  function GuestByteAt(img: Image, c: Cluster, k: nat): Option<Byte>
    requires img.Valid() && k < img.clusterSize
  {
    if c.Compressed? then
      if Pread(img.host, c.offset, c.size).None? then None
      else
        var d := Expand(img, Padded(img.host, c.offset, c.size));
        if d.None? then None else Some(d.value[k])
    else ByteAt(img, c, k)
  }

  /** The byte of a guest offset in a cluster: an unallocated cluster shows the backing file, if
      there is one, and the payload of an encrypted image is decrypted. */
  function GuestByteIn(img: Image, out: Outside, c: Cluster, o: nat): Option<Byte>
    requires img.Valid()
  {
    var stored := GuestByteAt(img, c, img.InCluster(o));
    if c.Unallocated? && HasBacking(img.host) then Some(out.backing(o))
    else if Payload(c) && Encrypted(img.host) && stored.Some? then Some(out.plain(o))
    else stored
  }

  predicate Payload(c: Cluster) {
    c.Normal? || c.Compressed?
  }

  /** The byte a guest sees, for standard L2 entries. */
  function GuestByte(img: Image, out: Outside, o: nat): Option<Byte>
    requires img.Valid() && !img.extended
  {
    GuestByteIn(img, out, FormatCluster(img, StoredEntry(img, o)), o)
  }

  /** The backing file has something to show in an unallocated cluster. */
  predicate Overlaid(img: Image, out: Outside, c: Cluster, o: nat) {
    c.Unallocated? && HasBacking(img.host) && out.backing(o) != 0
  }

  /** The payload of an encrypted image at `o` is not its own plain text. */
  predicate Ciphered(img: Image, out: Outside, c: Cluster, o: nat)
    requires img.Valid()
  {
    Payload(c) && Encrypted(img.host) && ByteAt(img, c, img.InCluster(o)).Some?
    && ByteAt(img, c, img.InCluster(o)) != Some(out.plain(o))
  }

  /** The byte is in a compressed cluster whose range the end of the host file cuts off. */
  predicate CutOff(img: Image, c: Cluster) {
    c.Compressed? && c.offset + c.size > |img.host.data|
  }

  /** The reader's byte is the guest's exactly when the range is not cut off, or the guest
      cannot have the byte either. */
  lemma ByteIsGuest(img: Image, c: Cluster, k: nat)
    requires img.Valid() && k < img.clusterSize && (c.Compressed? ==> c.size > 0)
    ensures ByteAt(img, c, k) == GuestByteAt(img, c, k) <==> !CutOff(img, c) || GuestByteAt(img, c, k).None?
    ensures CutOff(img, c) ==> ByteAt(img, c, k).None?
  {
    if c.Compressed? && Readable(img.host, c.offset, c.size) {
      ReadIsPadded(img.host, c.offset, c.size, 0, c.size);
      var b := Pread(img.host, c.offset, c.size).value;
      assert b[0..c.size] == b;
    }
    hide Expand, Padded;
  }

  /** The format's rule on reserved bits: an L1 entry without an offset is zero, and so
      is a standard L2 entry without flags and offset. */
  predicate ReservedClear(img: Image, o: nat)
    requires img.Valid()
  {
    var e := StoredEntry(img, o);
    && (OffsetBits(L1Word(img, o)) == 0 ==> L1Word(img, o) == 0)
    && (!CompressedFlag(e) && !ZeroFlag(e) && !CopiedFlag(e) && OffsetBits(e) == 0 ==> e == 0)
  }

  /** The L2 table for `o`, if there is one, can be read in full. */
  predicate TableReadable(img: Image, o: nat)
    requires img.Valid()
  {
    var w := L1Word(img, o);
    w != 0 ==> Readable(img.host, OffsetBits(w), img.l2Size * img.EntrySize())
  }

  lemma WordAsRead(h: Host, off: nat, n: nat, width: nat, j: nat)
    requires width >= 8 && j < n && Readable(h, off, n * width)
    ensures EntryAt(Pread(h, off, n * width).value, j, n, width) == StoredWord(h, off + j * width)
  {
    hide Be64, Pread, Readable, Padded;
    MulMono(j + 1, n, width);
    assert (j + 1) * width == j * width + width;
    ReadIsPadded(h, off, n * width, j * width, 8);
  }

  lemma EntryAsRead(img: Image, off: nat, j: nat)
    requires img.Valid() && j < img.l2Size
    ensures L2Table(img, off)[j] ==
            if Readable(img.host, off, img.l2Size * img.EntrySize())
            then StoredWord(img.host, off + j * img.EntrySize()) else 0
  {
    if Readable(img.host, off, img.l2Size * img.EntrySize()) {
      WordAsRead(img.host, off, img.l2Size, img.EntrySize(), j);
    }
  }

  /** The reader works with the stored descriptor exactly when the L2 table can be read
      in full or the descriptor is zero anyway: a table cut off by the end of the file
      is silently taken for one without any cluster. */
  lemma SeenIsStored(img: Image, o: nat)
    requires img.Valid() && ReservedClear(img, o)
    ensures SeenEntry(img, o) == StoredEntry(img, o) <==>
            TableReadable(img, o) || StoredEntry(img, o) == 0
  {
    hide L2Table, StoredWord, Readable, Pread, CompressedFlag, ZeroFlag, CopiedFlag, Pow2, Quot, Rem;
    var w := L1Word(img, o);
    if w != 0 {
      EntryAsRead(img, OffsetBits(w), img.L2Index(img.ClusterOf(o)));
      assert SeenEntry(img, o) == if TableReadable(img, o) then StoredEntry(img, o) else 0;
    }
  }

  /** On a word that keeps the reserved bits clear the reader's classification is the
      format's. */
  lemma ClassifyIsFormat(img: Image, e: U64)
    requires img.Valid() && !img.extended
    requires !CompressedFlag(e) && !ZeroFlag(e) && !CopiedFlag(e) && OffsetBits(e) == 0 ==> e == 0
    ensures Classify(img, e) == FormatCluster(img, e)
  {
  }

  lemma ByteInIsGuest(img: Image, out: Outside, c: Cluster, o: nat)
    requires img.Valid() && (c.Compressed? ==> c.size > 0)
    ensures ByteAt(img, c, img.InCluster(o)) == GuestByteIn(img, out, c, o) <==>
            && !Overlaid(img, out, c, o) && !Ciphered(img, out, c, o)
            && (CutOff(img, c) ==> GuestByteIn(img, out, c, o).None?)
  {
    ByteIsGuest(img, c, img.InCluster(o));
    if !c.Compressed? {
      hide Inflated, HostByte, Expand;
    } else {
      hide ByteAt, GuestByteAt;
    }
  }

  /** Where the L2 table can be read, the reader's view of a byte is the guest's exactly when
      the backing file has nothing to show there, the payload is not encrypted to another byte,
      and no compressed range is cut off by the end of the file unless the guest cannot have
      the byte either. What the reader delivers of an image without encryption and without
      anything of a backing file to show is always the guest's. */
  lemma SeenIsGuest(img: Image, out: Outside, o: nat)
    requires img.Valid() && !img.extended && ReservedClear(img, o) && TableReadable(img, o)
    ensures SeenByte(img, o) == GuestByte(img, out, o) <==>
            && !Overlaid(img, out, SeenCluster(img, o), o) && !Ciphered(img, out, SeenCluster(img, o), o)
            && (CutOff(img, SeenCluster(img, o)) ==> GuestByte(img, out, o).None?)
    ensures SeenByte(img, o).Some? && !Encrypted(img.host) && !Overlaid(img, out, SeenCluster(img, o), o) ==>
              SeenByte(img, o) == GuestByte(img, out, o)
  {
    SeenIsStored(img, o);
    var e := StoredEntry(img, o);
    ClassifyIsFormat(img, e);
    ByteIsGuest(img, Classify(img, e), img.InCluster(o));
    ByteInIsGuest(img, out, Classify(img, e), o);
    hide Classify, FormatCluster, StoredEntry, ByteAt, GuestByteAt, GuestByteIn, CutOff, Overlaid;
  }

  /** An image whose only L2 table is cut off by the end of the file. */
  function TruncatedImage(): Image {
    Image(Host(seq(1000, i => if i == 518 then 2 else 0), {}), 9, 512, 64, false, [512], 512, _ => None)
  }

  lemma TruncatedWords(h: Host)
    requires h == TruncatedImage().host
    ensures StoredWord(h, 512) == 512 && HostByte(h, 518) == Some(2)
    ensures !Readable(h, 512, 512) && !Encrypted(h)
  {
    assert |h.data| == 1000;
    assert h.data[518] == 2 && forall i | 0 <= i < 1000 && i != 518 :: h.data[i] == 0;
  }

  lemma TruncatedGeometry()
    ensures var img := TruncatedImage();
            && img.Valid() && !img.extended && img.l2Size * img.EntrySize() == 512 && L1Word(img, 6) == 512
            && img.ClusterOf(6) == 0 && img.InCluster(6) == 6 && img.L2Index(0) == 0
  {
    hide TruncatedImage;
    TruncatedFields();
    assert Pow2(9) == 512 by { assert Pow2(6) == 64; }
  }

  lemma TruncatedFields()
    ensures var img := TruncatedImage();
            img.clusterBits == 9 && img.clusterSize == 512 && img.l2Size == 64 && !img.extended && img.l1 == [512]
  {
  }

  /** A descriptor for host offset 512, in a table at 512 that cannot be read. */
  lemma LostByte(img: Image, out: Outside, o: nat)
    requires img.Valid() && !img.extended && L1Word(img, o) == 512 && img.l2Size * img.EntrySize() == 512
    requires img.L2Index(img.ClusterOf(o)) == 0 && !Readable(img.host, 512, 512)
    requires StoredWord(img.host, 512) == 512
    ensures ReservedClear(img, o) && !TableReadable(img, o) && SeenByte(img, o) == Some(0)
    ensures !Encrypted(img.host) ==>
              GuestByte(img, out, o) == HostByte(img.host, 512 + img.InCluster(o))
  {
    hide L2Table, StoredWord, Readable, Pread, HostByte, Pow2, Quot, Rem, L1Word;
    assert OffsetBits(512) == 512 && !CompressedFlag(512) && !ZeroFlag(512);
    EntryAsRead(img, 512, 0);
    assert StoredEntry(img, o) == 512 && SeenEntry(img, o) == 0;
  }

  /** There the guest's byte 6 is 2, and the reader makes it 0 without an error. */
  lemma TruncatedTableLosesData(out: Outside)
    ensures var img := TruncatedImage();
            && img.Valid() && ReservedClear(img, 6) && !TableReadable(img, 6)
            && GuestByte(img, out, 6) == Some(2) && SeenByte(img, 6) == Some(0)
  {
    TruncatedGeometry();
    var img := TruncatedImage();
    TruncatedWords(img.host);
    hide *;
    LostByte(img, out, 6);
  }

  /** An image whose only cluster is compressed, in a range that the end of the file cuts off. */
  function CutImage(): Image {
    Image(Host(seq(1100, i => if i == 512 then 0x40 else if i == 518 then 4 else 0), {}), 9, 512, 64, false, [512], 512,
          _ => Some([7]))
  }

  const CUT_ENTRY: U64 := 0x4000_0000_0000_0400

  /** One sector at `offset`: the descriptor is bit 62 and the offset. */
  lemma OneSector(cb: nat, offset: nat, e: nat)
    requires 9 <= cb <= 30 && offset < Pow2(70 - cb) && offset % 512 == 0
    requires e == 0x4000_0000_0000_0000 + offset
    ensures CompressedOffset(cb, e) == offset && CompressedSize(cb, e) == 512
  {
    FieldsFill62Bits(cb);
    DecodeEncode(cb, offset, 1, 1);
    var b, s := Pow2(cb - 8), Pow2(70 - cb);
    hide *;
    assert 1 * b + (1 - 1) == b;
    assert EncodeCompressed(cb, offset, 1, 1) == b * s + offset;
  }

  lemma CutEntry(cb: nat)
    requires cb == 9
    ensures CompressedFlag(CUT_ENTRY)
    ensures CompressedOffset(cb, CUT_ENTRY) == 1024 && CompressedSize(cb, CUT_ENTRY) == 512
  {
    hide Quot, Rem, Pow2, CompressedOffset, CompressedSize;
    SmallPowers(cb);
    OneSector(cb, 1024, CUT_ENTRY);
  }

  lemma SmallPowers(cb: nat)
    requires cb == 9
    ensures Pow2(cb - 8) == 2 && Pow2(70 - cb) > 1024
  {
    var k := 11;
    Pow2Mono(k, 70 - cb);
    assert Pow2(k) == 2048;
  }

  lemma CutFields()
    ensures var img := CutImage();
            && img.clusterBits == 9 && img.clusterSize == 512 && img.l2Size == 64 && !img.extended && img.l1 == [512]
            && |img.host.data| == 1100 && StoredWord(img.host, 512) == CUT_ENTRY && Readable(img.host, 512, 512)
            && !Encrypted(img.host)
            && Pread(img.host, 1024, 512).Some? && forall b :: img.inflate(b) == Some([7])
  {
    var d := CutImage().host.data;
    assert d[512] == 0x40 && d[518] == 4 && forall i | 0 <= i < 1100 && i != 512 && i != 518 :: d[i] == 0;
  }

  lemma CutGeometry()
    ensures var img := CutImage();
            img.Valid() && L1Word(img, 0) == 512 && img.ClusterOf(0) == 0 && img.InCluster(0) == 0
                && img.L2Index(0) == 0
  {
    hide CutImage, StoredWord, Readable, Pread;
    CutFields();
    assert Pow2(9) == 512 by { assert Pow2(6) == 64; }
  }

  /** There the guest's byte 0 is 7, and the reader reports an error. */
  lemma CutRangeIsRefused(out: Outside)
    ensures var img := CutImage();
            && img.Valid() && ReservedClear(img, 0) && TableReadable(img, 0)
            && GuestByte(img, out, 0) == Some(7) && SeenByte(img, 0).None?
  {
    hide CutImage, StoredWord, Readable, Pread, Padded, Pow2, Quot, Rem, L2Table, CompressedOffset, CompressedSize;
    CutFields();
    CutGeometry();
    CutEntry(9);
    var img := CutImage();
    assert OffsetBits(512) == 512;
    assert StoredEntry(img, 0) == CUT_ENTRY;
    SeenIsStored(img, 0);
    ByteIsGuest(img, Compressed(1024, 512), 0);
    hide ByteAt;
    assert SeenCluster(img, 0) == Compressed(1024, 512);
  }
}
