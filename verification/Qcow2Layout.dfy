/** The layout of a QCOW2 file, told from the side of whoever wrote it: where each field of a
word lies, how words lie in the file, and that the reader finds at every guest offset what was
written for it.
 */
module Qcow2Layout {
  import opened Collections
  import opened Runs
  import opened Qcow2Format
  import opened Qcow2Reading

  const TWO_56 := 0x100_0000_0000_0000
  const TWO_62 := 0x4000_0000_0000_0000

  // ----- fields of a word

  /** A word with the host offset `o` among other bits. */
  function Word(top: nat, o: nat, low: nat): U64
    requires top < 256 && o < TWO_56 && o % 512 == 0 && low < 512
  {
    top * TWO_56 + o + low
  }

  /** A host offset on a 512-byte boundary is in bits 9 to 55 of a word, whatever the other bits
      are. */
  lemma OffsetField(top: nat, o: nat, low: nat)
    requires top < 256 && o < TWO_56 && o % 512 == 0 && low < 512
    ensures OffsetBits(Word(top, o, low)) == o
  {
    assert Word(top, o, low) % TWO_56 == o + low;
    assert (o + low) / 512 * 512 == o;
  }

  /** Every word is such a word. */
  lemma OffsetRest(e: U64)
    ensures OffsetBits(e) < TWO_56 && OffsetBits(e) % 512 == 0
    ensures e == Word(e / TWO_56, OffsetBits(e), e % 512)
  {
  }

  /** Bits 63 and 62 are the two flags, and bit 0 is the zero flag. */
  lemma FlagFields(copied: nat, compressed: nat, rest: nat)
    requires copied < 2 && compressed < 2 && rest < TWO_62
    ensures var e := copied * (2 * TWO_62) + compressed * TWO_62 + rest;
            && (CopiedFlag(e) <==> copied == 1) && (CompressedFlag(e) <==> compressed == 1)
            && (ZeroFlag(e) <==> rest % 2 == 1)
  {
    var e := copied * (2 * TWO_62) + compressed * TWO_62 + rest;
    assert e / TWO_62 == copied * 2 + compressed;
  }

  /** Incompatible features: dirty and corrupt are ignored, bit 4 makes entries extended, and any
      other bit is refused. */
  lemma FeatureFields(dirty: nat, corrupt: nat, two: nat, extended: nat, rest: nat)
    requires dirty < 2 && corrupt < 2 && two < 4 && extended < 2
    requires dirty + 2 * corrupt + 4 * two + 16 * extended + 32 * rest < 0x1_0000_0000_0000_0000
    ensures var f := dirty + 2 * corrupt + 4 * two + 16 * extended + 32 * rest;
            && (ExtendedFlag(f) <==> extended == 1) && (Unsupported(f) <==> two != 0 || rest != 0)
  {
    var f := dirty + 2 * corrupt + 4 * two + 16 * extended + 32 * rest;
    Split(dirty + 2 * corrupt, 4, two + 4 * (extended + 2 * rest));
    Split(dirty + 2 * corrupt + 4 * two, 16, extended + 2 * rest);
    Split(dirty + 2 * corrupt + 4 * two + 16 * extended, 32, rest);
    assert f / 4 == two + 4 * (extended + 2 * rest) && f / 16 == extended + 2 * rest && f / 32 == rest;
  }

  /** The quotient of a sum whose first part is below the divisor. */
  lemma Split(r: nat, m: nat, q: nat)
    requires r < m
    ensures q * m + r >= 0 && (q * m + r) / m == q && (q * m + r) % m == r
  {
    hide Quot, Rem;
    DivMod(q, m, r);
    QuotRemIsDivMod(q * m + r, m);
  }

  // ----- words in the file

  function ToBe32(w: nat): (b: seq<Byte>)
    requires w < 0x1_0000_0000
    ensures |b| == 4
  {
    [w / 0x100_0000, w / 0x1_0000 % 256, w / 0x100 % 256, w % 256]
  }

  function ToBe64(w: U64): (b: seq<Byte>)
    ensures |b| == 8
  {
    ToBe32(w / 0x1_0000_0000) + ToBe32(w % 0x1_0000_0000)
  }

  lemma Be32Law(w: nat)
    requires w < 0x1_0000_0000
    ensures Be32(ToBe32(w)) == w
  {
    var q := w / 0x100;
    assert w == q * 0x100 + w % 256 && w / 0x1_0000 == q / 0x100 && w / 0x100_0000 == q / 0x1_0000;
    var p := q / 0x100;
    assert q == p * 0x100 + q % 256 && q / 0x1_0000 == p / 0x100;
    assert p == p / 0x100 * 0x100 + p % 256;
  }

  lemma Be32Back(b: seq<Byte>)
    requires |b| == 4
    ensures ToBe32(Be32(b)) == b
  {
    var w := Be32(b);
    var b0: int, b1: int, b2: int := b[0], b[1], b[2];
    assert w / 0x100 == b0 * 0x1_0000 + b1 * 0x100 + b2 && w % 256 == b[3];
    assert w / 0x1_0000 == b0 * 0x100 + b1 && w / 0x100_0000 == b0;
  }

  lemma Be64Split(b: seq<Byte>)
    requires |b| == 8
    ensures Be64(b) == Be32(b[..4]) * 0x1_0000_0000 + Be32(b[4..])
  {
  }

  /** A 64-bit word survives being written and read, and so do eight bytes. */
  lemma Be64Law(w: U64)
    ensures Be64(ToBe64(w)) == w
  {
    var hi, lo := w / 0x1_0000_0000, w % 0x1_0000_0000;
    Be32Law(hi);
    Be32Law(lo);
    Be64Split(ToBe64(w));
    hide Be32, Be64, ToBe32;
    assert ToBe64(w)[..4] == ToBe32(hi) && ToBe64(w)[4..] == ToBe32(lo);
  }

  lemma Be64Back(b: seq<Byte>)
    requires |b| == 8
    ensures ToBe64(Be64(b)) == b
  {
    hide Be32, Be64, ToBe32;
    Be64Split(b);
    Be32Back(b[..4]);
    Be32Back(b[4..]);
    Split(Be32(b[4..]), 0x1_0000_0000, Be32(b[..4]));
    assert b == b[..4] + b[4..];
  }

  /** The file has these bytes at `off`. */
  predicate Has(h: Host, off: nat, b: seq<Byte>) {
    off + |b| <= |h.data| && h.data[off..off + |b|] == b
  }

  lemma StoredAsWritten(h: Host, off: nat, w: U64)
    requires Has(h, off, ToBe64(w))
    ensures StoredWord(h, off) == w
  {
    hide ToBe64, Be64;
    Be64Law(w);
    assert Padded(h, off, 8) == h.data[off..off + 8];
  }

  lemma Stored32AsWritten(h: Host, off: nat, w: nat)
    requires w < 0x1_0000_0000 && Has(h, off, ToBe32(w))
    ensures Stored32(h, off) == w
  {
    hide ToBe32, Be32;
    Be32Law(w);
    assert Padded(h, off, 4) == h.data[off..off + 4];
  }

  /** A header as it was written: magic, version, cluster bits, virtual size, and the length and
      place of the L1 table. */
  predicate HeaderWritten(h: Host, magic: nat, version: nat, bits: nat, size: U64, l1Size: nat, l1Offset: U64) {
    && magic < 0x1_0000_0000 && version < 0x1_0000_0000 && bits < 0x1_0000_0000 && l1Size < 0x1_0000_0000
    && Has(h, 0, ToBe32(magic)) && Has(h, 4, ToBe32(version)) && Has(h, 20, ToBe32(bits)) && Has(h, 24, ToBe64(size))
    && Has(h, 36, ToBe32(l1Size)) && Has(h, 40, ToBe64(l1Offset))
  }

  /** Such a file is accepted exactly when its fields are in range, its features are supported and
      the header and the L1 table can be read, and the image has just these fields. */
  lemma HeaderIsRead(h: Host, img: Image, magic: nat, version: nat, bits: nat, size: U64, l1Size: nat, l1Offset: U64)
    requires HeaderWritten(h, magic, version, bits, size, l1Size, l1Offset)
    ensures HeaderOk(h) <==>
            && Readable(h, 0, 72) && magic == QCOW2_MAGIC && (version == 2 || version == 3) && 9 <= bits <= 30
            && !Unsupported(Features(h)) && Readable(h, l1Offset, l1Size * 8)
    ensures OpenedAs(h, img) ==>
              && img.clusterBits == bits && img.virtualSize == size && |img.l1| == l1Size
              && forall i | 0 <= i < l1Size :: img.l1[i] == StoredWord(h, l1Offset + i * 8)
  {
    hide Has, ToBe32, ToBe64, Stored32, StoredWord, Readable, Features, Image.Valid;
    Stored32AsWritten(h, 0, magic);
    Stored32AsWritten(h, 4, version);
    Stored32AsWritten(h, 20, bits);
    StoredAsWritten(h, 24, size);
    Stored32AsWritten(h, 36, l1Size);
    StoredAsWritten(h, 40, l1Offset);
  }

  // ----- where a guest offset is looked up

  /** Byte `k` of the cluster behind entry `j` of the L2 table of L1 entry `i`. */
  function GuestOffset(img: Image, i: nat, j: nat, k: nat): nat {
    NatProduct(i, img.l2Size);
    NatProduct(i * img.l2Size + j, img.clusterSize);
    (i * img.l2Size + j) * img.clusterSize + k
  }

  lemma FoundThere(img: Image, i: nat, j: nat, k: nat)
    requires img.Valid() && j < img.l2Size && k < img.clusterSize
    ensures var o := GuestOffset(img, i, j, k);
            && img.L1Index(img.ClusterOf(o)) == i && img.L2Index(img.ClusterOf(o)) == j && img.InCluster(o) == k
  {
    hide Quot, Rem, Image.Valid;
    NatProduct(i, img.l2Size);
    DivMod(i * img.l2Size + j, img.clusterSize, k);
    DivMod(i, img.l2Size, j);
  }

  /** Every guest offset has one such place. */
  lemma EveryOffset(img: Image, o: nat)
    requires img.Valid()
    ensures var c := img.ClusterOf(o); o == GuestOffset(img, img.L1Index(c), img.L2Index(c), img.InCluster(o))
  {
    QuotRem(o, img.clusterSize);
    QuotRem(img.ClusterOf(o), img.l2Size);
    hide Quot, Rem, Image.Valid;
  }

  // ----- what was written is read

  /** A place for a descriptor: entry `j` of the L2 table at `table`, to which entry `i` of the L1
      table leads, with `top` and `low` in the other bits of the L1 word. */
  datatype Place = Place(i: nat, j: nat, top: nat, table: nat, low: nat)

  predicate IsPlace(img: Image, p: Place) {
    && p.i < |img.l1| && p.j < img.l2Size
    && p.top < 256 && 0 < p.table < TWO_56 && p.table % 512 == 0 && p.low < 512
  }

  /** The file was opened as `img`, has the L1 word of the place, a table there that can be read,
      and in it the descriptor `e`. */
  predicate Written(h: Host, img: Image, p: Place, e: U64)
    requires IsPlace(img, p)
  {
    && OpenedAs(h, img)
    && Has(h, StoredWord(h, 40) + p.i * 8, ToBe64(Word(p.top, p.table, p.low)))
    && Readable(h, p.table, img.clusterSize)
    && Has(h, EntryPlace(img, p.table, p.j), ToBe64(e))
  }

  function EntryPlace(img: Image, table: nat, j: nat): nat {
    NatProduct(j, img.EntrySize());
    table + j * img.EntrySize()
  }

  function OffsetAt(img: Image, p: Place, k: nat): nat {
    GuestOffset(img, p.i, p.j, k)
  }

  lemma L1Read(h: Host, img: Image, p: Place, e: U64)
    requires IsPlace(img, p) && Written(h, img, p, e)
    ensures img.l1[p.i] != 0 && OffsetBits(img.l1[p.i]) == p.table
  {
    OffsetField(p.top, p.table, p.low);
    assert Word(p.top, p.table, p.low) != 0;
    hide Word, ToBe64, OffsetBits, Has, StoredWord, Readable;
    StoredAsWritten(h, StoredWord(h, 40) + p.i * 8, Word(p.top, p.table, p.low));
  }

  lemma L2Read(h: Host, img: Image, p: Place, e: U64)
    requires img.Valid() && IsPlace(img, p) && Written(h, img, p, e)
    ensures L2Table(img, p.table)[p.j] == e
  {
    assert img.l2Size * img.EntrySize() == img.clusterSize;
    hide Word, ToBe64, Has, StoredWord, L2Table, Image.Valid;
    StoredAsWritten(h, EntryPlace(img, p.table, p.j), e);
    EntryAsRead(img, p.table, p.j);
  }

  /** The reader uses the descriptor that was written. */
  lemma EntryRead(h: Host, img: Image, p: Place, k: nat, e: U64)
    requires img.Valid() && IsPlace(img, p) && Written(h, img, p, e) && k < img.clusterSize
    ensures SeenEntry(img, OffsetAt(img, p, k)) == e
    ensures img.InCluster(OffsetAt(img, p, k)) == k
  {
    L1Read(h, img, p, e);
    L2Read(h, img, p, e);
    hide Written, L2Table, OffsetBits, GuestOffset, Image.Valid;
    FoundThere(img, p.i, p.j, k);
    hide Quot, Rem;
  }

  /** The descriptor of a plain cluster at the host offset `off`. */
  function NormalWord(copied: bool, off: nat): U64
    requires off < TWO_56 && off % 512 == 0
  {
    Word(if copied then 128 else 0, off, 0)
  }

  lemma NormalClass(img: Image, copied: bool, off: nat)
    requires img.Valid() && off < TWO_56 && off % 512 == 0 && (off != 0 || copied)
    ensures Classify(img, NormalWord(copied, off)) == Normal(off)
  {
    OffsetField(if copied then 128 else 0, off, 0);
    var c := if copied then 1 else 0;
    FlagFields(c, 0, off);
    assert NormalWord(copied, off) == c * (2 * TWO_62) + 0 * TWO_62 + off;
    assert NormalWord(copied, off) != 0;
    hide OffsetBits, CompressedFlag, CopiedFlag, ZeroFlag, Image.Valid, Word, NormalWord;
    assert off % 2 == 0;
  }

  /** Main theorem on plain clusters. A descriptor written for the host offset `off`, on any
      512-byte boundary below 2^56, is read at `off`: byte `k` of the guest cluster is byte `off + k`
      of the file. */
  lemma NormalIsRead(h: Host, img: Image, p: Place, k: nat, off: nat, copied: bool)
    requires img.Valid() && IsPlace(img, p) && k < img.clusterSize
    requires off < TWO_56 && off % 512 == 0 && (off != 0 || copied)
    requires Written(h, img, p, NormalWord(copied, off))
    ensures var o := OffsetAt(img, p, k);
            && SeenCluster(img, o) == Normal(off)
            && (off + k < |h.data| && off + k !in h.bad ==> SeenByte(img, o) == Some(h.data[off + k]))
  {
    hide SeenEntry, OffsetAt, Classify, NormalWord, Image.Valid, Rem, StoredWord, ToBe64, Word;
    EntryRead(h, img, p, k, NormalWord(copied, off));
    NormalClass(img, copied, off);
    assert img.host == h;
    hide Written, IsPlace;
  }

  /** The descriptor of a cluster that reads as zeros. */
  function ZeroWord(copied: bool, off: nat): U64
    requires off < TWO_56 && off % 512 == 0
  {
    Word(if copied then 128 else 0, off, 1)
  }

  lemma ZeroWordFields(copied: bool, off: nat)
    requires off < TWO_56 && off % 512 == 0
    ensures var e := ZeroWord(copied, off); e != 0 && !CompressedFlag(e) && ZeroFlag(e)
  {
    var e, c := ZeroWord(copied, off), if copied then 2 else 0;
    var q := off / 512;
    assert e == c * TWO_62 + (512 * q + 1);
    hide Word, ZeroWord;
    Split(512 * q + 1, TWO_62, c);
    Split(1, 2, c * (TWO_62 / 2) + 256 * q);
  }

  lemma ZeroClass(img: Image, copied: bool, off: nat)
    requires img.Valid() && !img.extended && off < TWO_56 && off % 512 == 0
    ensures Classify(img, ZeroWord(copied, off)) == Zero
  {
    ZeroWordFields(copied, off);
    hide CompressedFlag, ZeroFlag, Image.Valid, ZeroWord, OffsetBits;
  }

  /** A descriptor with the zero flag, in a standard table, reads as zeros. */
  lemma ZeroIsRead(h: Host, img: Image, p: Place, k: nat, off: nat, copied: bool)
    requires img.Valid() && IsPlace(img, p) && !img.extended && k < img.clusterSize && off < TWO_56 && off % 512 == 0
    requires Written(h, img, p, ZeroWord(copied, off))
    ensures SeenByte(img, OffsetAt(img, p, k)) == Some(0)
  {
    EntryRead(h, img, p, k, ZeroWord(copied, off));
    ZeroClass(img, copied, off);
    hide SeenEntry, OffsetAt, Written, ZeroWord, Classify, Image.Valid, Rem;
  }

  lemma TopBits(cb: nat, off: nat, sectors: nat, copied: bool)
    requires 9 <= cb <= 30 && off < Pow2(70 - cb) && 1 <= sectors <= Pow2(cb - 8)
    ensures var e := EncodeCompressed(cb, off, sectors, if copied then 3 else 1);
            0 < e < 4 * TWO_62 && CompressedFlag(e)
  {
    var b, s := Pow2(cb - 8), Pow2(70 - cb);
    var top := if copied then 3 else 1;
    FieldsFill62Bits(cb);
    Distribute(top, b, sectors - 1, s);
    hide Pow2;
    var rest: nat := (sectors - 1) * s + off;
    assert EncodeCompressed(cb, off, sectors, top) == top * TWO_62 + rest && rest < TWO_62;
    FlagFields(top / 2, 1, rest);
  }

  /** The descriptor of a compressed cluster. */
  function CompressedWord(cb: nat, off: nat, sectors: nat, copied: bool): U64
    requires 9 <= cb <= 30 && off < Pow2(70 - cb) && 1 <= sectors <= Pow2(cb - 8)
  {
    TopBits(cb, off, sectors, copied);
    EncodeCompressed(cb, off, sectors, if copied then 3 else 1)
  }

  /** From an offset to the end of the last of its sectors. */
  function RangeSize(off: nat, sectors: nat): nat
    requires sectors > 0
  {
    sectors * 512 - off % 512
  }

  lemma CompressedClass(img: Image, off: nat, sectors: nat, copied: bool)
    requires img.Valid() && off < Pow2(70 - img.clusterBits) && 1 <= sectors <= Pow2(img.clusterBits - 8)
    ensures Classify(img, CompressedWord(img.clusterBits, off, sectors, copied)) ==
            Compressed(off, RangeSize(off, sectors))
  {
    TopBits(img.clusterBits, off, sectors, copied);
    DecodeEncode(img.clusterBits, off, sectors, if copied then 3 else 1);
    hide EncodeCompressed, CompressedOffset, CompressedSectors, CompressedFlag, Pow2;
  }

  /** The range can be read and inflates to `data`. */
  predicate InflatesTo(img: Image, off: nat, size: nat, data: seq<Byte>) {
    && off + size <= |img.host.data| && Readable(img.host, off, size)
    && img.inflate(img.host.data[off..off + size]) == Some(data)
  }

  /** Byte `k` of a cluster of `size` bytes made of `data`, zero past its end. */
  function DataByte(data: seq<Byte>, size: nat, k: nat): Option<Byte> {
    if |data| > size then None else if k < |data| then Some(data[k]) else Some(0)
  }

  lemma InflatedAt(img: Image, off: nat, size: nat, k: nat, data: seq<Byte>)
    requires img.Valid() && k < img.clusterSize && InflatesTo(img, off, size, data)
    ensures ByteAt(img, Compressed(off, size), k) == DataByte(data, img.clusterSize, k)
  {
    assert Pread(img.host, off, size).value == img.host.data[off..off + size];
    hide Pread, Readable, Image.Valid;
  }

  lemma CompressedSeen(h: Host, img: Image, p: Place, k: nat, off: nat, sectors: nat, copied: bool)
    requires img.Valid() && IsPlace(img, p) && k < img.clusterSize
    requires off < Pow2(70 - img.clusterBits) && 1 <= sectors <= Pow2(img.clusterBits - 8)
    requires Written(h, img, p, CompressedWord(img.clusterBits, off, sectors, copied))
    ensures SeenCluster(img, OffsetAt(img, p, k)) == Compressed(off, RangeSize(off, sectors))
    ensures img.InCluster(OffsetAt(img, p, k)) == k
  {
    hide SeenEntry, OffsetAt, Classify, CompressedWord, Written;
    EntryRead(h, img, p, k, CompressedWord(img.clusterBits, off, sectors, copied));
    CompressedClass(img, off, sectors, copied);
    hide Image.Valid, Rem;
  }

  /** Main theorem on compressed clusters. A descriptor written for `sectors` sectors from the host
      offset `off` on is read as the bytes from there to the end of the last sector, and the
      guest's byte is that of the data they inflate to, zero past its end. */
  lemma CompressedIsRead(h: Host, img: Image, p: Place, k: nat, off: nat, sectors: nat, copied: bool, data: seq<Byte>)
    requires img.Valid() && IsPlace(img, p) && k < img.clusterSize
    requires off < Pow2(70 - img.clusterBits) && 1 <= sectors <= Pow2(img.clusterBits - 8)
    requires Written(h, img, p, CompressedWord(img.clusterBits, off, sectors, copied))
    ensures SeenCluster(img, OffsetAt(img, p, k)) == Compressed(off, RangeSize(off, sectors))
    ensures InflatesTo(img, off, RangeSize(off, sectors), data) ==>
              SeenByte(img, OffsetAt(img, p, k)) == DataByte(data, img.clusterSize, k)
  {
    hide SeenCluster, OffsetAt, RangeSize, CompressedWord, Rem, ByteAt, Written, IsPlace, InflatesTo, DataByte;
    CompressedSeen(h, img, p, k, off, sectors, copied);
    hide Image.Valid, Pow2;
    if InflatesTo(img, off, RangeSize(off, sectors), data) {
      InflatedAt(img, off, RangeSize(off, sectors), k, data);
    }
  }
}
