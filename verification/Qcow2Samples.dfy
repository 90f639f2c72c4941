/** QCOW2 images that `open` accepts and that the reader or the converter gets wrong. */
module Qcow2Samples {
  import opened Collections
  import opened Runs
  import opened Qcow2Format
  import opened Qcow2Reading
  import opened Qcow2Convert

  /** A version 2 image with 512-byte clusters and a disk of 2^48 bytes: the L1 table with one
      entry at 512, the L2 table at 1024, and a data cluster at 1536 that begins with 7 behind
      guest cluster 0. All other clusters are unallocated. */
  function SampleByte(i: int, backing: Byte, crypt: Byte): Byte {
    if i == 0 then 0x51 else if i == 1 then 0x46 else if i == 2 then 0x49 else if i == 3 then 0xfb
    else if i == 7 then 2 else if i == 15 then backing else if i == 23 then 9 else if i == 25 then 1
    else if i == 35 then crypt else if i == 39 then 1 else if i == 46 then 2
    else if i == 518 then 4 else if i == 1030 then 6 else if i == 1536 then 7 else 0
  }

  function SampleHost(backing: Byte, crypt: Byte): Host {
    Host(seq(2048, i => SampleByte(i, backing, crypt)), {})
  }

  function SampleImage(backing: Byte, crypt: Byte): Image {
    Image(SampleHost(backing, crypt), 9, 512, 64, false, [1024], 0x1_0000_0000_0000, _ => None)
  }

  lemma SamplePadded(b: Byte, c: Byte, off: nat, n: nat, k: nat)
    requires off + n <= 2048 && k < n
    ensures Padded(SampleHost(b, c), off, n)[k] == SampleByte(off + k, b, c)
  {
    hide SampleByte;
  }

  lemma SampleWord(b: Byte, c: Byte, off: nat, w: seq<Byte>)
    requires off + 8 <= 2048 && |w| == 8 && forall k | 0 <= k < 8 :: SampleByte(off + k, b, c) == w[k]
    ensures StoredWord(SampleHost(b, c), off) == Be64(w)
  {
    hide Be64, SampleByte, SampleHost, Padded;
    var p := Padded(SampleHost(b, c), off, 8);
    forall k | 0 <= k < 8 ensures p[k] == w[k] {
      SamplePadded(b, c, off, 8, k);
    }
    assert p == w;
  }

  lemma SampleWord32(b: Byte, c: Byte, off: nat, w: seq<Byte>)
    requires off + 4 <= 2048 && |w| == 4 && forall k | 0 <= k < 4 :: SampleByte(off + k, b, c) == w[k]
    ensures Stored32(SampleHost(b, c), off) == Be32(w)
  {
    hide Be32, SampleByte, SampleHost, Padded;
    var p := Padded(SampleHost(b, c), off, 4);
    forall k | 0 <= k < 4 ensures p[k] == w[k] {
      SamplePadded(b, c, off, 4, k);
    }
    assert p == w;
  }

  lemma SampleHeader32(b: Byte, c: Byte)
    ensures var h := SampleHost(b, c);
            && Stored32(h, 0) == QCOW2_MAGIC && Stored32(h, 4) == 2 && Stored32(h, 20) == 9
            && Stored32(h, 32) == c && Stored32(h, 36) == 1
  {
    hide Stored32, SampleHost;
    SampleWord32(b, c, 0, [0x51, 0x46, 0x49, 0xfb]);
    SampleWord32(b, c, 4, [0, 0, 0, 2]);
    SampleWord32(b, c, 20, [0, 0, 0, 9]);
    SampleWord32(b, c, 32, [0, 0, 0, c]);
    SampleWord32(b, c, 36, [0, 0, 0, 1]);
  }

  lemma SampleHeader64(b: Byte, c: Byte)
    ensures var h := SampleHost(b, c);
            && StoredWord(h, 8) == b && StoredWord(h, 24) == 0x1_0000_0000_0000 && StoredWord(h, 40) == 512
  {
    hide StoredWord, SampleHost;
    SampleWord(b, c, 8, [0, 0, 0, 0, 0, 0, 0, b]);
    SampleWord(b, c, 24, [0, 1, 0, 0, 0, 0, 0, 0]);
    SampleWord(b, c, 40, [0, 0, 0, 0, 0, 0, 2, 0]);
  }

  lemma SampleTables(b: Byte, c: Byte)
    ensures var h := SampleHost(b, c);
            StoredWord(h, 512) == 1024 && StoredWord(h, 1024) == 1536 && StoredWord(h, 1032) == 0
  {
    hide StoredWord, SampleHost;
    SampleWord(b, c, 512, [0, 0, 0, 0, 0, 0, 4, 0]);
    SampleWord(b, c, 1024, [0, 0, 0, 0, 0, 0, 6, 0]);
    SampleWord(b, c, 1032, [0, 0, 0, 0, 0, 0, 0, 0]);
  }

  lemma SampleReads(b: Byte, c: Byte)
    ensures var h := SampleHost(b, c);
            && Readable(h, 0, 72) && Readable(h, 512, 8) && Readable(h, 1024, 512) && HostByte(h, 1536) == Some(7)
  {
    var h := SampleHost(b, c);
    assert |h.data| == 2048 && h.data[1536] == SampleByte(1536, b, c);
  }

  lemma SampleFields(b: Byte, c: Byte)
    ensures var img := SampleImage(b, c);
            && img.Valid() && !img.extended && img.host == SampleHost(b, c) && img.l1 == [1024]
            && img.clusterBits == 9 && img.clusterSize == 512 && img.l2Size == 64
            && img.virtualSize == 0x1_0000_0000_0000
  {
    hide SampleHost;
    assert Pow2(9) == 512 by { assert Pow2(6) == 64; }
  }

  /** The image is one that `open` accepts, with these fields. */
  lemma SampleOpens(b: Byte, c: Byte)
    ensures HeaderOk(SampleHost(b, c)) && OpenedAs(SampleHost(b, c), SampleImage(b, c))
  {
    hide SampleHost, SampleImage, StoredWord, Stored32, Readable, Image.Valid;
    SampleFields(b, c);
    SampleHeader32(b, c);
    SampleHeader64(b, c);
    SampleTables(b, c);
    SampleReads(b, c);
  }

  // ----- what the sample holds

  /** Entry `j` of the only L2 table is that of the guest offset `512 * j`. */
  lemma SampleAt(img: Image, j: nat, o: nat)
    requires img.Valid() && img.clusterSize == 512 && img.l2Size == 64 && img.l1 == [1024] && j < 64 && o == 512 * j
    ensures img.InCluster(o) == 0 && img.L2Index(img.ClusterOf(o)) == j && L1Word(img, o) == 1024
  {
    DivMod(j, img.clusterSize, 0);
    DivMod(0, img.l2Size, j);
    hide Quot, Rem, Image.Valid;
  }

  lemma SampleEntry(b: Byte, c: Byte, j: nat, o: nat, e: U64)
    requires j < 2 && o == 512 * j && e == if j == 0 then 1536 else 0
    ensures var img := SampleImage(b, c);
            && img.Valid() && !img.extended && ReservedClear(img, o) && TableReadable(img, o)
            && StoredEntry(img, o) == SeenEntry(img, o) == e && img.InCluster(o) == 0
  {
    var img := SampleImage(b, c);
    hide SampleHost, SampleImage, StoredWord, Stored32, Readable, SeenEntry, L1Word, Image.Valid, Quot, Rem;
    SampleFields(b, c);
    SampleTables(b, c);
    SampleReads(b, c);
    SampleAt(img, j, o);
    assert OffsetBits(1024) == 1024 && OffsetBits(1536) == 1536;
    assert StoredEntry(img, o) == e;
    SeenIsStored(img, o);
  }

  lemma DataCluster(b: Byte, c: Byte)
    ensures var img := SampleImage(b, c);
            && img.Valid() && SeenCluster(img, 0) == Normal(1536) && SeenByte(img, 0) == Some(7)
  {
    hide SampleHost, SampleImage, Readable, SeenEntry, StoredEntry, HostByte, Image.Valid, ReservedClear;
    SampleEntry(b, c, 0, 0, 1536);
    SampleFields(b, c);
    SampleReads(b, c);
    assert OffsetBits(1536) == 1536 && !CompressedFlag(1536) && !ZeroFlag(1536);
  }

  lemma EmptyCluster(b: Byte, c: Byte, o: nat)
    requires o == 512
    ensures var img := SampleImage(b, c);
            && img.Valid() && SeenCluster(img, o) == Unallocated && SeenByte(img, o) == Some(0)
  {
    hide SampleHost, SampleImage, SeenEntry, StoredEntry, Image.Valid, ReservedClear;
    SampleEntry(b, c, 1, o, 0);
  }

  // ----- what goes wrong

  /** With a backing file, whose name is at `b`, the guest sees its byte in the unallocated
      cluster; the reader sees zero, and a conversion that has dealt with the byte has left
      zero. */
  lemma BackingIsIgnored(b: Byte, out: Outside, data: seq<Byte>, o: nat)
    requires b != 0 && o == 512
    ensures HeaderOk(SampleHost(b, 0)) && OpenedAs(SampleHost(b, 0), SampleImage(b, 0))
    ensures GuestByte(SampleImage(b, 0), out, o) == Some(out.backing(o)) && SeenByte(SampleImage(b, 0), o) == Some(0)
    ensures Arrived(SampleImage(b, 0), None, data, o) ==> At(data, o) == 0
  {
    hide SampleHost, SampleImage, SeenByte, SeenEntry, StoredEntry, Image.Valid, ReservedClear, HeaderOk, StoredWord;
    SampleOpens(b, 0);
    SampleEntry(b, 0, 1, o, 0);
    SampleFields(b, 0);
    SampleHeader64(b, 0);
    EmptyCluster(b, 0, o);
    assert FormatCluster(SampleImage(b, 0), 0) == Unallocated;
  }

  /** With an encryption method in the header the guest sees the plain text; the reader and a
      conversion copy the stored byte. */
  lemma EncryptionIsIgnored(c: Byte, out: Outside, data: seq<Byte>)
    requires c != 0
    ensures HeaderOk(SampleHost(0, c)) && OpenedAs(SampleHost(0, c), SampleImage(0, c))
    ensures GuestByte(SampleImage(0, c), out, 0) == Some(out.plain(0)) && SeenByte(SampleImage(0, c), 0) == Some(7)
    ensures Arrived(SampleImage(0, c), None, data, 0) ==> At(data, 0) == 7
  {
    hide SampleHost, SampleImage, SeenByte, SeenEntry, StoredEntry, Image.Valid, ReservedClear, HeaderOk, Stored32;
    hide HostByte;
    SampleOpens(0, c);
    SampleEntry(0, c, 0, 0, 1536);
    SampleFields(0, c);
    SampleHeader32(0, c);
    SampleReads(0, c);
    DataCluster(0, c);
    assert OffsetBits(1536) == 1536 && !CompressedFlag(1536) && !ZeroFlag(1536);
    assert FormatCluster(SampleImage(0, c), 1536) == Normal(1536);
  }

  /** At 2^47, inside the disk, the guest has zero and the reader delivers the 7 of offset 0. */
  lemma WrapReadsLow(o: nat)
    requires o == 0x8000_0000_0000
    ensures var img := SampleImage(0, 0);
            && HeaderOk(img.host) && OpenedAs(img.host, img) && o < img.virtualSize
            && WrappedOffset(img, o) == 0 && SeenByte(img, 0) == Some(7) && SeenByte(img, o) == Some(0)
  {
    var img := SampleImage(0, 0);
    hide SampleHost, SampleImage, SeenByte, Image.Valid, HeaderOk, OpenedAs, Quot, Rem;
    SampleOpens(0, 0);
    SampleFields(0, 0);
    DataCluster(0, 0);
    assert Reach(img) == o;
    DivMod(1, o, 0);
    PastReach(img, o);
    BeyondTableByte(img, o, o);
  }

  // ----- a list with a cluster twice

  /** A version 2 image with clusters of 2^30 bytes, a disk of one byte, and an L1 table of 129
      empty entries at 72. */
  function LargeByte(i: int): Byte {
    if i == 0 then 0x51 else if i == 1 then 0x46 else if i == 2 then 0x49 else if i == 3 then 0xfb
    else if i == 7 then 2 else if i == 23 then 30 else if i == 31 then 1
    else if i == 39 then 129 else if i == 47 then 72 else 0
  }

  function LargeHost(): Host {
    Host(seq(1104, i => LargeByte(i)), {})
  }

  lemma LargePadded(off: nat, n: nat, k: nat)
    requires off + n <= 1104 && k < n
    ensures Padded(LargeHost(), off, n)[k] == LargeByte(off + k)
  {
    hide LargeByte;
  }

  lemma LargeWord32(off: nat, w: seq<Byte>)
    requires off + 4 <= 1104 && |w| == 4 && forall k | 0 <= k < 4 :: LargeByte(off + k) == w[k]
    ensures Stored32(LargeHost(), off) == Be32(w)
  {
    hide Be32, LargeByte, LargeHost, Padded;
    var p := Padded(LargeHost(), off, 4);
    forall k | 0 <= k < 4 ensures p[k] == w[k] {
      LargePadded(off, 4, k);
    }
    assert p == w;
  }

  lemma LargeWord(off: nat, w: seq<Byte>)
    requires off + 8 <= 1104 && |w| == 8 && forall k | 0 <= k < 8 :: LargeByte(off + k) == w[k]
    ensures StoredWord(LargeHost(), off) == Be64(w)
  {
    hide Be64, LargeByte, LargeHost, Padded;
    var p := Padded(LargeHost(), off, 8);
    forall k | 0 <= k < 8 ensures p[k] == w[k] {
      LargePadded(off, 8, k);
    }
    assert p == w;
  }

  lemma LargeHeader()
    ensures var h := LargeHost();
            && HeaderOk(h) && Stored32(h, 20) == 30 && StoredWord(h, 24) == 1 && Stored32(h, 36) == 129
            && Features(h) == 0
  {
    LargeReads();
    hide Stored32, StoredWord, LargeHost, Readable;
    LargeWord32(0, [0x51, 0x46, 0x49, 0xfb]);
    LargeWord32(4, [0, 0, 0, 2]);
    LargeWord32(20, [0, 0, 0, 30]);
    LargeWord32(36, [0, 0, 0, 129]);
    LargeWord(24, [0, 0, 0, 0, 0, 0, 0, 1]);
    LargeWord(40, [0, 0, 0, 0, 0, 0, 0, 72]);
  }

  lemma LargeReads()
    ensures Readable(LargeHost(), 0, 72) && Readable(LargeHost(), 72, 1032)
  {
    assert |LargeHost().data| == 1104;
  }

  lemma LargeWraps(img: Image)
    requires img.Valid() && img.clusterBits == 30 && !img.extended && |img.l1| == 129
    ensures !CoverageFits(img)
  {
    WrapsThere(img);
    assert WrapAt(img) == 128 by { assert Pow2(7) == 128; }
    Positive(img.l2Size, img.clusterSize);
    StrictMono(128, 129, img.l2Size * img.clusterSize);
    hide Pow2, WrapAt;
  }

  /** The file is opened, and its list of clusters is not ascending: the cluster at offset 0 is
      listed again for entry 128. */
  method ListsTwice() returns (mappings: seq<ClusterMapping>)
    ensures !Ascending(mappings)
  {
    hide LargeHost, HeaderOk, StoredWord, Stored32, CoverageFits, Image.Valid;
    LargeHeader();
    var reader := new Qcow2Reader(LargeHost(), _ => None);
    var ok := reader.Open();
    LargeWraps(reader.img);
    mappings := reader.GetClusterMappings();
  }
}
