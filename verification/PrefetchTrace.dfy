/** The prefetch trace file: dumping the recorded reads and reloading them.

The file is a 24-byte header (magic, size of the records, checksum) and one 24-byte record
for each read, both as the structs lie in memory on a little-endian machine, padding
included. The checksum step is a parameter.
 */
module PrefetchTrace {

  type Byte = x: nat | x < 256
  type U32 = x: nat | x < 0x1_0000_0000
  type U64 = x: nat | x < 0x1_0000_0000_0000_0000
  type Bytes = seq<Byte>
  type Crc = (Bytes, U32) -> U32

  const TRACE_MAGIC: U32 := 3270449184
  const SIZE := 24

  // ----- little-endian words

  function Pow256(k: nat): nat {
    if k == 0 then 1 else 256 * Pow256(k - 1)
  }

  function Le(n: nat, k: nat): (r: Bytes)
    ensures |r| == k
  {
    if k == 0 then [] else [n % 256] + Le(n / 256, k - 1)
  }

  function FromLe(b: Bytes): nat {
    if b == [] then 0 else b[0] + 256 * FromLe(b[1..])
  }

  lemma {:induction false} LeRoundTrip(n: nat, k: nat)
    requires n < Pow256(k)
    ensures FromLe(Le(n, k)) == n
  {
    if k > 0 {
      LeRoundTrip(n / 256, k - 1);
      assert Le(n, k)[1..] == Le(n / 256, k - 1);
    }
  }

  lemma {:induction false} FromLeBelow(b: Bytes)
    ensures FromLe(b) < Pow256(|b|)
  {
    if b != [] {
      FromLeBelow(b[1..]);
    }
  }

  lemma {:induction false} LeOfFromLe(b: Bytes)
    ensures Le(FromLe(b), |b|) == b
  {
    if b != [] {
      LeOfFromLe(b[1..]);
      assert FromLe(b) % 256 == b[0] && FromLe(b) / 256 == FromLe(b[1..]);
    }
  }

  lemma Words()
    ensures Pow256(1) == 256 && Pow256(4) == 0x1_0000_0000 && Pow256(8) == 0x1_0000_0000_0000_0000
  {
    assert Pow256(2) == 65536;
    assert Pow256(4) == 65536 * Pow256(2);
    assert Pow256(6) == 65536 * Pow256(4);
  }

  function Word32(b: Bytes): U32
    requires |b| == 4
  {
    FromLeBelow(b); Words();
    FromLe(b)
  }

  function Word64(b: Bytes): U64
    requires |b| == 8
  {
    FromLeBelow(b); Words();
    FromLe(b)
  }

  // ----- records and header

  /** A recorded read; `offset` is the 64-bit pattern of the file offset and `pad` what the
      three unused bytes of the struct hold. */
  datatype Record = Record(op: Byte, pad: Bytes, layer: U32, count: U64, offset: U64)

  predicate WellFormed(r: Record) {
    |r.pad| == 3
  }

  function EncodeRecord(r: Record): (b: Bytes)
    requires WellFormed(r)
    ensures |b| == SIZE
  {
    [r.op] + r.pad + Le(r.layer, 4) + Le(r.count, 8) + Le(r.offset, 8)
  }

  function DecodeRecord(b: Bytes): (r: Record)
    requires |b| == SIZE
    ensures WellFormed(r)
  {
    Record(b[0], b[1..4], Word32(b[4..8]), Word64(b[8..16]), Word64(b[16..24]))
  }

  lemma RecordRoundTrip(r: Record)
    requires WellFormed(r)
    ensures DecodeRecord(EncodeRecord(r)) == r
  {
    var b := EncodeRecord(r);
    Words();
    LeRoundTrip(r.layer, 4);
    LeRoundTrip(r.count, 8);
    LeRoundTrip(r.offset, 8);
    hide Le, FromLe, Pow256;
    assert b[1..4] == r.pad;
    assert b[4..8] == Le(r.layer, 4);
    assert b[8..16] == Le(r.count, 8);
    var a := [r.op] + r.pad + Le(r.layer, 4) + Le(r.count, 8);
    assert |a| == 16 && b == a + Le(r.offset, 8);
    assert b[16..24] == b[16..];
  }

  /** The five fields of a record, laid end to end, are its bytes. */
  lemma Fields(b: Bytes)
    requires |b| == SIZE
    ensures [b[0]] + b[1..4] + b[4..8] + b[8..16] + b[16..24] == b
  {
    assert [b[0]] + b[1..4] == b[..4];
    assert b[..4] + b[4..8] == b[..8];
    assert b[..8] + b[8..16] == b[..16];
    assert b[..16] + b[16..24] == b;
  }

  lemma BytesRoundTrip(b: Bytes)
    requires |b| == SIZE
    ensures EncodeRecord(DecodeRecord(b)) == b
  {
    hide Le, FromLe;
    LeOfFromLe(b[4..8]);
    LeOfFromLe(b[8..16]);
    LeOfFromLe(b[16..24]);
    Fields(b);
  }

  datatype Header = Header(magic: U32, dataSize: U64, checksum: U32)

  function EncodeHeader(h: Header): (b: Bytes)
    ensures |b| == SIZE
  {
    Le(h.magic, 4) + Le(0, 4) + Le(h.dataSize, 8) + Le(h.checksum, 4) + Le(0, 4)
  }

  function DecodeHeader(b: Bytes): Header
    requires |b| == SIZE
  {
    Header(Word32(b[0..4]), Word64(b[8..16]), Word32(b[16..20]))
  }

  lemma HeaderRoundTrip(h: Header)
    ensures DecodeHeader(EncodeHeader(h)) == h
  {
    hide Le, FromLe, Pow256;
    var b := EncodeHeader(h);
    Words();
    LeRoundTrip(h.magic, 4);
    LeRoundTrip(h.dataSize, 8);
    LeRoundTrip(h.checksum, 4);
    assert b[0..4] == Le(h.magic, 4);
    assert b[8..16] == Le(h.dataSize, 8);
    assert b[16..20] == Le(h.checksum, 4);
  }

  // ----- the whole trace

  predicate AllWellFormed(rs: seq<Record>) {
    forall k | 0 <= k < |rs| :: WellFormed(rs[k])
  }

  function EncodeAll(rs: seq<Record>): (b: Bytes)
    requires AllWellFormed(rs)
    ensures |b| == SIZE * |rs|
  {
    if rs == [] then [] else EncodeAll(rs[..|rs| - 1]) + EncodeRecord(rs[|rs| - 1])
  }

  function Checksum(crc: Crc, rs: seq<Record>): U32
    requires AllWellFormed(rs)
  {
    if rs == [] then 0 else crc(EncodeRecord(rs[|rs| - 1]), Checksum(crc, rs[..|rs| - 1]))
  }

  /** The first `n` records after the header. */
  function DecodeAll(b: Bytes, n: nat): (rs: seq<Record>)
    requires SIZE + SIZE * n <= |b|
    ensures |rs| == n && AllWellFormed(rs)
  {
    if n == 0 then [] else DecodeAll(b, n - 1) + [DecodeRecord(b[SIZE * n..SIZE * n + SIZE])]
  }

  function Trace(crc: Crc, rs: seq<Record>): Bytes
    requires AllWellFormed(rs) && SIZE * |rs| < 0x1_0000_0000_0000_0000
  {
    EncodeHeader(Header(TRACE_MAGIC, SIZE * |rs|, Checksum(crc, rs))) + EncodeAll(rs)
  }

  lemma {:induction false} DecodeEncodeAll(h: Bytes, rs: seq<Record>, rest: Bytes)
    requires AllWellFormed(rs) && |h| == SIZE
    ensures DecodeAll(h + EncodeAll(rs) + rest, |rs|) == rs
  {
    hide EncodeRecord, DecodeRecord, WellFormed;
    if rs != [] {
      var p, r := rs[..|rs| - 1], rs[|rs| - 1];
      var e := EncodeRecord(r);
      Regrouped(h, EncodeAll(p), e, rest);
      DecodeEncodeAll(h, p, e + rest);
      RecordRoundTrip(r);
      assert rs == p + [r];
    }
  }

  /** The bytes after the first two parts are the third. */
  lemma Regrouped(h: Bytes, a: Bytes, e: Bytes, rest: Bytes)
    ensures h + (a + e) + rest == h + a + (e + rest)
    ensures (h + (a + e) + rest)[|h| + |a|..|h| + |a| + |e|] == e
  {
    var b := h + (a + e) + rest;
    assert b == (h + a) + e + rest;
  }

  /** The header is there, has the magic and gives the size of the rest. */
  predicate HeaderFits(b: Bytes) {
    |b| >= SIZE && DecodeHeader(b[..SIZE]).magic == TRACE_MAGIC && |b| == DecodeHeader(b[..SIZE]).dataSize + SIZE
  }

  function Content(b: Bytes): (rs: seq<Record>)
    requires HeaderFits(b)
    ensures AllWellFormed(rs)
  {
    DecodeAll(b, DecodeHeader(b[..SIZE]).dataSize / SIZE)
  }

  predicate Accepts(crc: Crc, b: Bytes) {
    HeaderFits(b) && Checksum(crc, Content(b)) == DecodeHeader(b[..SIZE]).checksum
  }

  /** A trace is accepted and holds exactly the records it was made of. */
  lemma TraceRoundTrip(crc: Crc, rs: seq<Record>)
    requires AllWellFormed(rs) && SIZE * |rs| < 0x1_0000_0000_0000_0000
    ensures Accepts(crc, Trace(crc, rs)) && Content(Trace(crc, rs)) == rs
  {
    var h := Header(TRACE_MAGIC, SIZE * |rs|, Checksum(crc, rs));
    var t := Trace(crc, rs);
    HeadOf(EncodeHeader(h), EncodeAll(rs));
    HeaderRoundTrip(h);
    DecodeEncodeAll(EncodeHeader(h), rs, []);
    assert EncodeHeader(h) + EncodeAll(rs) + [] == t;
    assert |t| == SIZE + SIZE * |rs|;
    hide Trace, EncodeHeader, DecodeHeader, EncodeAll, DecodeAll, Checksum;
    assert DecodeHeader(t[..SIZE]) == h;
    assert SIZE * |rs| / SIZE == |rs|;
  }

  lemma HeadOf(h: Bytes, b: Bytes)
    requires |h| == SIZE
    ensures (h + b)[..SIZE] == h
  {
  }

  lemma {:induction false} ContentPrefix(b: Bytes, i: nat, n: nat)
    requires i <= n && SIZE + SIZE * n <= |b|
    ensures DecodeAll(b, i) <= DecodeAll(b, n)
  {
    hide DecodeRecord;
    if i < n {
      ContentPrefix(b, i, n - 1);
    }
  }

  lemma NothingRead(crc: Crc, b: Bytes)
    requires SIZE <= |b|
    ensures DecodeAll(b, 0) == [] && Checksum(crc, []) == 0
  {
  }

  /** One more record is one more step of the checksum over the bytes as they stand. */
  lemma ReadOneMore(crc: Crc, b: Bytes, i: nat)
    requires SIZE + SIZE * (i + 1) <= |b|
    ensures var e := b[SIZE * (i + 1)..SIZE * (i + 1) + SIZE];
            && DecodeAll(b, i + 1) == DecodeAll(b, i) + [DecodeRecord(e)]
            && Checksum(crc, DecodeAll(b, i + 1)) == crc(e, Checksum(crc, DecodeAll(b, i)))
  {
    hide DecodeRecord, EncodeRecord;
    var e := b[SIZE * (i + 1)..SIZE * (i + 1) + SIZE];
    BytesRoundTrip(e);
    var rs := DecodeAll(b, i + 1);
    assert rs[..|rs| - 1] == DecodeAll(b, i);
  }

  // ----- files

  /** The trace file and its position; every call may fail or come back short, and `faults` counts
      how often one did that need not have. */
  class TraceFile {
    var bytes: Bytes
    var pos: nat
    ghost var faults: nat

    constructor ()
      ensures bytes == [] && pos == 0 && faults == 0
    {
      bytes, pos, faults := [], 0, 0;
    }

    /** Appends at the end of the file. */
    method Write(b: Bytes) returns (n: nat)
      requires pos == |bytes|
      modifies this
      ensures n <= |b| && bytes == old(bytes) + b[..n] && pos == |bytes|
      ensures faults == old(faults) + (if n < |b| then 1 else 0)
    {
      var k: int := *;
      n := if 0 <= k <= |b| then k else 0;
      bytes, pos := bytes + b[..n], pos + n;
      faults := faults + if n < |b| then 1 else 0;
    }

    method Rewrite(b: Bytes) returns (n: nat)
      requires |b| <= |bytes|
      modifies this
      ensures n <= |b| && bytes == b[..n] + old(bytes)[n..] && pos == old(pos)
      ensures faults == old(faults) + (if n < |b| then 1 else 0)
    {
      var k: int := *;
      n := if 0 <= k <= |b| then k else 0;
      bytes := b[..n] + bytes[n..];
      faults := faults + if n < |b| then 1 else 0;
    }

    method Clear()
      modifies this`bytes
      ensures bytes == []
    {
      bytes := [];
    }

    method Reopen()
      modifies this`pos
      ensures pos == 0
    {
      pos := 0;
    }

    /** `count` bytes at the position, or fewer at the end of the file or on failure. */
    method Read(count: nat) returns (b: Bytes)
      requires count > 0
      modifies this`pos, this`faults
      ensures |b| <= count && pos == old(pos) + |b|
      ensures |b| == count ==> old(pos) + count <= |bytes| && b == bytes[old(pos)..old(pos) + count]
      ensures faults == old(faults) + (if |b| < count && old(pos) + count <= |bytes| then 1 else 0)
    {
      var short: bool := *;
      if short || pos + count > |bytes| {
        faults := faults + if pos + count <= |bytes| then 1 else 0;
        return [];
      }
      b := bytes[pos..pos + count];
      pos := pos + count;
    }
  }

  class Prefetcher {
    const crc: Crc
    var records: seq<Record>
    var queue: seq<Record>
    var file: TraceFile?
    ghost var dumps: nat       // how often a trace was written out

    constructor (crc: Crc, file: TraceFile?)
      ensures this.crc == crc && this.file == file && records == [] && queue == [] && dumps == 0
    {
      this.crc, this.file, records, queue, dumps := crc, file, [], [], 0;
    }

    /** Write the trace once: without a failing write the file is the trace of the records,
        otherwise it is empty; either way it is closed and a second dump does nothing. `marker` is
        whether the marker file can be made as well. */
    method Dump(marker: bool) returns (r: int)
      requires AllWellFormed(records) && SIZE * |records| < 0x1_0000_0000_0000_0000
      requires file != null ==> file.bytes == [] && file.pos == 0
      modifies `file, `dumps, file
      ensures file == null
      ensures old(file) == null ==> r == 0 && dumps == old(dumps)
      ensures old(file) != null ==>
                var f := old(file);
                var written := f.faults == old(f.faults);
                && dumps == old(dumps) + 1 && f.faults >= old(f.faults)
                && f.bytes == (if written then Trace(crc, records) else [])
                && r == if written && marker then 0 else -1
    {
      if file == null {
        return 0;
      }
      var f := file;
      file, dumps := null, dumps + 1;
      var ok := WriteTrace(f, crc, records);
      r := if ok && marker then 0 else -1;
    }

    /** Reload: accepted exactly when no read fails, the header fits and the checksum is that of
        the records, and then the queue is those records; a refused trace leaves the queue
        empty, except that a failing read leaves the records read before it. */
    method Reload(f: TraceFile) returns (r: int)
      requires queue == [] && f.pos == 0
      modifies `queue, f`pos, f`faults
      ensures r == if Accepts(crc, f.bytes) && f.faults == old(f.faults) then 0 else -1
      ensures r == 0 ==> queue == Content(f.bytes)
      ensures r != 0 && f.faults == old(f.faults) ==> queue == []
      ensures r != 0 ==> queue == [] || (HeaderFits(f.bytes) && queue <= Content(f.bytes))
      ensures f.faults >= old(f.faults)
    {
      hide DecodeHeader, DecodeRecord, DecodeAll, Checksum;
      var b := f.Read(SIZE);
      if |b| != SIZE {
        return -1;
      }
      var hdr := DecodeHeader(b);
      if hdr.magic != TRACE_MAGIC || |f.bytes| != hdr.dataSize + SIZE {
        return -1;
      }
      var checksum: U32 := 0;
      var n := hdr.dataSize / SIZE;
      NothingRead(crc, f.bytes);
      for i := 0 to n
        invariant f.pos == SIZE + SIZE * i <= |f.bytes| && f.faults == old(f.faults)
        invariant queue == DecodeAll(f.bytes, i) && checksum == Checksum(crc, queue)
      {
        ContentPrefix(f.bytes, i, n);
        b := f.Read(SIZE);
        if |b| != SIZE {
          return -1;
        }
        ReadOneMore(crc, f.bytes, i);
        checksum := crc(b, checksum);
        queue := queue + [DecodeRecord(b)];
      }
      if checksum != hdr.checksum {
        queue := [];
        return -1;
      }
      r := 0;
    }
  }

  /** Header without checksum, the records, then the header again. */
  method WriteTrace(f: TraceFile, crc: Crc, records: seq<Record>) returns (ok: bool)
    requires AllWellFormed(records) && SIZE * |records| < 0x1_0000_0000_0000_0000
    requires f.bytes == [] && f.pos == 0
    modifies f
    ensures f.bytes == (if ok then Trace(crc, records) else []) && f.faults >= old(f.faults)
    ensures ok <==> f.faults == old(f.faults)
  {
    hide EncodeHeader, EncodeRecord;
    var hdr := Header(TRACE_MAGIC, SIZE * |records|, 0);
    var n := f.Write(EncodeHeader(hdr));
    if n != SIZE {
      f.Clear();
      return false;
    }
    for k := 0 to |records|
      invariant f.faults == old(f.faults)
      invariant f.pos == |f.bytes| && f.bytes == EncodeHeader(hdr.(checksum := 0)) + EncodeAll(records[..k])
      invariant hdr == Header(TRACE_MAGIC, SIZE * |records|, Checksum(crc, records[..k]))
    {
      assert records[..k + 1][..k] == records[..k] && records[..k + 1][k] == records[k];
      hdr := hdr.(checksum := crc(EncodeRecord(records[k]), hdr.checksum));
      n := f.Write(EncodeRecord(records[k]));
      if n != SIZE {
        f.Clear();
        return false;
      }
    }
    assert records[..|records|] == records;
    n := f.Rewrite(EncodeHeader(hdr));
    if n != SIZE {
      f.Clear();
      return false;
    }
    ok := true;
  }

  /** A successful dump, opened again, reloads to exactly the recorded sequence unless a read
      fails; without any failure both succeed. */
  method DumpAndReload(crc: Crc, records: seq<Record>, f: TraceFile, marker: bool)
    returns (dumped: int, reloaded: int, queue: seq<Record>)
    requires AllWellFormed(records) && SIZE * |records| < 0x1_0000_0000_0000_0000
    requires f.bytes == [] && f.pos == 0
    modifies f
    ensures dumped == 0 && reloaded == 0 ==> queue == records
    ensures f.faults == old(f.faults) && marker ==> dumped == 0 && reloaded == 0
  {
    hide Trace, Accepts, Content;
    var recorder := new Prefetcher(crc, f);
    recorder.records := records;
    dumped := recorder.Dump(marker);
    f.Reopen();
    var replayer := new Prefetcher(crc, null);
    reloaded := replayer.Reload(f);
    queue := replayer.queue;
    TraceRoundTrip(crc, records);
  }
}
