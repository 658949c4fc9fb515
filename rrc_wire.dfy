/**
 * The wire layouts of the RRC measurement trigger: the fixed 34-byte
 * request a controller sends to a base station (`RRC_REQUEST`) and the
 * variable-length report the base station sends back (`RRC_RESPONSE`, a
 * 32-bit count followed by that many 7-byte `RRC_ENTRY` records). All
 * multi-byte fields are unsigned and big-endian. As with the parser the
 * source relies on, decoding reads what the layout needs and ignores any
 * bytes that follow.
 */
module RrcWire {
  import opened Wrappers
  import opened BigEndian

  /** Size in bytes of an encoded request. */
  const REQUEST_SIZE: nat := 34
  /** Size in bytes of the response header and of one response entry. */
  const RESPONSE_HEADER_SIZE: nat := 4
  const ENTRY_SIZE: nat := 7

  datatype DecodeError = Truncated

  /**
   * One request, field for field. Fields are unbounded integers so that a
   * value too wide for its slot can be represented; `WellFormed` says when
   * every field fits.
   */
  datatype RrcRequest = RrcRequest(
    length: int,     // u32
    msgType: int,    // u8
    version: int,    // u8
    enbId: int,      // u32
    cellId: int,     // u16
    modId: int,      // u32
    seqNo: int,      // u32
    action: int,     // u8
    dir: int,        // u8
    op: int,         // u8
    measId: int,     // u8
    rnti: int,       // u16
    earfcn: int,     // u16
    interval: int,   // u16
    maxCells: int,   // u16
    maxMeas: int)    // u16

  predicate WellFormed(r: RrcRequest) {
    FitsU32(r.length) && FitsU8(r.msgType) && FitsU8(r.version) &&
    FitsU32(r.enbId) && FitsU16(r.cellId) && FitsU32(r.modId) && FitsU32(r.seqNo) &&
    FitsU8(r.action) && FitsU8(r.dir) && FitsU8(r.op) && FitsU8(r.measId) &&
    FitsU16(r.rnti) && FitsU16(r.earfcn) && FitsU16(r.interval) &&
    FitsU16(r.maxCells) && FitsU16(r.maxMeas)
  }

  function EncodeRequest(r: RrcRequest): (b: seq<byte>)
    requires WellFormed(r)
    ensures |b| == REQUEST_SIZE
  {
    U32(r.length) + U8(r.msgType) + U8(r.version) + U32(r.enbId) + U16(r.cellId) +
    U32(r.modId) + U32(r.seqNo) + U8(r.action) + U8(r.dir) + U8(r.op) + U8(r.measId) +
    U16(r.rnti) + U16(r.earfcn) + U16(r.interval) + U16(r.maxCells) + U16(r.maxMeas)
  }

  /** Fails exactly when fewer than 34 bytes are given; what it returns always fits. */
  function DecodeRequest(b: seq<byte>): (r: Result<RrcRequest, DecodeError>)
    ensures r.Success? <==> |b| >= REQUEST_SIZE
    ensures r.Success? ==> WellFormed(r.value)
  {
    if |b| < REQUEST_SIZE then Failure(Truncated)
    else Success(RrcRequest(
      ReadU32(b, 0), ReadU8(b, 4), ReadU8(b, 5), ReadU32(b, 6), ReadU16(b, 10),
      ReadU32(b, 12), ReadU32(b, 16), ReadU8(b, 20), ReadU8(b, 21), ReadU8(b, 22),
      ReadU8(b, 23), ReadU16(b, 24), ReadU16(b, 26), ReadU16(b, 28), ReadU16(b, 30),
      ReadU16(b, 32)))
  }

  /** Each field of an encoded request sits at its fixed offset. */
  lemma EncodeRequestLayout(r: RrcRequest)
    requires WellFormed(r)
    ensures var b := EncodeRequest(r);
      b[0..4] == U32(r.length) && b[4..5] == U8(r.msgType) && b[5..6] == U8(r.version) &&
      b[6..10] == U32(r.enbId) && b[10..12] == U16(r.cellId) && b[12..16] == U32(r.modId) &&
      b[16..20] == U32(r.seqNo) && b[20..21] == U8(r.action) && b[21..22] == U8(r.dir) &&
      b[22..23] == U8(r.op) && b[23..24] == U8(r.measId) && b[24..26] == U16(r.rnti) &&
      b[26..28] == U16(r.earfcn) && b[28..30] == U16(r.interval) &&
      b[30..32] == U16(r.maxCells) && b[32..34] == U16(r.maxMeas)
  {
    var b := EncodeRequest(r);
    var p1 := U32(r.length);
    var p2 := p1 + U8(r.msgType);
    var p3 := p2 + U8(r.version);
    var p4 := p3 + U32(r.enbId);
    var p5 := p4 + U16(r.cellId);
    var p6 := p5 + U32(r.modId);
    var p7 := p6 + U32(r.seqNo);
    var p8 := p7 + U8(r.action);
    var p9 := p8 + U8(r.dir);
    var p10 := p9 + U8(r.op);
    var p11 := p10 + U8(r.measId);
    var p12 := p11 + U16(r.rnti);
    var p13 := p12 + U16(r.earfcn);
    var p14 := p13 + U16(r.interval);
    var p15 := p14 + U16(r.maxCells);
    assert b[..34] == p15 + U16(r.maxMeas);
    PeelLast(b, p15, U16(r.maxMeas));
    PeelLast(b, p14, U16(r.maxCells));
    PeelLast(b, p13, U16(r.interval));
    PeelLast(b, p12, U16(r.earfcn));
    PeelLast(b, p11, U16(r.rnti));
    PeelLast(b, p10, U8(r.measId));
    PeelLast(b, p9, U8(r.op));
    PeelLast(b, p8, U8(r.dir));
    PeelLast(b, p7, U8(r.action));
    PeelLast(b, p6, U32(r.seqNo));
    PeelLast(b, p5, U32(r.modId));
    PeelLast(b, p4, U16(r.cellId));
    PeelLast(b, p3, U32(r.enbId));
    PeelLast(b, p2, U8(r.version));
    PeelLast(b, p1, U8(r.msgType));
  }

  /** A prefix made of `p` then `x` splits into the two. */
  lemma PeelLast(b: seq<byte>, p: seq<byte>, x: seq<byte>)
    requires |p| + |x| <= |b| && b[..|p| + |x|] == p + x
    ensures b[..|p|] == p && b[|p|..|p| + |x|] == x
  {
    assert b[..|p|] == b[..|p| + |x|][..|p|];
    assert b[|p|..|p| + |x|] == b[..|p| + |x|][|p|..];
  }

  /** Decoding an encoded request gives back every field, whatever follows it. */
  lemma RequestRoundTrip(r: RrcRequest, trailing: seq<byte>)
    requires WellFormed(r)
    ensures DecodeRequest(EncodeRequest(r) + trailing) == Success(r)
  {
  }

  /** The other direction: re-encoding what was decoded gives the 34 bytes that were read. */
  lemma RequestReEncode(b: seq<byte>)
    requires |b| >= REQUEST_SIZE
    ensures EncodeRequest(DecodeRequest(b).value) == b[..REQUEST_SIZE]
  {
    var r := DecodeRequest(b).value;
    EncodeRequestLayout(r);
    U32OfRead(b, 0);
    U32OfRead(b, 6);
    U16OfRead(b, 10);
    U32OfRead(b, 12);
    U32OfRead(b, 16);
    U16OfRead(b, 24);
    U16OfRead(b, 26);
    U16OfRead(b, 28);
    U16OfRead(b, 30);
    U16OfRead(b, 32);
    var e := EncodeRequest(r);
    forall k | 0 <= k < REQUEST_SIZE ensures e[k] == b[k] {
      if k < 4 { assert e[k] == e[0..4][k]; assert b[k] == b[0..4][k]; }
      else if k < 6 { }
      else if k < 10 { assert e[k] == e[6..10][k - 6]; assert b[k] == b[6..10][k - 6]; }
      else if k < 12 { assert e[k] == e[10..12][k - 10]; assert b[k] == b[10..12][k - 10]; }
      else if k < 16 { assert e[k] == e[12..16][k - 12]; assert b[k] == b[12..16][k - 12]; }
      else if k < 20 { assert e[k] == e[16..20][k - 16]; assert b[k] == b[16..20][k - 16]; }
      else if k < 24 { }
      else if k < 26 { assert e[k] == e[24..26][k - 24]; assert b[k] == b[24..26][k - 24]; }
      else if k < 28 { assert e[k] == e[26..28][k - 26]; assert b[k] == b[26..28][k - 26]; }
      else if k < 30 { assert e[k] == e[28..30][k - 28]; assert b[k] == b[28..30][k - 28]; }
      else if k < 32 { assert e[k] == e[30..32][k - 30]; assert b[k] == b[30..32][k - 30]; }
      else { assert e[k] == e[32..34][k - 32]; assert b[k] == b[32..34][k - 32]; }
    }
  }

  // ---------------------------------------------------------------------
  // Response

  /** One measurement report entry: (u8 meas_id, u16 pci, u16 rsrp, u16 rsrq). */
  datatype RrcEntry = RrcEntry(measId: int, pci: int, rsrp: int, rsrq: int)

  /** A decoded response: the declared count and the entries that follow it. */
  datatype RrcResponse = RrcResponse(nofMeas: int, entries: seq<RrcEntry>)

  predicate EntryFits(e: RrcEntry) {
    FitsU8(e.measId) && FitsU16(e.pci) && FitsU16(e.rsrp) && FitsU16(e.rsrq)
  }

  /** The count agrees with the entries and every field fits its slot. */
  predicate ResponseWellFormed(r: RrcResponse) {
    FitsU32(r.nofMeas) && r.nofMeas == |r.entries| &&
    forall k :: 0 <= k < |r.entries| ==> EntryFits(r.entries[k])
  }

  /** Bytes a response with `n` entries occupies on the wire. */
  function ResponseSize(n: nat): nat {
    RESPONSE_HEADER_SIZE + ENTRY_SIZE * n
  }

  function EntryAt(b: seq<byte>, at: nat): (e: RrcEntry)
    requires at + ENTRY_SIZE <= |b|
    ensures EntryFits(e)
  {
    RrcEntry(ReadU8(b, at), ReadU16(b, at + 1), ReadU16(b, at + 3), ReadU16(b, at + 5))
  }

  /**
   * Reads `n` consecutive entries starting at offset `at`; fails when the
   * buffer ends before the last of them.
   */
  function DecodeEntries(b: seq<byte>, at: nat, n: nat): (r: Option<seq<RrcEntry>>)
    requires at <= |b|
    ensures r.Some? <==> at + ENTRY_SIZE * n <= |b|
    ensures r.Some? ==> (|r.value| == n &&
      forall k :: 0 <= k < n ==> r.value[k] == EntryAt(b, at + ENTRY_SIZE * k))
    decreases n
  {
    if n == 0 then Some([])
    else if at + ENTRY_SIZE > |b| then None
    else match DecodeEntries(b, at + ENTRY_SIZE, n - 1)
      case None => None
      case Some(rest) => Some([EntryAt(b, at)] + rest)
  }

  /**
   * Reads the 32-bit count n, then exactly n entries: succeeds exactly when
   * at least 4 + 7n bytes are given, and then the entries are the records
   * at offsets 4, 11, 18, ...
   */
  function DecodeResponse(b: seq<byte>): (r: Result<RrcResponse, DecodeError>)
    ensures r.Success? <==> |b| >= RESPONSE_HEADER_SIZE && ResponseSize(ReadU32(b, 0)) <= |b|
    ensures r.Success? ==> (ResponseWellFormed(r.value) && r.value.nofMeas == ReadU32(b, 0) &&
      forall k :: 0 <= k < |r.value.entries| ==>
        r.value.entries[k] == EntryAt(b, RESPONSE_HEADER_SIZE + ENTRY_SIZE * k))
  {
    if |b| < RESPONSE_HEADER_SIZE then Failure(Truncated)
    else
      var n := ReadU32(b, 0);
      match DecodeEntries(b, RESPONSE_HEADER_SIZE, n)
      case None => Failure(Truncated)
      case Some(es) => Success(RrcResponse(n, es))
  }

  /** The peer's encoder; the round-trip lemmas below relate the decoder to it. */
  function EncodeEntry(e: RrcEntry): (b: seq<byte>)
    requires EntryFits(e)
    ensures |b| == ENTRY_SIZE
  {
    U8(e.measId) + U16(e.pci) + U16(e.rsrp) + U16(e.rsrq)
  }

  function EncodeEntries(es: seq<RrcEntry>): (b: seq<byte>)
    requires forall k :: 0 <= k < |es| ==> EntryFits(es[k])
    ensures |b| == ENTRY_SIZE * |es|
  {
    if es == [] then [] else EncodeEntry(es[0]) + EncodeEntries(es[1..])
  }

  function EncodeResponse(r: RrcResponse): (b: seq<byte>)
    requires ResponseWellFormed(r)
    ensures |b| == ResponseSize(|r.entries|)
  {
    U32(r.nofMeas) + EncodeEntries(r.entries)
  }

  lemma EntryRoundTrip(b: seq<byte>, at: nat, e: RrcEntry)
    requires EntryFits(e) && at + ENTRY_SIZE <= |b| && b[at..at + ENTRY_SIZE] == EncodeEntry(e)
    ensures EntryAt(b, at) == e
  {
  }

  lemma {:induction false} EntriesRoundTrip(b: seq<byte>, at: nat, es: seq<RrcEntry>)
    requires forall k :: 0 <= k < |es| ==> EntryFits(es[k])
    requires at + ENTRY_SIZE * |es| <= |b| && b[at..at + ENTRY_SIZE * |es|] == EncodeEntries(es)
    ensures DecodeEntries(b, at, |es|) == Some(es)
    decreases |es|
  {
    if es != [] {
      var enc := EncodeEntries(es);
      assert enc == EncodeEntry(es[0]) + EncodeEntries(es[1..]);
      assert b[at..at + ENTRY_SIZE] == enc[..ENTRY_SIZE] == EncodeEntry(es[0]);
      assert b[at + ENTRY_SIZE..at + ENTRY_SIZE * |es|] == enc[ENTRY_SIZE..] == EncodeEntries(es[1..]);
      EntryRoundTrip(b, at, es[0]);
      EntriesRoundTrip(b, at + ENTRY_SIZE, es[1..]);
      assert [es[0]] + es[1..] == es;
    }
  }

  /** Decoding an encoded response gives it back, whatever follows it. */
  lemma ResponseRoundTrip(r: RrcResponse, trailing: seq<byte>)
    requires ResponseWellFormed(r)
    ensures DecodeResponse(EncodeResponse(r) + trailing) == Success(r)
  {
    var e := EncodeResponse(r);
    var b := e + trailing;
    var n := |r.entries|;
    assert b[0..4] == e[0..4] == U32(r.nofMeas);
    assert b[4..4 + ENTRY_SIZE * n] == e[4..] == EncodeEntries(r.entries);
    EntriesRoundTrip(b, 4, r.entries);
  }

  /** A successful decode consumes exactly 4 + 7n bytes: those bytes are the encoding of what it returns. */
  lemma ResponseConsumes(b: seq<byte>)
    requires DecodeResponse(b).Success?
    ensures var r := DecodeResponse(b).value;
      EncodeResponse(r) == b[..ResponseSize(|r.entries|)] &&
      DecodeResponse(b[..ResponseSize(|r.entries|)]) == Success(r)
  {
    var r := DecodeResponse(b).value;
    var n := |r.entries|;
    var e := EncodeResponse(r);
    U32OfRead(b, 0);
    EntriesReEncode(b, 4, r.entries);
    assert e == b[0..4] + b[4..4 + ENTRY_SIZE * n];
    assert e == b[..ResponseSize(n)];
    ResponseRoundTrip(r, []);
    assert e + [] == e;
  }

  lemma {:induction false} EntriesReEncode(b: seq<byte>, at: nat, es: seq<RrcEntry>)
    requires at + ENTRY_SIZE * |es| <= |b|
    requires forall k :: 0 <= k < |es| ==> es[k] == EntryAt(b, at + ENTRY_SIZE * k)
    ensures forall k :: 0 <= k < |es| ==> EntryFits(es[k])
    ensures EncodeEntries(es) == b[at..at + ENTRY_SIZE * |es|]
    decreases |es|
  {
    if es != [] {
      var e := es[0];
      assert e == EntryAt(b, at);
      U16OfRead(b, at + 1);
      U16OfRead(b, at + 3);
      U16OfRead(b, at + 5);
      assert EncodeEntry(e) == b[at..at + ENTRY_SIZE];
      forall k | 0 <= k < |es| - 1 ensures es[1..][k] == EntryAt(b, at + ENTRY_SIZE + ENTRY_SIZE * k) {
        assert es[1..][k] == es[k + 1];
      }
      EntriesReEncode(b, at + ENTRY_SIZE, es[1..]);
      assert b[at..at + ENTRY_SIZE * |es|] == b[at..at + ENTRY_SIZE] + b[at + ENTRY_SIZE..at + ENTRY_SIZE * |es|];
    }
  }

  /** Any strict prefix of an encoded response is rejected, never decoded to partial results. */
  lemma TruncatedResponseFails(r: RrcResponse, k: nat)
    requires ResponseWellFormed(r) && k < ResponseSize(|r.entries|)
    ensures DecodeResponse(EncodeResponse(r)[..k]) == Failure(Truncated)
  {
  }

  /** A one-entry report (meas_id 0, pci 55, rsrp 10, rsrq 20) decodes to exactly that entry. */
  lemma OneEntryResponse()
    ensures DecodeResponse([0, 0, 0, 1, 0, 0, 55, 0, 10, 0, 20]) ==
      Success(RrcResponse(1, [RrcEntry(0, 55, 10, 20)]))
  {
    var b: seq<byte> := [0, 0, 0, 1, 0, 0, 55, 0, 10, 0, 20];
    assert ReadU32(b, 0) == 1;
    assert EntryAt(b, 4) == RrcEntry(0, 55, 10, 20);
    assert DecodeEntries(b, 11, 0) == Some([]);
    assert [RrcEntry(0, 55, 10, 20)] + [] == [RrcEntry(0, 55, 10, 20)];
    assert DecodeEntries(b, 4, 1) == Some([RrcEntry(0, 55, 10, 20)]);
  }
}
