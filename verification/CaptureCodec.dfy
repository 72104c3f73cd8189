/** The NDSNETREPLAY1 file layout: `write_capture` and `read_capture` of `tools/net_capture_tool.py`. */
module CaptureCodec {
  import opened Bytes

  const HEADER_SIZE := 141
  const RECORD_SIZE := 16
  const FORMAT_VERSION := 1
  const MAX_FRAME_BYTES := 2048
  const REPLACEMENT := 0xFFFD
  const MAGIC: Data := [78, 68, 83, 78, 69, 84, 82, 69, 80, 76, 65, 89, 49, 0, 0, 0]  // NDSNETREPLAY1

  datatype Header = Header(formatVersion: nat, sanitized: bool, created: nat, romSha1: Text, scenario: Text)

  datatype Record = Record(guestCycle: nat, direction: nat, frame: Data)

  datatype Capture = Capture(header: Header, records: seq<Record>)

  datatype Error =
    | TruncatedHeader | BadMagic | BadVersion | BadHeaderSize
    | TruncatedRecordHeader | FrameTooLong | BadDirection | TruncatedPayload

  datatype Result<T> = Ok(value: T) | Err(error: Error)

  // ---- Writing -------------------------------------------------------------------------

  predicate Ascii(t: Text) { forall i :: 0 <= i < |t| ==> 0 <= t[i] < 128 }

  /** What `struct.pack` and `encode("ascii")` accept without raising. */
  predicate Packable(cap: Capture) {
    && cap.header.formatVersion < 0x1_0000_0000 && cap.header.created < 0x1_0000_0000_0000_0000
    && Ascii(cap.header.romSha1) && Ascii(cap.header.scenario)
    && (forall i :: 0 <= i < |cap.records| ==> PackableRecord(cap.records[i]))
  }

  predicate PackableRecord(r: Record) {
    r.guestCycle < 0x1_0000_0000_0000_0000 && r.direction < 256 && |r.frame| < 0x1_0000_0000
  }

  /** ASCII text cut to `width - 1` characters and padded with zero bytes to `width`. */
  function Padded(t: Text, width: nat): (d: Data)
    requires Ascii(t) && width > 0
    ensures |d| == width
  {
    var kept := if |t| < width then t else t[..width - 1];
    seq(width, i requires 0 <= i < width => if i < |kept| then kept[i] else 0)
  }

  function PackHeader(h: Header): (d: Data)
    requires h.formatVersion < 0x1_0000_0000 && h.created < 0x1_0000_0000_0000_0000
    requires Ascii(h.romSha1) && Ascii(h.scenario)
    ensures |d| == HEADER_SIZE
  {
    MAGIC + Pack(h.formatVersion, 4) + Pack(HEADER_SIZE, 4) + [if h.sanitized then 1 else 0] + Zeros(3)
    + Pack(h.created, 8) + Padded(h.romSha1, 41) + Padded(h.scenario, 64)
  }

  function PackRecord(r: Record): (d: Data)
    requires PackableRecord(r)
    ensures |d| == RECORD_SIZE + |r.frame|
  {
    Pack(r.guestCycle, 8) + Pack(|r.frame|, 4) + [r.direction] + Zeros(3) + r.frame
  }

  function PackRecords(rs: seq<Record>): Data
    requires forall i :: 0 <= i < |rs| ==> PackableRecord(rs[i])
  {
    if rs == [] then [] else PackRecord(rs[0]) + PackRecords(rs[1..])
  }

  function Packed(cap: Capture): Data
    requires Packable(cap)
  {
    PackHeader(cap.header) + PackRecords(cap.records)
  }

  /** `write_capture`: the header, then the records appended one by one. */
  method WriteCapture(cap: Capture) returns (out: Data)
    requires Packable(cap)
    ensures out == Packed(cap)
  {
    hide PackRecord, PackHeader;
    out := PackHeader(cap.header);
    for i := 0 to |cap.records|
      invariant out + PackRecords(cap.records[i..]) == Packed(cap)
    {
      assert cap.records[i..][1..] == cap.records[i + 1..];
      out := out + PackRecord(cap.records[i]);
    }
    assert cap.records[|cap.records|..] == [];
  }

  // ---- Reading -------------------------------------------------------------------------

  /** The text before the first zero byte; bytes outside ASCII are replaced. */
  function CString(d: Data): (t: Text)
    ensures |t| <= |d|
    ensures |t| < |d| ==> d[|t|] == 0
    ensures forall i :: 0 <= i < |t| ==> d[i] != 0 && t[i] == if d[i] < 128 then d[i] else REPLACEMENT
  {
    if d == [] || d[0] == 0 then []
    else [if d[0] < 128 then d[0] else REPLACEMENT] + CString(d[1..])
  }

  function ParseHeader(d: Data): Result<Header> {
    if |d| < HEADER_SIZE then Err(TruncatedHeader)
    else if d[..16] != MAGIC then Err(BadMagic)
    else if Unpack(d[16..20]) != FORMAT_VERSION then Err(BadVersion)
    else if Unpack(d[20..24]) != HEADER_SIZE then Err(BadHeaderSize)
    else Ok(Header(Unpack(d[16..20]), d[24] != 0, Unpack(d[28..36]), CString(d[36..77]), CString(d[77..141])))
  }

  /** The record at the front of `d`. */
  function ParseRecord(d: Data): (r: Result<Record>)
    ensures r.Ok? ==> RECORD_SIZE + |r.value.frame| <= |d|
  {
    if |d| < RECORD_SIZE then Err(TruncatedRecordHeader)
    else
      var length := Unpack(d[8..12]);
      if length > MAX_FRAME_BYTES then Err(FrameTooLong)
      else if d[12] != 0 && d[12] != 1 then Err(BadDirection)
      else if |d| - RECORD_SIZE < length then Err(TruncatedPayload)
      else Ok(Record(Unpack(d[..8]), d[12], d[RECORD_SIZE..RECORD_SIZE + length]))
  }

  function ParseRecords(d: Data): Result<seq<Record>>
    decreases |d|
  {
    if d == [] then Ok([])
    else
      match ParseRecord(d)
      case Err(e) => Err(e)
      case Ok(r) =>
        Prepend([r], ParseRecords(d[RECORD_SIZE + |r.frame|..]))
  }

  function Parsed(d: Data): Result<Capture> {
    match ParseHeader(d)
    case Err(e) => Err(e)
    case Ok(h) =>
      match ParseRecords(d[HEADER_SIZE..])
      case Err(e) => Err(e)
      case Ok(rs) => Ok(Capture(h, rs))
  }

  function Prepend(rs: seq<Record>, r: Result<seq<Record>>): Result<seq<Record>> {
    if r.Ok? then Ok(rs + r.value) else r
  }

  lemma PrependPrepend(a: seq<Record>, b: seq<Record>, r: Result<seq<Record>>)
    ensures Prepend([], r) == r && Prepend(a, Prepend(b, r)) == Prepend(a + b, r)
  {
    if r.Ok? {
      assert [] + r.value == r.value;
      assert a + (b + r.value) == (a + b) + r.value;
    }
  }

  /** `read_capture`: one pass over the file with a running position. */
  method ReadCapture(d: Data) returns (r: Result<Capture>)
    ensures r == Parsed(d)
  {
    hide ParseRecord;
    var header := ParseHeader(d);
    if header.Err? {
      return Err(header.error);
    }
    var pos := HEADER_SIZE;
    var records: seq<Record> := [];
    PrependPrepend([], [], ParseRecords(d[pos..]));
    while pos < |d|
      invariant HEADER_SIZE <= pos <= |d|
      invariant ParseRecords(d[HEADER_SIZE..]) == Prepend(records, ParseRecords(d[pos..]))
    {
      var one := ParseRecord(d[pos..]);
      if one.Err? {
        return Err(one.error);
      }
      var size := RECORD_SIZE + |one.value.frame|;
      assert d[pos..][size..] == d[pos + size..];
      PrependPrepend(records, [one.value], ParseRecords(d[pos + size..]));
      records := records + [one.value];
      pos := pos + size;
    }
    assert d[pos..] == [];
    assert records + [] == records;
    r := Ok(Capture(header.value, records));
  }

  // ---- Round trip ----------------------------------------------------------------------

  /** The captures a written file can carry without loss. */
  predicate WellFormed(cap: Capture) {
    && cap.header.formatVersion == FORMAT_VERSION
    && Fits(cap.header.romSha1, 41) && Fits(cap.header.scenario, 64)
    && (forall i :: 0 <= i < |cap.records| ==> WellFormedRecord(cap.records[i]))
  }

  predicate Fits(t: Text, width: nat) {
    |t| < width && forall i :: 0 <= i < |t| ==> t[i] != 0
  }

  predicate WellFormedRecord(r: Record) { r.direction <= 1 && |r.frame| <= MAX_FRAME_BYTES }

  lemma PaddedReadsBack(t: Text, width: nat)
    requires Ascii(t) && width > 0
    ensures CString(Padded(t, width)) == t <==> Fits(t, width)
  {
    var d := Padded(t, width);
    var kept := if |t| < width then t else t[..width - 1];
    assert d[|kept|] == 0;
    assert Fits(t, width) ==> forall i :: 0 <= i < |t| ==> d[i] != 0;
  }

  lemma HeaderReadsBack(h: Header, rest: Data)
    requires h.formatVersion < 0x1_0000_0000 && h.created < 0x1_0000_0000_0000_0000
    requires Ascii(h.romSha1) && Ascii(h.scenario)
    ensures ParseHeader(PackHeader(h) + rest) ==
      if h.formatVersion != FORMAT_VERSION then Err(BadVersion)
      else Ok(h.(romSha1 := CString(Padded(h.romSha1, 41)), scenario := CString(Padded(h.scenario, 64))))
  {
    hide PackHeader, Pack, Unpack, Padded, CString, Limit;
    HeaderFields(h, rest);
    KnownLimits();
    UnpackPack(h.formatVersion, 4);
    UnpackPack(HEADER_SIZE, 4);
    UnpackPack(h.created, 8);
  }

  /** Every header field stands at its offset. */
  lemma HeaderFields(h: Header, rest: Data)
    requires h.formatVersion < 0x1_0000_0000 && h.created < 0x1_0000_0000_0000_0000
    requires Ascii(h.romSha1) && Ascii(h.scenario)
    ensures var d := PackHeader(h) + rest;
      && |d| >= HEADER_SIZE && d[..16] == MAGIC
      && d[16..20] == Pack(h.formatVersion, 4) && d[20..24] == Pack(HEADER_SIZE, 4)
      && d[24] == (if h.sanitized then 1 else 0) && d[28..36] == Pack(h.created, 8)
      && d[36..77] == Padded(h.romSha1, 41) && d[77..141] == Padded(h.scenario, 64)
  {
    hide Pack, Padded;
  }

  lemma RecordReadsBack(r: Record, rest: Data)
    requires PackableRecord(r)
    ensures ParseRecord(PackRecord(r) + rest).Ok? <==> WellFormedRecord(r)
    ensures WellFormedRecord(r) ==> ParseRecord(PackRecord(r) + rest) == Ok(r)
  {
    var d := PackRecord(r) + rest;
    KnownLimits();
    UnpackPack(r.guestCycle, 8);
    UnpackPack(|r.frame|, 4);
    assert d[..8] == Pack(r.guestCycle, 8);
    assert d[8..12] == Pack(|r.frame|, 4);
    assert d[12] == r.direction;
    assert d[RECORD_SIZE..RECORD_SIZE + |r.frame|] == r.frame;
  }

  lemma {:induction false} RecordsReadBack(rs: seq<Record>)
    requires forall i :: 0 <= i < |rs| ==> PackableRecord(rs[i])
    ensures ParseRecords(PackRecords(rs)).Ok? <==> forall i :: 0 <= i < |rs| ==> WellFormedRecord(rs[i])
    ensures ParseRecords(PackRecords(rs)).Ok? ==> ParseRecords(PackRecords(rs)).value == rs
    decreases |rs|
  {
    hide PackRecord, ParseRecord, WellFormedRecord;
    if rs != [] {
      var rest := PackRecords(rs[1..]);
      RecordReadsBack(rs[0], rest);
      RecordsReadBack(rs[1..]);
      assert PackRecords(rs)[RECORD_SIZE + |rs[0].frame|..] == rest;
      assert forall i :: 1 <= i < |rs| ==> rs[i] == rs[1..][i - 1];
      assert (forall i :: 0 <= i < |rs| ==> WellFormedRecord(rs[i])) <==>
        WellFormedRecord(rs[0]) && forall i :: 0 <= i < |rs[1..]| ==> WellFormedRecord(rs[1..][i]);
    }
  }

  /** A written capture reads back as itself exactly when it is well formed. */
  lemma RoundTrip(cap: Capture)
    requires Packable(cap)
    ensures Parsed(Packed(cap)) == Ok(cap) <==> WellFormed(cap)
  {
    var d := Packed(cap);
    HeaderReadsBack(cap.header, PackRecords(cap.records));
    PaddedReadsBack(cap.header.romSha1, 41);
    PaddedReadsBack(cap.header.scenario, 64);
    RecordsReadBack(cap.records);
    assert d[HEADER_SIZE..] == PackRecords(cap.records);
  }

  // ---- Prefixes ------------------------------------------------------------------------

  /** Bytes the first `k` records take. */
  function SizeOf(rs: seq<Record>, k: nat): nat
    requires k <= |rs|
  {
    if k == 0 then 0 else RECORD_SIZE + |rs[0].frame| + SizeOf(rs[1..], k - 1)
  }

  /** A position in the record area where the first `k` records end. */
  ghost predicate EndsAt(rs: seq<Record>, m: int, k: int) {
    0 <= k <= |rs| && m == SizeOf(rs, k)
  }

  /** A prefix of the record area parses exactly when it ends where some record ends. */
  lemma {:induction false} RecordPrefix(rs: seq<Record>, m: nat)
    requires forall i :: 0 <= i < |rs| ==> PackableRecord(rs[i]) && WellFormedRecord(rs[i])
    requires m <= |PackRecords(rs)|
    ensures ParseRecords(PackRecords(rs)[..m]).Ok? ==> exists k :: EndsAt(rs, m, k)
    ensures forall k :: EndsAt(rs, m, k) ==> ParseRecords(PackRecords(rs)[..m]) == Ok(rs[..k])
    decreases |rs|
  {
    hide PackRecord, ParseRecord, WellFormedRecord, PackableRecord;
    var d := PackRecords(rs)[..m];
    if m == 0 {
      assert EndsAt(rs, 0, 0);
    } else {
      var size := RECORD_SIZE + |rs[0].frame|;
      var tail := rs[1..];
      if m < size {
        ShortRecord(rs[0], PackRecords(tail), m);
      } else {
        RecordPrefix(tail, m - size);
        FullRecord(rs[0], PackRecords(tail), m);
        if ParseRecords(d).Ok? {
          var k :| EndsAt(tail, m - size, k);
          assert EndsAt(rs, m, k + 1);
        }
        forall k | EndsAt(rs, m, k)
          ensures ParseRecords(d) == Ok(rs[..k])
        {
          assert k > 0 && EndsAt(tail, m - size, k - 1);
          assert rs[..k] == [rs[0]] + tail[..k - 1];
        }
      }
    }
  }

  lemma FullRecord(r: Record, rest: Data, m: nat)
    requires PackableRecord(r) && WellFormedRecord(r)
    requires RECORD_SIZE + |r.frame| <= m <= RECORD_SIZE + |r.frame| + |rest|
    ensures ParseRecords((PackRecord(r) + rest)[..m]) == Prepend([r], ParseRecords(rest[..m - RECORD_SIZE - |r.frame|]))
  {
    var size := RECORD_SIZE + |r.frame|;
    var d := (PackRecord(r) + rest)[..m];
    assert d == PackRecord(r) + rest[..m - size];
    RecordReadsBack(r, rest[..m - size]);
    assert d[size..] == rest[..m - size];
  }

  lemma ShortRecord(r: Record, rest: Data, m: nat)
    requires PackableRecord(r) && WellFormedRecord(r) && 0 < m < RECORD_SIZE + |r.frame|
    ensures ParseRecord((PackRecord(r) + rest)[..m]).Err?
  {
    var d := (PackRecord(r) + rest)[..m];
    if m >= RECORD_SIZE {
      KnownLimits();
      UnpackPack(|r.frame|, 4);
      assert PackRecord(r)[8..12] == Pack(|r.frame|, 4);
      assert d[8..12] == PackRecord(r)[8..12];
    }
  }

  /** A position in the file where the header and the first `k` records end. */
  ghost predicate Boundary(cap: Capture, n: int, k: int) { EndsAt(cap.records, n - HEADER_SIZE, k) }

  lemma ShortHeader(d: Data)
    requires |d| < HEADER_SIZE
    ensures ParseHeader(d).Err?
  {
  }

  /**
   Cutting a written file: a prefix is accepted exactly when it ends on a record boundary, and
   then it is the same capture with that many of its records.
   */
  lemma PrefixIsAcceptedOnBoundaries(cap: Capture, n: nat)
    requires Packable(cap) && WellFormed(cap) && n <= |Packed(cap)|
    ensures Parsed(Packed(cap)[..n]).Ok? <==> exists k :: Boundary(cap, n, k)
    ensures forall k :: Boundary(cap, n, k) ==>
      Parsed(Packed(cap)[..n]) == Ok(cap.(records := cap.records[..k]))
  {
    hide PackHeader, ParseHeader;
    var body := PackRecords(cap.records);
    if n < HEADER_SIZE {
      ShortHeader(Packed(cap)[..n]);
    } else {
      var m := n - HEADER_SIZE;
      assert Packed(cap)[..n] == PackHeader(cap.header) + body[..m];
      assert Packed(cap)[..n][HEADER_SIZE..] == body[..m];
      HeaderReadsBack(cap.header, body[..m]);
      PaddedReadsBack(cap.header.romSha1, 41);
      PaddedReadsBack(cap.header.scenario, 64);
      RecordPrefix(cap.records, m);
      assert forall k :: EndsAt(cap.records, m, k) <==> Boundary(cap, n, k);
    }
  }
}
