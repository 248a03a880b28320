/**
 * Scanning a byte string as a run of frames (`scan_frames`), for any frame codec that is exact:
 * parsing inverts framing, a strict prefix of a frame reads as incomplete, and a verdict other
 * than "incomplete" is never changed by more bytes.  Module Frame supplies the codec of the spool.
 */
module Scanner {
  import opened Prelude
  import opened Record

  datatype FrameError = Invalid | Corrupt | Oversize

  datatype Parsed = Incomplete | Bad(error: FrameError) | Complete(record: SpoolRecord, length: nat)

  /** `refusal` is the error `encode_frame` returns for a record that is not accepted. */
  datatype Codec = Codec(
    accepts: SpoolRecord -> bool, refusal: SpoolRecord -> FrameError, frame: SpoolRecord -> Bytes, parse: Bytes -> Parsed)

  /** The longest frame any record within the format's bounds can have. */
  const MAX_FRAME: nat := 5_243_414

  ghost predicate Inverts(c: Codec) {
    && (forall r :: c.accepts(r) ==> 0 < |c.frame(r)| <= MAX_FRAME)
    && (forall r, t :: c.accepts(r) ==> c.parse(c.frame(r) + t) == Complete(r, |c.frame(r)|))
  }

  ghost predicate Detects(c: Codec) {
    forall r, k :: c.accepts(r) && 0 < k < |c.frame(r)| ==> c.parse(c.frame(r)[..k]) == Incomplete
  }

  ghost predicate Exact(c: Codec) {
    forall s :: s != [] && c.parse(s).Complete? ==>
      && 0 < c.parse(s).length <= |s|
      && c.accepts(c.parse(s).record)
      && s[..c.parse(s).length] == c.frame(c.parse(s).record)
  }

  ghost predicate Stable(c: Codec) {
    forall s, t :: s != [] && !c.parse(s).Incomplete? ==> c.parse(s + t) == c.parse(s)
  }

  ghost predicate Sound(c: Codec) {
    Inverts(c) && Detects(c) && Exact(c) && Stable(c)
  }

  datatype DecodedFrame = DecodedFrame(record: SpoolRecord, length: nat)

  datatype FrameScan = FrameScan(frames: seq<DecodedFrame>, completeLength: nat, incompleteTail: bool)

  type ScanResult = Result<FrameScan, FrameError>

  /** The scan of an input whose first `n` bytes held `frames` and whose rest scanned to `rest`. */
  function After(frames: seq<DecodedFrame>, n: nat, rest: ScanResult): ScanResult {
    match rest
    case Err(e) => Err(e)
    case Ok(scan) => Ok(FrameScan(frames + scan.frames, n + scan.completeLength, scan.incompleteTail))
  }

  /** Scanning, frame by frame from the front. */
  ghost function Scan(c: Codec, s: Bytes): ScanResult
    requires Sound(c)
    decreases |s|
  {
    if s == [] then Ok(FrameScan([], 0, false))
    else match c.parse(s)
      case Incomplete => Ok(FrameScan([], 0, true))
      case Bad(e) => Err(e)
      case Complete(r, n) => After([DecodedFrame(r, n)], n, Scan(c, s[n..]))
  }

  function EncodeAll(c: Codec, rs: seq<SpoolRecord>): Bytes {
    if rs == [] then [] else c.frame(rs[0]) + EncodeAll(c, rs[1..])
  }

  function Records(frames: seq<DecodedFrame>): seq<SpoolRecord> {
    seq(|frames|, i requires 0 <= i < |frames| => frames[i].record)
  }

  function Decoded(c: Codec, rs: seq<SpoolRecord>): seq<DecodedFrame> {
    seq(|rs|, i requires 0 <= i < |rs| => DecodedFrame(rs[i], |c.frame(rs[i])|))
  }

  ghost predicate AllAccepted(c: Codec, rs: seq<SpoolRecord>) {
    forall i :: 0 <= i < |rs| ==> c.accepts(rs[i])
  }

  /** The scanner's loop. */
  method ScanFrames(c: Codec, bytes: Bytes) returns (result: ScanResult)
    requires Sound(c)
    ensures result == Scan(c, bytes)
  {
    var offset: nat := 0;
    var frames := [];
    assert bytes[0..] == bytes;
    AfterNothing(Scan(c, bytes));
    while offset < |bytes|
      invariant offset <= |bytes|
      invariant Scan(c, bytes) == After(frames, offset, Scan(c, bytes[offset..]))
    {
      var remaining := bytes[offset..];
      match c.parse(remaining) {
        case Incomplete =>
          assert frames + [] == frames;
          return Ok(FrameScan(frames, offset, true));
        case Bad(e) => return Err(e);
        case Complete(r, n) =>
          assert remaining[n..] == bytes[offset + n..];
          AfterAfter(frames, offset, [DecodedFrame(r, n)], n, Scan(c, remaining[n..]));
          frames := frames + [DecodedFrame(r, n)];
          offset := offset + n;
      }
    }
    assert bytes[offset..] == [] && frames + [] == frames;
    return Ok(FrameScan(frames, offset, false));
  }

  lemma AfterAfter(f: seq<DecodedFrame>, n: nat, g: seq<DecodedFrame>, m: nat, rest: ScanResult)
    ensures After(f, n, After(g, m, rest)) == After(f + g, n + m, rest)
  {
    if rest.Ok? {
      assert f + (g + rest.value.frames) == f + g + rest.value.frames;
    }
  }

  lemma AfterNothing(rest: ScanResult)
    ensures After([], 0, rest) == rest
  {
    if rest.Ok? {
      assert [] + rest.value.frames == rest.value.frames;
    }
  }

  lemma ScanCons(c: Codec, r: SpoolRecord, rest: Bytes)
    requires Sound(c) && c.accepts(r)
    ensures Scan(c, c.frame(r) + rest)
         == After([DecodedFrame(r, |c.frame(r)|)], |c.frame(r)|, Scan(c, rest))
  {
    assert (c.frame(r) + rest)[|c.frame(r)|..] == rest;
  }

  /** Complete frames in front of any rest: the scan is those frames followed by the scan of the rest. */
  lemma {:induction false} ScanEncoded(c: Codec, rs: seq<SpoolRecord>, t: Bytes)
    requires Sound(c) && AllAccepted(c, rs)
    ensures Scan(c, EncodeAll(c, rs) + t) == After(Decoded(c, rs), |EncodeAll(c, rs)|, Scan(c, t))
  {
    hide Inverts, Detects, Exact, Stable;
    if rs == [] {
      assert EncodeAll(c, rs) + t == t;
      assert Decoded(c, rs) == [];
      AfterNothing(Scan(c, t));
    } else {
      var f, rest := c.frame(rs[0]), EncodeAll(c, rs[1..]) + t;
      assert EncodeAll(c, rs) + t == f + rest;
      ScanCons(c, rs[0], rest);
      ScanEncoded(c, rs[1..], t);
      assert Decoded(c, rs) == [DecodedFrame(rs[0], |f|)] + Decoded(c, rs[1..]);
      AfterAfter([DecodedFrame(rs[0], |f|)], |f|, Decoded(c, rs[1..]), |EncodeAll(c, rs[1..])|, Scan(c, t));
    }
  }

  /** Torn-tail recovery: encoded records followed by a strict prefix of one more frame. */
  lemma ScanTorn(c: Codec, rs: seq<SpoolRecord>, last: SpoolRecord, k: nat)
    requires Sound(c) && AllAccepted(c, rs) && c.accepts(last) && k < |c.frame(last)|
    ensures Scan(c, EncodeAll(c, rs) + c.frame(last)[..k])
         == Ok(FrameScan(Decoded(c, rs), |EncodeAll(c, rs)|, k != 0))
  {
    var t := c.frame(last)[..k];
    ScanEncoded(c, rs, t);
    assert k == 0 ==> t == [];
    assert Decoded(c, rs) + [] == Decoded(c, rs);
  }

  lemma ParsedIsFramed(c: Codec, s: Bytes)
    requires Sound(c) && s != [] && c.parse(s).Complete?
    ensures 0 < c.parse(s).length <= |s|
    ensures c.accepts(c.parse(s).record) && s[..c.parse(s).length] == c.frame(c.parse(s).record)
  {}

  /** Conversely, the accepted prefix of any input is the re-encoding of the records returned. */
  lemma {:induction false} EncodeScanned(c: Codec, s: Bytes)
    requires Sound(c) && Scan(c, s).Ok?
    ensures var scan := Scan(c, s).value; var rs := Records(scan.frames);
      && scan.completeLength <= |s|
      && s[..scan.completeLength] == EncodeAll(c, rs)
      && AllAccepted(c, rs)
      && scan.frames == Decoded(c, rs)
      && (scan.incompleteTail <==> scan.completeLength < |s|)
    decreases |s|
  {
    hide Inverts, Detects, Exact, Stable;
    if s != [] && c.parse(s).Complete? {
      var r, n := c.parse(s).record, c.parse(s).length;
      ParsedIsFramed(c, s);
      EncodeScanned(c, s[n..]);
      var rest := Scan(c, s[n..]).value;
      var m := rest.completeLength;
      assert s[..n + m] == s[..n] + s[n..][..m];
      assert |c.frame(r)| == n;
      var rs := Records([DecodedFrame(r, n)] + rest.frames);
      assert rs == [r] + Records(rest.frames);
      assert rs[1..] == Records(rest.frames);
    }
  }

  /** What a scan has accepted or rejected, more bytes cannot change. */
  lemma {:induction false} ScanExtend(c: Codec, s: Bytes, t: Bytes)
    requires Sound(c)
    ensures Scan(c, s).Err? ==> Scan(c, s + t) == Scan(c, s)
    ensures Scan(c, s).Ok? ==> Scan(c, s).value.completeLength <= |s|
    ensures Scan(c, s).Ok? ==> var scan := Scan(c, s).value;
      Scan(c, s + t) == After(scan.frames, scan.completeLength, Scan(c, s[scan.completeLength..] + t))
    decreases |s|
  {
    hide Inverts, Detects;
    if s == [] {
      assert s + t == t == s[0..] + t;
      AfterNothing(Scan(c, t));
    } else {
      match c.parse(s)
      case Incomplete =>
        assert s[0..] == s;
        AfterNothing(Scan(c, s + t));
      case Bad(e) =>
      case Complete(r, n) =>
        assert (s + t)[n..] == s[n..] + t;
        ScanExtend(c, s[n..], t);
        if Scan(c, s).Ok? {
          var rest := Scan(c, s[n..]).value;
          var m := rest.completeLength;
          assert s[n..][m..] == s[n + m..];
          AfterAfter([DecodedFrame(r, n)], n, rest.frames, m, Scan(c, s[n + m..] + t));
        }
    }
  }

  /** The unscanned remainder of an accepted input scans to no frame at all. */
  lemma RemainderScan(c: Codec, s: Bytes)
    requires Sound(c) && Scan(c, s).Ok?
    ensures Scan(c, s).value.completeLength <= |s|
    ensures Scan(c, s[Scan(c, s).value.completeLength..]) == Ok(FrameScan([], 0, Scan(c, s).value.incompleteTail))
  {
    hide Inverts, Detects, Exact, Stable, Scan, EncodeAll, Decoded, Records;
    EncodeScanned(c, s);
    var scan := Scan(c, s).value;
    var rest := s[scan.completeLength..];
    assert s == s[..scan.completeLength] + rest;
    ScanEncoded(c, Records(scan.frames), rest);
    var tail := Scan(c, rest);
    assert |scan.frames + tail.value.frames| == |scan.frames| + |tail.value.frames|;
  }
}
