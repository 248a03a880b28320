/** The spool frame codec: `encode_frame`, `decode_header` and the per-frame checks of `scan_frames`. */
module Frame {
  import opened Prelude
  import opened Record
  import opened Scanner

  /** SHA-256 as an arbitrary function onto 32-byte strings: nothing below depends on which one. */
  type Hash = f: Bytes -> Bytes | forall x :: |f(x)| == 32 witness ((x: Bytes) => seq(32, _ => 0))

  const SHA256: Hash

  const CHECKSUM_DOMAIN: Bytes := [
    0x65, 0x76, 0x65, 0x72, 0x74, 0x72, 0x61, 0x63, 0x65, 0x2E, 0x73, 0x70,
    0x6F, 0x6F, 0x6C, 0x2E, 0x66, 0x72, 0x61, 0x6D, 0x65, 0x2E, 0x76, 0x31]

  function ChecksumMessage(header: Bytes, body: Bytes): Bytes {
    CHECKSUM_DOMAIN + (BigEndian(8, |header|) + (header + (BigEndian(8, |body|) + body)))
  }

  function Checksum(header: Bytes, body: Bytes): (c: Bytes)
    ensures |c| == 32
  {
    SHA256(ChecksumMessage(header, body))
  }

  /* ---------- constants ---------- */

  const MAGIC: Bytes := [0x45, 0x54, 0x53, 0x50, 0x4C, 0x30, 0x30, 0x31]    // ETSPL001
  const TRAILER: Bytes := [0x45, 0x54, 0x43, 0x4F, 0x4D, 0x4D, 0x49, 0x54]  // ETCOMMIT
  const FRAME_VERSION: nat := 1
  const PREFIX_LENGTH: nat := 54

  /* ---------- encoding ---------- */

  datatype Header = Header(
    version: nat, generation: u64, recordId: Utf8, observationId: Utf8, casRefs: seq<Utf8>, payload: nat)

  function StringBytes(s: Bytes): Bytes { BigEndian(2, |s|) + s }

  function Concat(parts: seq<Bytes>): Bytes {
    if parts == [] then [] else parts[0] + Concat(parts[1..])
  }

  function HeaderBytes(h: Header): Bytes {
    BigEndian(2, h.version) + (BigEndian(8, h.generation)
      + (StringBytes(h.recordId) + (StringBytes(h.observationId)
      + (BigEndian(2, |h.casRefs|) + (Concat(h.casRefs) + BigEndian(8, h.payload))))))
  }

  function HeaderOf(r: SpoolRecord): Header {
    Header(FRAME_VERSION, r.generation, r.recordId, r.observationId, r.casRefs, |r.body|)
  }

  function FrameBytes(r: SpoolRecord): Bytes {
    var header := HeaderBytes(HeaderOf(r));
    MAGIC + BigEndian(2, FRAME_VERSION) + BigEndian(4, |header|) + BigEndian(8, |r.body|)
      + Checksum(header, r.body) + header + r.body + TRAILER
  }

  function EncodeFrame(r: SpoolRecord): Result<Bytes, FrameError> {
    if !ValidRecord(r) then Err(Invalid)
    else if |r.casRefs| > 0xFFFF then Err(Oversize)
    else Ok(FrameBytes(r))
  }

  /* ---------- decoding ---------- */

  function TakeInt(n: nat, s: Bytes): Option<(nat, Bytes)> {
    if |s| < n then None else Some((FromBigEndian(s[..n]), s[n..]))
  }

  function TakeString(s: Bytes): Option<(Utf8, Bytes)> {
    match TakeInt(2, s)
    case None => None
    case Some((n, t)) => if |t| < n || !IsUtf8(t[..n]) then None else Some((t[..n], t[n..]))
  }

  function TakeRefs(k: nat, s: Bytes): Option<(seq<Utf8>, Bytes)> {
    if k == 0 then Some(([], s))
    else if |s| < 64 || !IsUtf8(s[..64]) then None
    else match TakeRefs(k - 1, s[64..])
      case None => None
      case Some((refs, t)) => Some(([s[..64]] + refs, t))
  }

  /** `decode_header`; every failure there is `Corrupt`. */
  function DecodeHeader(s: Bytes): Option<Header> {
    match TakeInt(2, s) case None => None case Some((version, s)) =>
    match TakeInt(8, s) case None => None case Some((generation, s)) =>
    match TakeString(s) case None => None case Some((recordId, s)) =>
    match TakeString(s) case None => None case Some((observationId, s)) =>
    match TakeInt(2, s) case None => None case Some((count, s)) =>
    match TakeRefs(count, s) case None => None case Some((refs, s)) =>
    match TakeInt(8, s) case None => None case Some((payload, s)) =>
    if s != [] || generation > U64_MAX then None  // eight bytes never exceed U64_MAX
    else Some(Header(version, generation, recordId, observationId, refs, payload))
  }

  function ParseFrame(s: Bytes): (p: Parsed)
    requires s != []
    ensures p.Complete? ==> PREFIX_LENGTH + |TRAILER| <= p.length <= |s|
  {
    if |s| < PREFIX_LENGTH then
      if s[..Min(|s|, |MAGIC|)] <= MAGIC then Incomplete else Bad(Corrupt)
    else if s[..8] != MAGIC || FromBigEndian(s[8..10]) != FRAME_VERSION then Bad(Corrupt)
    else
      var headerLength, bodyLength := FromBigEndian(s[10..14]), FromBigEndian(s[14..22]);
      if bodyLength > MAX_RECORD_BODY then Bad(Oversize) else
      var n := PREFIX_LENGTH + headerLength + bodyLength + |TRAILER|;
      if |s| < n then Incomplete else CheckFrame(s[..n], headerLength, bodyLength)
  }

  function CheckFrame(f: Bytes, headerLength: nat, bodyLength: nat): (p: Parsed)
    requires |f| == PREFIX_LENGTH + headerLength + bodyLength + |TRAILER|
    ensures !p.Incomplete? && (p.Complete? ==> p.length == |f|)
  {
    var bodyStart := PREFIX_LENGTH + headerLength;
    var header, body := f[PREFIX_LENGTH..bodyStart], f[bodyStart..bodyStart + bodyLength];
    if f[bodyStart + bodyLength..] != TRAILER || f[22..54] != Checksum(header, body) then Bad(Corrupt)
    else match DecodeHeader(header)
      case None => Bad(Corrupt)
      case Some(h) =>
        var record := SpoolRecord(h.generation, h.recordId, h.observationId, h.casRefs, body);
        if h.version != FRAME_VERSION || h.payload != bodyLength || !ValidRecord(record) then Bad(Corrupt)
        else Complete(record, |f|)
  }

  /* ---------- header round trip ---------- */

  lemma TakeIntOf(n: nat, v: nat, t: Bytes)
    requires v < Pow256(n)
    ensures TakeInt(n, BigEndian(n, v) + t) == Some((v, t))
  {
    BigEndianRoundTrip(n, v);
    assert (BigEndian(n, v) + t)[..n] == BigEndian(n, v);
    assert (BigEndian(n, v) + t)[n..] == t;
  }

  lemma OfTakeInt(n: nat, s: Bytes)
    requires TakeInt(n, s).Some?
    ensures var (v, t) := TakeInt(n, s).value; v < Pow256(n) && s == BigEndian(n, v) + t
  {
    FromBigEndianRoundTrip(s[..n]);
    assert s == s[..n] + s[n..];
  }

  lemma TakeStringOf(v: Utf8, t: Bytes)
    requires |v| <= 0xFFFF
    ensures TakeString(StringBytes(v) + t) == Some((v, t))
  {
    PowerValues();
    assert StringBytes(v) + t == BigEndian(2, |v|) + (v + t);
    TakeIntOf(2, |v|, v + t);
    assert (v + t)[..|v|] == v && (v + t)[|v|..] == t;
  }

  lemma OfTakeString(s: Bytes)
    requires TakeString(s).Some?
    ensures var (v, t) := TakeString(s).value; s == StringBytes(v) + t
  {
    hide TakeInt, BigEndian, IsUtf8;
    OfTakeInt(2, s);
    var (n, t) := TakeInt(2, s).value;
    assert t == t[..n] + t[n..];
    assert s == StringBytes(t[..n]) + t[n..];
  }

  lemma {:induction false} TakeRefsOf(refs: seq<Utf8>, t: Bytes)
    requires forall i :: 0 <= i < |refs| ==> |refs[i]| == 64
    ensures TakeRefs(|refs|, Concat(refs) + t) == Some((refs, t))
  {
    if refs == [] {
      assert Concat(refs) + t == t;
    } else {
      TakeRefsOf(refs[1..], t);
      var s := Concat(refs) + t;
      assert s == refs[0] + (Concat(refs[1..]) + t);
      assert s[..64] == refs[0] && s[64..] == Concat(refs[1..]) + t;
      assert [refs[0]] + refs[1..] == refs;
    }
  }

  lemma {:induction false} OfTakeRefs(k: nat, s: Bytes)
    requires TakeRefs(k, s).Some?
    ensures var (refs, t) := TakeRefs(k, s).value; |refs| == k && s == Concat(refs) + t
    ensures forall i :: 0 <= i < k ==> |TakeRefs(k, s).value.0[i]| == 64
  {
    if k > 0 {
      OfTakeRefs(k - 1, s[64..]);
      var (refs, t) := TakeRefs(k - 1, s[64..]).value;
      assert s == s[..64] + (Concat(refs) + t);
      assert ([s[..64]] + refs)[1..] == refs;
    }
  }

  lemma DecodeHeaderOf(h: Header)
    requires h.version < 0x1_0000 && |h.recordId| <= 256 && |h.observationId| <= 256
    requires |h.casRefs| <= 0xFFFF && h.payload <= U64_MAX
    requires forall i :: 0 <= i < |h.casRefs| ==> |h.casRefs[i]| == 64
    ensures DecodeHeader(HeaderBytes(h)) == Some(h)
  {
    PowerValues();
    var s6 := BigEndian(8, h.payload);
    var s5 := Concat(h.casRefs) + s6;
    var s4 := BigEndian(2, |h.casRefs|) + s5;
    var s3 := StringBytes(h.observationId) + s4;
    var s2 := StringBytes(h.recordId) + s3;
    var s1 := BigEndian(8, h.generation) + s2;
    TakeIntOf(2, h.version, s1);
    TakeIntOf(8, h.generation, s2);
    TakeStringOf(h.recordId, s3);
    TakeStringOf(h.observationId, s4);
    TakeIntOf(2, |h.casRefs|, s5);
    TakeRefsOf(h.casRefs, s6);
    TakeIntOf(8, h.payload, []);
    assert s6 + [] == s6;
  }

  lemma OfDecodeHeader(s: Bytes)
    requires DecodeHeader(s).Some?
    ensures HeaderBytes(DecodeHeader(s).value) == s
    ensures |DecodeHeader(s).value.casRefs| <= 0xFFFF
    ensures forall i :: 0 <= i < |DecodeHeader(s).value.casRefs| ==> |DecodeHeader(s).value.casRefs[i]| == 64
  {
    PowerValues();
    OfTakeInt(2, s);
    var s1 := TakeInt(2, s).value.1;
    OfTakeInt(8, s1);
    var s2 := TakeInt(8, s1).value.1;
    OfTakeString(s2);
    var s3 := TakeString(s2).value.1;
    OfTakeString(s3);
    var s4 := TakeString(s3).value.1;
    OfTakeInt(2, s4);
    var (count, s5) := TakeInt(2, s4).value;
    OfTakeRefs(count, s5);
    var s6 := TakeRefs(count, s5).value.1;
    OfTakeInt(8, s6);
    var (payload, s7) := TakeInt(8, s6).value;
    assert BigEndian(8, payload) + s7 == BigEndian(8, payload);
  }

  lemma {:induction false} ConcatLength(parts: seq<Bytes>)
    requires forall i :: 0 <= i < |parts| ==> |parts[i]| == 64
    ensures |Concat(parts)| == 64 * |parts|
  {
    if parts != [] {
      ConcatLength(parts[1..]);
    }
  }

  /** No acceptable frame exceeds MAX_FRAME bytes. */
  lemma FrameLength(r: SpoolRecord)
    requires Encodable(r)
    ensures |FrameBytes(r)| == PREFIX_LENGTH + |HeaderBytes(HeaderOf(r))| + |r.body| + |TRAILER|
    ensures |HeaderBytes(HeaderOf(r))| == 24 + |r.recordId| + |r.observationId| + 64 * |r.casRefs|
    ensures |FrameBytes(r)| <= MAX_FRAME
  {
    ConcatLength(r.casRefs);
  }

  /* ---------- one frame ---------- */

  /** The fields of an encoded frame, at the offsets the scanner reads. */
  lemma Layout(r: SpoolRecord, t: Bytes)
    requires Encodable(r)
    ensures var s, h := FrameBytes(r) + t, HeaderBytes(HeaderOf(r));
      var n := |FrameBytes(r)|;
      && |s| >= n == PREFIX_LENGTH + |h| + |r.body| + |TRAILER|
      && s[..8] == MAGIC && s[8..10] == BigEndian(2, FRAME_VERSION)
      && s[10..14] == BigEndian(4, |h|) && s[14..22] == BigEndian(8, |r.body|)
      && s[..n] == FrameBytes(r)
      && s[..n][22..54] == Checksum(h, r.body)
      && s[..n][54..54 + |h|] == h
      && s[..n][54 + |h|..54 + |h| + |r.body|] == r.body
      && s[..n][54 + |h| + |r.body|..] == TRAILER
  {
    hide HeaderBytes, Checksum, BigEndian;
    FrameLength(r);
    var f, h := FrameBytes(r), HeaderBytes(HeaderOf(r));
    assert (f + t)[..|f|] == f;
    assert f[..8] == MAGIC;
    assert f[8..10] == BigEndian(2, FRAME_VERSION);
    assert f[10..14] == BigEndian(4, |h|);
    assert f[14..22] == BigEndian(8, |r.body|);
    assert f[22..54] == Checksum(h, r.body);
    assert f[54..54 + |h|] == h;
    assert f[54 + |h|..54 + |h| + |r.body|] == r.body;
    assert f[54 + |h| + |r.body|..] == TRAILER;
    forall i, j | 0 <= i <= j <= |f| ensures (f + t)[i..j] == f[i..j] {}
  }

  lemma PrefixValues(r: SpoolRecord)
    requires Encodable(r)
    ensures FromBigEndian(BigEndian(2, FRAME_VERSION)) == FRAME_VERSION
    ensures FromBigEndian(BigEndian(4, |HeaderBytes(HeaderOf(r))|)) == |HeaderBytes(HeaderOf(r))|
    ensures FromBigEndian(BigEndian(8, |r.body|)) == |r.body|
  {
    PowerValues();
    FrameLength(r);
    BigEndianRoundTrip(2, FRAME_VERSION);
    BigEndianRoundTrip(4, |HeaderBytes(HeaderOf(r))|);
    BigEndianRoundTrip(8, |r.body|);
  }

  /** A complete frame at the head of the input is parsed back to its record. */
  lemma ParseEncoded(r: SpoolRecord, t: Bytes)
    requires Encodable(r)
    ensures FrameBytes(r) != []
    ensures ParseFrame(FrameBytes(r) + t) == Complete(r, |FrameBytes(r)|)
  {
    hide DecodeHeader, Checksum, BigEndian, FromBigEndian, HeaderBytes;
    Layout(r, t);
    PrefixValues(r);
    var h := HeaderOf(r);
    DecodeHeaderOf(h);
    var s, n := FrameBytes(r) + t, |FrameBytes(r)|;
    assert ParseFrame(s) == CheckFrame(s[..n], |HeaderBytes(h)|, |r.body|);
  }

  /** A strict non-empty prefix of a frame is a torn tail, never corruption. */
  lemma ParseTorn(r: SpoolRecord, k: nat)
    requires Encodable(r) && 0 < k < |FrameBytes(r)|
    ensures ParseFrame(FrameBytes(r)[..k]) == Incomplete
  {
    hide Checksum, BigEndian, FromBigEndian, HeaderBytes, CheckFrame;
    var f := FrameBytes(r);
    Layout(r, []);
    assert f + [] == f;
    PrefixValues(r);
    if k < PREFIX_LENGTH {
      assert f[..k][..Min(k, 8)] == MAGIC[..Min(k, 8)];
    } else {
      assert f[..k][..8] == f[..8] && f[..k][8..10] == f[8..10];
      assert f[..k][10..14] == f[10..14] && f[..k][14..22] == f[14..22];
    }
  }

  /** Whatever is accepted is, byte for byte, the encoding of the record returned. */
  lemma EncodeParsed(s: Bytes)
    requires s != [] && ParseFrame(s).Complete?
    ensures var p := ParseFrame(s); Encodable(p.record) && s[..p.length] == FrameBytes(p.record)
  {
    hide DecodeHeader, Checksum, BigEndian, FromBigEndian, HeaderBytes;
    var hl, bl := FromBigEndian(s[10..14]), FromBigEndian(s[14..22]);
    var n := PREFIX_LENGTH + hl + bl + |TRAILER|;
    var f := s[..n];
    var header, body := f[54..54 + hl], f[54 + hl..54 + hl + bl];
    OfDecodeHeader(header);
    var p := ParseFrame(s);
    assert p == CheckFrame(f, hl, bl);
    assert HeaderOf(p.record) == DecodeHeader(header).value;
    FromBigEndianRoundTrip(s[8..10]);
    FromBigEndianRoundTrip(s[10..14]);
    FromBigEndianRoundTrip(s[14..22]);
    assert f[..8] == s[..8] && f[8..10] == s[8..10] && f[10..14] == s[10..14] && f[14..22] == s[14..22];
    assert f == f[..8] + f[8..10] + f[10..14] + f[14..22] + f[22..54]
      + f[54..54 + hl] + f[54 + hl..54 + hl + bl] + f[54 + hl + bl..];
  }

  /** A verdict other than "incomplete" never changes when more bytes arrive. */
  lemma ParseStable(s: Bytes, t: Bytes)
    requires s != [] && !ParseFrame(s).Incomplete?
    ensures ParseFrame(s + t) == ParseFrame(s)
  {
    hide CheckFrame, FromBigEndian;
    var u := s + t;
    if |s| < PREFIX_LENGTH {
      assert u[..Min(|s|, 8)] == s[..Min(|s|, 8)];
      if |u| < PREFIX_LENGTH {
        assert u[..Min(|u|, 8)][..Min(|s|, 8)] == s[..Min(|s|, 8)];
      } else {
        assert u[..8][..Min(|s|, 8)] == s[..Min(|s|, 8)];
      }
    } else {
      assert u[..8] == s[..8] && u[8..10] == s[8..10];
      assert u[10..14] == s[10..14] && u[14..22] == s[14..22];
      var n := PREFIX_LENGTH + FromBigEndian(s[10..14]) + FromBigEndian(s[14..22]) + |TRAILER|;
      if n <= |s| {
        assert u[..n] == s[..n];
      }
    }
  }

  /* ---------- the codec ---------- */

  function ParseHead(s: Bytes): Parsed { if s == [] then Incomplete else ParseFrame(s) }

  const FRAME_CODEC: Codec := Codec(
    r => Encodable(r), r => if ValidRecord(r) then Oversize else Invalid, r => FrameBytes(r), s => ParseHead(s))

  /** The spool's frame codec meets everything the scanner, validator, reader and spool rely on. */
  lemma FrameCodecIsSound()
    ensures Sound(FRAME_CODEC)
  {
    hide Encodable, FrameBytes, ParseFrame;
    var c := FRAME_CODEC;
    assert Inverts(c) by {
      forall r | c.accepts(r) ensures 0 < |c.frame(r)| <= MAX_FRAME {
        FrameLength(r);
      }
      forall r, t | c.accepts(r) ensures c.parse(c.frame(r) + t) == Complete(r, |c.frame(r)|) {
        ParseEncoded(r, t);
        assert FrameBytes(r) + t != [];
      }
    }
    assert Detects(c) by {
      forall r, k | c.accepts(r) && 0 < k < |c.frame(r)| ensures c.parse(c.frame(r)[..k]) == Incomplete {
        ParseTorn(r, k);
      }
    }
    assert Exact(c) by {
      forall s | s != [] && c.parse(s).Complete?
        ensures 0 < c.parse(s).length <= |s|
        ensures c.accepts(c.parse(s).record) && s[..c.parse(s).length] == c.frame(c.parse(s).record)
      {
        EncodeParsed(s);
      }
    }
    assert Stable(c) by {
      forall s, t | s != [] && !c.parse(s).Incomplete? ensures c.parse(s + t) == c.parse(s) {
        ParseStable(s, t);
        assert s + t != [];
      }
    }
  }

  /** `encode_frame` is injective on the records it accepts. */
  lemma EncodeInjective(r: SpoolRecord, q: SpoolRecord)
    requires Encodable(r) && Encodable(q) && FrameBytes(r) == FrameBytes(q)
    ensures r == q
  {
    hide Encodable, FrameBytes, ParseFrame;
    ParseEncoded(r, []);
    ParseEncoded(q, []);
  }

  /* ---------- what the checksum covers ---------- */

  /** The hashed message determines header and body: both are length-prefixed. */
  lemma MessageInjective(header: Bytes, body: Bytes, header': Bytes, body': Bytes)
    requires |header| <= U64_MAX && |header'| <= U64_MAX
    requires ChecksumMessage(header, body) == ChecksumMessage(header', body')
    ensures header == header' && body == body'
  {
    hide BigEndian, CHECKSUM_DOMAIN;
    var tail, tail' := BigEndian(8, |body|) + body, BigEndian(8, |body'|) + body';
    SplitAt(CHECKSUM_DOMAIN, BigEndian(8, |header|) + (header + tail), CHECKSUM_DOMAIN, BigEndian(8, |header'|) + (header' + tail'));
    SplitAt(BigEndian(8, |header|), header + tail, BigEndian(8, |header'|), header' + tail');
    PowerValues();
    BigEndianRoundTrip(8, |header|);
    BigEndianRoundTrip(8, |header'|);
    SplitAt(header, tail, header', tail');
    SplitAt(BigEndian(8, |body|), body, BigEndian(8, |body'|), body');
  }

  lemma {:induction false} BigEndianWiden(k: nat, n: nat, v: nat)
    requires v < Pow256(n)
    ensures BigEndian(k + n, v) == BigEndian(k, 0) + BigEndian(n, v)
  {
    if n > 0 {
      BigEndianWiden(k, n - 1, v / 256);
    }
  }

  predicate Framed(f: Bytes) {
    PREFIX_LENGTH + |TRAILER| <= |f| && FromBigEndian(f[10..14]) <= |f| - PREFIX_LENGTH - |TRAILER|
  }

  /**
   * The bytes under a frame's checksum, cut out of the frame itself: the domain, the header length widened to
   * eight bytes, the header, the body length and the body.
   */
  function HashedBytes(f: Bytes): Bytes
    requires Framed(f)
  {
    var bodyStart := PREFIX_LENGTH + FromBigEndian(f[10..14]);
    CHECKSUM_DOMAIN + ([0, 0, 0, 0] + f[10..14] + (f[54..bodyStart] + (f[14..22] + f[bodyStart..|f| - |TRAILER|])))
  }

  lemma HashedBytesOf(r: SpoolRecord)
    requires Encodable(r)
    ensures Framed(FrameBytes(r)) && HashedBytes(FrameBytes(r)) == ChecksumMessage(HeaderBytes(HeaderOf(r)), r.body)
    ensures FrameBytes(r)[22..54] == SHA256(HashedBytes(FrameBytes(r)))
  {
    hide HeaderBytes, Encodable, BigEndian, FromBigEndian, CHECKSUM_DOMAIN;
    Layout(r, []);
    PrefixValues(r);
    var f, h := FrameBytes(r), HeaderBytes(HeaderOf(r));
    assert f + [] == f;
    assert f[..|f|] == f;
    PowerValues();
    assert |h| < Pow256(4) by {
      FrameLength(r);
    }
    BigEndianWiden(4, 4, |h|);
    FourZeros();
  }

  lemma FourZeros()
    ensures BigEndian(4, 0) == [0, 0, 0, 0]
  {
    assert BigEndian(1, 0) == [0];
    assert BigEndian(2, 0) == [0, 0];
    assert BigEndian(3, 0) == [0, 0, 0];
  }

  lemma HeaderInjective(r: SpoolRecord, q: SpoolRecord)
    requires Encodable(r) && Encodable(q) && HeaderBytes(HeaderOf(r)) == HeaderBytes(HeaderOf(q)) && r.body == q.body
    ensures r == q
  {
    hide HeaderBytes, DecodeHeader;
    DecodeHeaderOf(HeaderOf(r));
    DecodeHeaderOf(HeaderOf(q));
  }

  /** The field at bytes 22 to 54 of an accepted frame is the hash of the bytes the frame has under it. */
  lemma ChecksumCovers(s: Bytes)
    requires s != [] && ParseFrame(s).Complete?
    ensures var f := s[..ParseFrame(s).length];
      Framed(f) && f[22..54] == SHA256(HashedBytes(f))
  {
    hide FrameBytes, HashedBytes, ParseFrame, Encodable, Framed;
    EncodeParsed(s);
    HashedBytesOf(ParseFrame(s).record);
  }

  /**
   * Two accepted frames that carry the same 32 checksum bytes are the same frame with the same record, or their
   * hashed bytes are a SHA-256 collision.  So no accepted frame can be changed in header or body under its
   * checksum without one.
   */
  lemma ChecksumBinds(s: Bytes, t: Bytes)
    requires s != [] && ParseFrame(s).Complete? && t != [] && ParseFrame(t).Complete? && s[22..54] == t[22..54]
    ensures var p, q := ParseFrame(s), ParseFrame(t);
      var f, g := s[..p.length], t[..q.length];
      && Framed(f) && Framed(g)
      && (|| (f == g && p.record == q.record)
          || (HashedBytes(f) != HashedBytes(g) && SHA256(HashedBytes(f)) == SHA256(HashedBytes(g))))
  {
    hide FrameBytes, HashedBytes, ParseFrame, Encodable, Framed, HeaderBytes, ChecksumMessage;
    var p, q := ParseFrame(s), ParseFrame(t);
    var f, g := s[..p.length], t[..q.length];
    EncodeParsed(s);
    EncodeParsed(t);
    HashedBytesOf(p.record);
    HashedBytesOf(q.record);
    assert f[22..54] == s[22..54] && g[22..54] == t[22..54];
    if HashedBytes(f) == HashedBytes(g) {
      var h, k := HeaderBytes(HeaderOf(p.record)), HeaderBytes(HeaderOf(q.record));
      HeaderFits(p.record);
      HeaderFits(q.record);
      MessageInjective(h, p.record.body, k, q.record.body);
      HeaderInjective(p.record, q.record);
    }
  }

  lemma HeaderFits(r: SpoolRecord)
    requires Encodable(r)
    ensures |HeaderBytes(HeaderOf(r))| <= U64_MAX
  {
    hide HeaderBytes;
    FrameLength(r);
  }

  /* ---------- the imperative code ---------- */

  method AppendString(output: Bytes, value: Bytes) returns (result: Result<Bytes, FrameError>)
    ensures |value| <= 0xFFFF ==> result == Ok(output + StringBytes(value))
    ensures |value| > 0xFFFF ==> result == Err(Oversize)
  {
    if |value| > 0xFFFF {
      return Err(Oversize);
    }
    var buffer := output + BigEndian(2, |value|);
    assert output + StringBytes(value) == buffer + value;
    return Ok(buffer + value);
  }

  lemma {:induction false} ConcatSnoc(parts: seq<Bytes>, last: Bytes)
    ensures Concat(parts + [last]) == Concat(parts) + last
  {
    if parts == [] {
      assert [last] == [] + [last];
      assert Concat([last][1..]) == [];
      assert [] + last == last;
    } else {
      ConcatSnoc(parts[1..], last);
      assert (parts + [last])[1..] == parts[1..] + [last];
      assert parts[0] + (Concat(parts[1..]) + last) == Concat(parts) + last;
    }
  }

  /** `encode_frame`: the header is built field by field, then the frame around it. */
  method WriteFrame(r: SpoolRecord) returns (result: Result<Bytes, FrameError>)
    ensures result == EncodeFrame(r)
  {
    hide BigEndian, Checksum, IsUtf8;
    if !ValidRecord(r) {
      return Err(Invalid);
    }
    var header := BigEndian(2, FRAME_VERSION);
    header := header + BigEndian(8, r.generation);
    var step := AppendString(header, r.recordId);
    step := AppendString(step.value, r.observationId);
    header := step.value;
    if |r.casRefs| > 0xFFFF {
      return Err(Oversize);
    }
    header := header + BigEndian(2, |r.casRefs|);
    ghost var start := header;
    for i := 0 to |r.casRefs|
      invariant header == start + Concat(r.casRefs[..i])
    {
      ConcatSnoc(r.casRefs[..i], r.casRefs[i]);
      assert r.casRefs[..i + 1] == r.casRefs[..i] + [r.casRefs[i]];
      header := header + r.casRefs[i];
    }
    assert r.casRefs[..|r.casRefs|] == r.casRefs;
    header := header + BigEndian(8, |r.body|);
    assert header == HeaderBytes(HeaderOf(r));
    var encoded := MAGIC;
    encoded := encoded + BigEndian(2, FRAME_VERSION);
    encoded := encoded + BigEndian(4, |header|);
    encoded := encoded + BigEndian(8, |r.body|);
    encoded := encoded + Checksum(header, r.body);
    encoded := encoded + header;
    encoded := encoded + r.body;
    encoded := encoded + TRAILER;
    return Ok(encoded);
  }

  /** The decoder's cursor over the header bytes not yet consumed. */
  class Cursor {
    var remaining: Bytes

    constructor (bytes: Bytes)
      ensures remaining == bytes
    {
      remaining := bytes;
    }

    method Take(length: nat) returns (value: Option<Bytes>)
      modifies this
      ensures |old(remaining)| < length ==> value == None && remaining == old(remaining)
      ensures |old(remaining)| >= length ==>
        value == Some(old(remaining)[..length]) && remaining == old(remaining)[length..]
    {
      if |remaining| < length {
        return None;
      }
      value := Some(remaining[..length]);
      remaining := remaining[length..];
    }

    method TakeUnsigned(width: nat) returns (value: Option<nat>)
      modifies this
      ensures value.None? <==> TakeInt(width, old(remaining)).None?
      ensures value.Some? ==> TakeInt(width, old(remaining)) == Some((value.value, remaining))
    {
      var raw := Take(width);
      if raw.None? {
        return None;
      }
      return Some(FromBigEndian(raw.value));
    }

    method TakeText() returns (value: Option<Utf8>)
      modifies this
      ensures value.None? <==> TakeString(old(remaining)).None?
      ensures value.Some? ==> TakeString(old(remaining)) == Some((value.value, remaining))
    {
      var length := TakeUnsigned(2);
      if length.None? {
        return None;
      }
      var raw := Take(length.value);
      if raw.None? || !IsUtf8(raw.value) {
        return None;
      }
      return Some(raw.value);
    }
  }

  /** The reference list, read one 64-byte digest at a time. */
  method TakeReferences(cursor: Cursor, count: nat) returns (refs: Option<seq<Utf8>>)
    modifies cursor
    ensures refs.None? <==> TakeRefs(count, old(cursor.remaining)).None?
    ensures refs.Some? ==> TakeRefs(count, old(cursor.remaining)) == Some((refs.value, cursor.remaining))
  {
    hide IsUtf8;
    var read: seq<Utf8> := [];
    ghost var all := TakeRefs(count, cursor.remaining);
    assert all.Some? ==> [] + all.value.0 == all.value.0;
    for i := 0 to count
      invariant var rest := TakeRefs(count - i, cursor.remaining);
        all == if rest.None? then None else Some((read + rest.value.0, rest.value.1))
    {
      ghost var before := cursor.remaining;
      var raw := cursor.Take(64);
      if raw.None? || !IsUtf8(raw.value) {
        return None;
      }
      ghost var tail := TakeRefs(count - i - 1, before[64..]);
      assert tail.Some? ==> read + ([raw.value] + tail.value.0) == read + [raw.value] + tail.value.0;
      read := read + [raw.value];
    }
    assert read + [] == read;
    return Some(read);
  }

  method ReadHeader(bytes: Bytes) returns (header: Option<Header>)
    ensures header == DecodeHeader(bytes)
  {
    hide TakeInt, TakeString, TakeRefs;
    PowerValues();
    var cursor := new Cursor(bytes);
    var version := cursor.TakeUnsigned(2);
    if version.None? { return None; }
    ghost var s := cursor.remaining;
    var generation := cursor.TakeUnsigned(8);
    if generation.None? { return None; }
    GenerationFits(s);
    var recordId := cursor.TakeText();
    if recordId.None? { return None; }
    var observationId := cursor.TakeText();
    if observationId.None? { return None; }
    var count := cursor.TakeUnsigned(2);
    if count.None? { return None; }
    var refs := TakeReferences(cursor, count.value);
    if refs.None? { return None; }
    var payload := cursor.TakeUnsigned(8);
    if payload.None? { return None; }
    if cursor.remaining != [] { return None; }
    return Some(Header(version.value, generation.value, recordId.value, observationId.value, refs.value, payload.value));
  }

  lemma GenerationFits(s: Bytes)
    requires TakeInt(8, s).Some?
    ensures TakeInt(8, s).value.0 <= U64_MAX
  {
    PowerValues();
    OfTakeInt(8, s);
  }

  /** One round of the scanner's loop: everything it decides about the bytes that remain. */
  method ParseRemaining(remaining: Bytes) returns (parsed: Parsed)
    requires remaining != []
    ensures parsed == ParseFrame(remaining)
  {
    hide DecodeHeader, Checksum, FromBigEndian;
    if |remaining| < PREFIX_LENGTH {
      if !(remaining[..Min(|remaining|, |MAGIC|)] <= MAGIC) {
        return Bad(Corrupt);
      }
      return Incomplete;
    }
    if remaining[..8] != MAGIC {
      return Bad(Corrupt);
    }
    if FromBigEndian(remaining[8..10]) != FRAME_VERSION {
      return Bad(Corrupt);
    }
    var headerLength := FromBigEndian(remaining[10..14]);
    var bodyLength := FromBigEndian(remaining[14..22]);
    if bodyLength > MAX_RECORD_BODY {
      return Bad(Oversize);
    }
    var frameLength := PREFIX_LENGTH + headerLength + bodyLength + |TRAILER|;
    if |remaining| < frameLength {
      return Incomplete;
    }
    var bodyStart := PREFIX_LENGTH + headerLength;
    var trailerStart := bodyStart + bodyLength;
    var headerBytes := remaining[PREFIX_LENGTH..bodyStart];
    var body := remaining[bodyStart..trailerStart];
    ghost var f := remaining[..frameLength];
    assert headerBytes == f[PREFIX_LENGTH..bodyStart] && body == f[bodyStart..trailerStart];
    assert remaining[trailerStart..frameLength] == f[trailerStart..] && remaining[22..54] == f[22..54];
    if remaining[trailerStart..frameLength] != TRAILER || remaining[22..54] != Checksum(headerBytes, body) {
      return Bad(Corrupt);
    }
    var header := ReadHeader(headerBytes);
    if header.None? {
      return Bad(Corrupt);
    }
    var h := header.value;
    var record := SpoolRecord(h.generation, h.recordId, h.observationId, h.casRefs, body);
    if h.version != FRAME_VERSION || h.payload != bodyLength || !ValidRecord(record) {
      return Bad(Corrupt);
    }
    return Complete(record, frameLength);
  }
}
