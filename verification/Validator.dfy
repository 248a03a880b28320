/** Errors of the spool and the chunked re-validation of the active file (`validate_active_file`). */
module Validator {
  import opened Prelude
  import opened Record
  import opened Scanner

  datatype SpoolError =
    | Busy | RecoveryRequired | InvalidConfiguration | FrameInvalid | Pressure | Unavailable
    | ResourceExhausted | InvalidAcknowledgement | IdentityChanged | DuplicateRecord
    | SpoolCorrupt | Io

  function FromFrameError(e: FrameError): SpoolError {
    match e
    case Oversize => ResourceExhausted
    case Corrupt => SpoolCorrupt
    case Invalid => FrameInvalid
  }

  const CHUNK: nat := 65_536
  const PENDING_CAP: nat := 8_388_608

  /** The whole input is complete frames. */
  ghost predicate Clean(c: Codec, s: Bytes)
    requires Sound(c)
  {
    Scan(c, s).Ok? && !Scan(c, s).value.incompleteTail
  }

  /** A remainder left over by a scan of a prefix of a clean input is shorter than one frame. */
  lemma RemainderBound(c: Codec, p: Bytes, rest: Bytes)
    requires Sound(c) && Clean(c, p + rest)
    ensures Scan(c, p).Ok? && Scan(c, p).value.completeLength <= |p|
    ensures |p| - Scan(c, p).value.completeLength < MAX_FRAME
  {
    hide Inverts, Detects, Exact, Stable, Scan;
    ScanExtend(c, p, rest);
    RemainderScan(c, p);
    EncodeScanned(c, p);
    var tail := p[Scan(c, p).value.completeLength..];
    if tail != [] {
      IncompleteIsShort(c, tail, rest);
    }
  }

  lemma IncompleteIsShort(c: Codec, tail: Bytes, rest: Bytes)
    requires Sound(c) && tail != [] && Scan(c, tail) == Ok(FrameScan([], 0, true))
    requires Clean(c, tail + rest)
    ensures |tail| < MAX_FRAME
  {
    var whole := tail + rest;
    assert c.parse(tail).Incomplete?;
    assert c.parse(whole).Complete?;
    var r, n := c.parse(whole).record, c.parse(whole).length;
    ParsedIsFramed(c, whole);
    assert n <= |tail| ==> whole[..n] == tail[..n] && tail == tail[..n] + tail[n..];
  }

  /** Reading on from a scanned prefix. */
  lemma ScanStep(c: Codec, file: Bytes, from: nat, to: nat)
    requires Sound(c) && from <= to <= |file| && Scan(c, file[..from]).Ok?
    ensures Scan(c, file[..from]).value.completeLength <= from
    ensures var done := Scan(c, file[..from]).value;
      Scan(c, file[..to]) == After(done.frames, done.completeLength, Scan(c, file[done.completeLength..to]))
  {
    hide Inverts, Detects, Exact, Stable, Scan;
    ScanExtend(c, file[..from], file[from..to]);
    var m := Scan(c, file[..from]).value.completeLength;
    assert file[..from] + file[from..to] == file[..to];
    assert file[..from][m..] + file[from..to] == file[m..to];
  }

  /** A rejected prefix, or one whose remainder outgrew the cap, rules the whole file out. */
  lemma PrefixDecides(c: Codec, file: Bytes, to: nat)
    requires Sound(c) && to <= |file|
    requires Scan(c, file[..to]).Err? || to - Scan(c, file[..to]).value.completeLength > PENDING_CAP
    ensures !Clean(c, file)
  {
    hide Inverts, Detects, Exact, Stable, Scan;
    assert file[..to] + file[to..] == file;
    if Clean(c, file) {
      RemainderBound(c, file[..to], file[to..]);
    }
  }

  /**
   * Chunked validation that drains complete frames as it goes.  It accepts exactly the files within
   * the limit that one scan of the whole file finds clean; `sameIdentity` is the identity check at its end.
   */
  method ValidateActiveFile(c: Codec, file: Bytes, maxBytes: nat, sameIdentity: bool) returns (result: Result<(), SpoolError>)
    requires Sound(c)
    ensures result.Ok? <==> |file| <= maxBytes && Clean(c, file) && sameIdentity
    ensures result.Err? ==> !result.error.Pressure?
  {
    hide Inverts, Detects, Exact, Stable, Scan;
    if |file| > maxBytes {
      return Err(ResourceExhausted);
    }
    var remaining: nat := |file|;
    var pending: Bytes := [];
    ghost var consumed: nat := 0;
    EmptyScan(c);
    assert file[..0] == [];
    while remaining != 0
      invariant consumed == |file| - remaining
      invariant Scan(c, file[..consumed]).Ok?
      invariant Scan(c, file[..consumed]).value.completeLength <= consumed
      invariant pending == file[Scan(c, file[..consumed]).value.completeLength..consumed]
    {
      var length := Min(remaining, CHUNK);
      ghost var done := Scan(c, file[..consumed]).value;
      pending := pending + file[|file| - remaining..|file| - remaining + length];
      assert pending == file[done.completeLength..consumed + length];
      ScanStep(c, file, consumed, consumed + length);
      consumed := consumed + length;
      var scan := ScanFrames(c, pending);
      if scan.Err? {
        PrefixDecides(c, file, consumed);
        return Err(FromFrameError(scan.error));
      }
      RemainderScan(c, pending);
      pending := pending[scan.value.completeLength..];
      if |pending| > PENDING_CAP {
        PrefixDecides(c, file, consumed);
        return Err(ResourceExhausted);
      }
      remaining := remaining - length;
    }
    assert file[..consumed] == file;
    EncodeScanned(c, file);
    if pending != [] {
      return Err(SpoolCorrupt);
    }
    if !sameIdentity {
      return Err(IdentityChanged);
    }
    return Ok(());
  }

  lemma EmptyScan(c: Codec)
    requires Sound(c)
    ensures Scan(c, []) == Ok(FrameScan([], 0, false))
  {}
}
