/** Bounded pages over a sealed segment (`claimed_segments_inner`, `SealedSegment::continuation`). */
module Paging {
  import opened Prelude
  import opened Record
  import opened Scanner
  import opened Validator

  const PAGE_BYTES: nat := 8_388_608
  const PAGE_FRAMES: nat := 256
  const PAGE_CAS: nat := 62_914_560
  const CAS_OVERHEAD: u64 := 4096

  datatype SealedFrame = SealedFrame(record: SpoolRecord, byteStart: nat, byteEnd: nat)

  datatype Page = Page(start: nat, frames: seq<SealedFrame>, end: nat)

  /** What a frame charges against the page's CAS budget; an undecodable body charges nothing. */
  function Charge(r: SpoolRecord): nat {
    match DecodeValidated(r)
    case None => 0
    case Some(body) => SaturatingAdd(body.protectedLength, CAS_OVERHEAD)
  }

  predicate Fits(r: SpoolRecord) { Charge(r) <= PAGE_CAS }

  /** How many frames `take(limit).take_while(budget)` keeps. */
  function Kept(frames: seq<DecodedFrame>, limit: nat, budget: nat): (k: nat)
    ensures k <= |frames|
  {
    if frames == [] || limit == 0 || Charge(frames[0].record) > budget then 0
    else 1 + Kept(frames[1..], limit - 1, budget - Charge(frames[0].record))
  }

  function Place(frames: seq<DecodedFrame>, offset: nat): (placed: seq<SealedFrame>)
    ensures |placed| == |frames|
  {
    if frames == [] then [] else
      [SealedFrame(frames[0].record, offset, offset + frames[0].length)]
        + Place(frames[1..], offset + frames[0].length)
  }

  function Span(frames: seq<DecodedFrame>): nat {
    if frames == [] then 0 else frames[0].length + Span(frames[1..])
  }

  /** The bytes a page may look at. */
  function Window(file: Bytes, start: nat): Bytes
    requires start <= |file|
  {
    file[start..start + Min(|file| - start, PAGE_BYTES)]
  }

  /** The carrier cannot be read from here: the condition on which ingress quarantines it. */
  ghost predicate Unreadable(c: Codec, file: Bytes, start: nat)
    requires Sound(c) && start <= |file|
  {
    var w := Window(file, start);
    match Scan(c, w)
    case Err(_) => true
    case Ok(scan) => (|w| == |file| - start && scan.incompleteTail) || scan.frames == []
  }

  ghost function ReadPage(c: Codec, file: Bytes, start: nat): Result<Page, SpoolError>
    requires Sound(c) && start <= |file|
  {
    match Scan(c, Window(file, start))
    case Err(e) => Err(FromFrameError(e))
    case Ok(scan) =>
      if Unreadable(c, file, start) then Err(SpoolCorrupt) else
      var kept := scan.frames[..Kept(scan.frames, PAGE_FRAMES, PAGE_CAS)];
      if kept == [] then Err(ResourceExhausted)
      else Ok(Page(start, Place(kept, start), start + Span(kept)))
  }

  /* ---------- the reader's loop ---------- */

  method ReadPageAt(c: Codec, file: Bytes, start: nat) returns (result: Result<Page, SpoolError>)
    requires Sound(c) && start <= |file|
    ensures result == ReadPage(c, file, start)
  {
    hide Inverts, Detects, Exact, Stable, Scan;
    var available := |file| - start;
    var readLength := Min(available, PAGE_BYTES);
    var bytes := file[start..start + readLength];
    var scan := ScanFrames(c, bytes);
    if scan.Err? {
      return Err(FromFrameError(scan.error));
    }
    var scanned := scan.value.frames;
    if (readLength == available && scan.value.incompleteTail) || scanned == [] {
      return Err(SpoolCorrupt);
    }
    var frames, offset := TakeFrames(scanned, start);
    if frames == [] {
      return Err(ResourceExhausted);
    }
    return Ok(Page(start, frames, offset));
  }

  /** The page's frame and CAS budgets, spent frame by frame. */
  method TakeFrames(scanned: seq<DecodedFrame>, start: nat) returns (frames: seq<SealedFrame>, offset: nat)
    ensures frames == Place(scanned[..Kept(scanned, PAGE_FRAMES, PAGE_CAS)], start)
    ensures offset == start + Span(scanned[..Kept(scanned, PAGE_FRAMES, PAGE_CAS)])
  {
    hide Charge;
    var budget, i := PAGE_CAS, 0;
    offset, frames := start, [];
    assert scanned[0..] == scanned;
    while i < |scanned| && i < PAGE_FRAMES && Charge(scanned[i].record) <= budget
      invariant 0 <= i <= |scanned| && i <= PAGE_FRAMES && budget >= 0
      invariant Kept(scanned, PAGE_FRAMES, PAGE_CAS) == i + Kept(scanned[i..], PAGE_FRAMES - i, budget)
      invariant frames == Place(scanned[..i], start) && offset == start + Span(scanned[..i])
    {
      assert scanned[i..][1..] == scanned[i + 1..];
      assert scanned[..i + 1] == scanned[..i] + [scanned[i]];
      PlaceSnoc(scanned[..i], scanned[i], start);
      budget := budget - Charge(scanned[i].record);
      frames := frames + [SealedFrame(scanned[i].record, offset, offset + scanned[i].length)];
      offset := offset + scanned[i].length;
      i := i + 1;
    }
  }

  lemma {:induction false} PlaceAppend(a: seq<DecodedFrame>, b: seq<DecodedFrame>, offset: nat)
    ensures Place(a + b, offset) == Place(a, offset) + Place(b, offset + Span(a))
    ensures Span(a + b) == Span(a) + Span(b)
  {
    if a == [] {
      assert a + b == b;
    } else {
      var next := offset + a[0].length;
      assert (a + b)[1..] == a[1..] + b;
      PlaceAppend(a[1..], b, next);
      var head := [SealedFrame(a[0].record, offset, next)];
      assert Place(a + b, offset) == head + (Place(a[1..], next) + Place(b, next + Span(a[1..])));
      assert head + (Place(a[1..], next) + Place(b, next + Span(a[1..])))
        == (head + Place(a[1..], next)) + Place(b, next + Span(a[1..]));
    }
  }

  lemma PlaceSnoc(a: seq<DecodedFrame>, f: DecodedFrame, offset: nat)
    ensures Place(a + [f], offset)
         == Place(a, offset) + [SealedFrame(f.record, offset + Span(a), offset + Span(a) + f.length)]
    ensures Span(a + [f]) == Span(a) + f.length
  {
    PlaceAppend(a, [f], offset);
    assert [f][1..] == [];
  }

  /* ---------- what one page of a clean segment holds ---------- */

  lemma {:induction false} EncodeAppend(c: Codec, a: seq<SpoolRecord>, b: seq<SpoolRecord>)
    ensures EncodeAll(c, a + b) == EncodeAll(c, a) + EncodeAll(c, b)
  {
    if a == [] {
      assert a + b == b;
    } else {
      assert (a + b)[1..] == a[1..] + b;
      EncodeAppend(c, a[1..], b);
    }
  }

  lemma {:induction false} SpanDecoded(c: Codec, rs: seq<SpoolRecord>)
    ensures Span(Decoded(c, rs)) == |EncodeAll(c, rs)|
  {
    if rs != [] {
      assert Decoded(c, rs)[1..] == Decoded(c, rs[1..]);
      SpanDecoded(c, rs[1..]);
    }
  }

  lemma ScanOfEncoded(c: Codec, rs: seq<SpoolRecord>)
    requires Sound(c) && AllAccepted(c, rs)
    ensures Scan(c, EncodeAll(c, rs)) == Ok(FrameScan(Decoded(c, rs), |EncodeAll(c, rs)|, false))
  {
    ScanEncoded(c, rs, []);
    assert EncodeAll(c, rs) + [] == EncodeAll(c, rs);
    assert Decoded(c, rs) + [] == Decoded(c, rs);
  }

  lemma CleanIsEncoded(c: Codec, s: Bytes)
    requires Sound(c) && Clean(c, s)
    ensures var rs := Records(Scan(c, s).value.frames);
      && AllAccepted(c, rs) && s == EncodeAll(c, rs) && Scan(c, s).value.frames == Decoded(c, rs)
  {
    EncodeScanned(c, s);
    assert s[..|s|] == s;
  }

  lemma {:induction false} KeptFits(frames: seq<DecodedFrame>, limit: nat, budget: nat)
    requires budget <= PAGE_CAS
    ensures forall i :: 0 <= i < Kept(frames, limit, budget) ==> Fits(frames[i].record)
  {
    if frames == [] || limit == 0 || Charge(frames[0].record) > budget {
    } else {
      KeptFits(frames[1..], limit - 1, budget - Charge(frames[0].record));
      forall i | 0 <= i < Kept(frames, limit, budget) ensures Fits(frames[i].record) {
        if i > 0 {
          assert frames[i] == frames[1..][i - 1];
        }
      }
    }
  }

  /** The CAS bytes a run of frames charges. */
  function Charges(frames: seq<DecodedFrame>): nat {
    if frames == [] then 0 else Charge(frames[0].record) + Charges(frames[1..])
  }

  /** The frames kept are within both budgets, and one more would exceed one of them. */
  lemma {:induction false} KeptIsMaximal(frames: seq<DecodedFrame>, limit: nat, budget: nat)
    ensures var k := Kept(frames, limit, budget);
      && k <= limit && Charges(frames[..k]) <= budget
      && (k < |frames| ==> k == limit || Charges(frames[..k + 1]) > budget)
  {
    hide Charge;
    if frames == [] || limit == 0 || Charge(frames[0].record) > budget {
      if frames != [] {
        assert frames[..1][1..] == [];
      }
    } else {
      KeptIsMaximal(frames[1..], limit - 1, budget - Charge(frames[0].record));
      var k := Kept(frames, limit, budget);
      assert frames[..k][1..] == frames[1..][..k - 1];
      if k < |frames| {
        assert frames[..k + 1][1..] == frames[1..][..k];
      }
    }
  }

  lemma {:induction false} PlacedRecords(frames: seq<DecodedFrame>, offset: nat, i: nat)
    requires i < |frames|
    ensures Place(frames, offset)[i].record == frames[i].record
  {
    if i > 0 {
      PlacedRecords(frames[1..], offset + frames[0].length, i - 1);
    }
  }

  /**
   * A page holds the longest run of frames at the front of its window that is within both budgets: at most 256
   * frames, charges of at most 60 MiB together, and with the window's next frame one of the two would be exceeded.
   */
  lemma PageIsMaximal(c: Codec, file: Bytes, start: nat)
    requires Sound(c) && start <= |file| && ReadPage(c, file, start).Ok?
    ensures var page, frames := ReadPage(c, file, start).value.frames, Scan(c, Window(file, start)).value.frames;
      && 0 < |page| <= |frames| && |page| <= 256
      && (forall i :: 0 <= i < |page| ==> page[i].record == frames[i].record)
      && Charges(frames[..|page|]) <= 60 * 1024 * 1024
      && (|page| < |frames| ==> |page| == 256 || Charges(frames[..|page| + 1]) > 60 * 1024 * 1024)
  {
    hide Inverts, Detects, Exact, Stable, Scan, Charge, Kept, Place, Charges;
    var frames := Scan(c, Window(file, start)).value.frames;
    var k := Kept(frames, PAGE_FRAMES, PAGE_CAS);
    KeptIsMaximal(frames, PAGE_FRAMES, PAGE_CAS);
    forall i | 0 <= i < k ensures Place(frames[..k], start)[i].record == frames[i].record {
      PlacedRecords(frames[..k], start, i);
    }
  }

  /** The window onto a clean rest scans to a non-empty prefix of its frames. */
  lemma WindowScan(c: Codec, file: Bytes, start: nat, rs: seq<SpoolRecord>)
    requires Sound(c) && start <= |file| && AllAccepted(c, rs) && rs != []
    requires file[start..] == EncodeAll(c, rs)
    ensures Scan(c, Window(file, start)).Ok? && !Unreadable(c, file, start)
    ensures var frames := Scan(c, Window(file, start)).value.frames;
      0 < |frames| <= |rs| && frames == Decoded(c, rs)[..|frames|]
  {
    hide Inverts, Detects, Exact, Stable, Scan, EncodeAll;
    var w, rest := Window(file, start), file[start + |Window(file, start)|..];
    assert w + rest == file[start..];
    ScanOfEncoded(c, rs);
    RemainderBound(c, w, rest);
    ScanExtend(c, w, rest);
    var scan := Scan(c, w).value;
    var tail := Scan(c, w[scan.completeLength..] + rest);
    assert Decoded(c, rs) == scan.frames + tail.value.frames;
    assert |rs| == |Decoded(c, rs)| == |scan.frames| + |tail.value.frames|;
    EncodeScanned(c, w);
    EmptyEncoding(c);
    assert scan.frames == [] ==> Records(scan.frames) == [];
    assert |w| == |file| - start ==> rest == [] && w + rest == w;
  }

  lemma EmptyEncoding(c: Codec)
    ensures EncodeAll(c, []) == []
  {}

  /**
   * One page of a clean rest: it fails exactly when the first record exceeds the CAS budget, and
   * otherwise holds a non-empty run of the records, placed at their bytes, ending at a frame boundary.
   */
  lemma PageOfClean(c: Codec, file: Bytes, start: nat, rs: seq<SpoolRecord>) returns (k: nat)
    requires Sound(c) && start <= |file| && AllAccepted(c, rs) && rs != []
    requires file[start..] == EncodeAll(c, rs)
    ensures !Fits(rs[0]) ==> ReadPage(c, file, start) == Err(ResourceExhausted)
    ensures Fits(rs[0]) ==> 0 < k <= |rs|
    ensures Fits(rs[0]) ==>
      ReadPage(c, file, start) == Ok(Page(start, Place(Decoded(c, rs[..k]), start), start + |EncodeAll(c, rs[..k])|))
    ensures Fits(rs[0]) ==> start < start + |EncodeAll(c, rs[..k])| <= |file|
    ensures Fits(rs[0]) ==> file[start + |EncodeAll(c, rs[..k])|..] == EncodeAll(c, rs[k..])
    ensures Fits(rs[0]) ==> forall i :: 0 <= i < k ==> Fits(rs[i])
  {
    hide Inverts, Detects, Exact, Stable, Scan;
    WindowScan(c, file, start, rs);
    var frames := Scan(c, Window(file, start)).value.frames;
    k := Kept(frames, PAGE_FRAMES, PAGE_CAS);
    if Fits(rs[0]) {
      assert rs == rs[..k] + rs[k..];
      EncodeAppend(c, rs[..k], rs[k..]);
      var n := |EncodeAll(c, rs[..k])|;
      assert file[start..][n..] == file[start + n..];
      assert frames[..k] == Decoded(c, rs[..k]);
      SpanDecoded(c, rs[..k]);
      KeptFits(frames, PAGE_FRAMES, PAGE_CAS);
      assert forall i :: 0 <= i < k ==> frames[i].record == rs[i];
      FrameNotEmpty(c, rs[..k]);
    }
  }

  lemma FrameNotEmpty(c: Codec, rs: seq<SpoolRecord>)
    requires Sound(c) && AllAccepted(c, rs) && rs != []
    ensures EncodeAll(c, rs) != []
  {
    assert c.frame(rs[0]) != [];
  }

  /* ---------- reading a whole segment page by page ---------- */

  /** Any page is whole frames: the bytes between its ends are the encoding of its records. */
  lemma PageIsEncoded(c: Codec, file: Bytes, start: nat) returns (rs: seq<SpoolRecord>)
    requires Sound(c) && start <= |file| && ReadPage(c, file, start).Ok?
    ensures AllAccepted(c, rs) && rs != []
    ensures var page := ReadPage(c, file, start).value;
      && page.start == start < page.end <= |file|
      && page.frames == Place(Decoded(c, rs), start)
      && file[start..page.end] == EncodeAll(c, rs)
  {
    hide Inverts, Detects, Exact, Stable, Scan;
    var w := Window(file, start);
    EncodeScanned(c, w);
    var scan := Scan(c, w).value;
    var all, k := Records(scan.frames), Kept(scan.frames, PAGE_FRAMES, PAGE_CAS);
    rs := all[..k];
    assert all == rs + all[k..];
    EncodeAppend(c, rs, all[k..]);
    assert scan.frames[..k] == Decoded(c, rs);
    SpanDecoded(c, rs);
    FrameNotEmpty(c, rs);
    var n := |EncodeAll(c, rs)|;
    assert w[..scan.completeLength][..n] == w[..n] == file[start..start + n];
  }

  lemma PageProgress(c: Codec, file: Bytes, start: nat)
    requires Sound(c) && start <= |file| && ReadPage(c, file, start).Ok?
    ensures var page := ReadPage(c, file, start).value;
      page.start == start && page.frames != [] && start < page.end <= |file|
  {
    var rs := PageIsEncoded(c, file, start);
  }

  /** Follow `continuation` until a page ends the segment. */
  ghost function ReadAll(c: Codec, file: Bytes, start: nat): Result<seq<Page>, SpoolError>
    requires Sound(c) && start <= |file|
    decreases |file| - start
  {
    match ReadPage(c, file, start)
    case Err(e) => Err(e)
    case Ok(page) =>
      PageProgress(c, file, start);
      if page.end == |file| then Ok([page]) else
      match ReadAll(c, file, page.end)
      case Err(e) => Err(e)
      case Ok(pages) => Ok([page] + pages)
  }

  function AllFrames(pages: seq<Page>): seq<SealedFrame> {
    if pages == [] then [] else pages[0].frames + AllFrames(pages[1..])
  }

  /** The pages tile the byte range from `start` to `end`, none of them empty. */
  ghost predicate Tiles(pages: seq<Page>, start: nat, end: nat) {
    if pages == [] then start == end
    else pages[0].start == start && pages[0].frames != [] && start < pages[0].end && Tiles(pages[1..], pages[0].end, end)
  }

  lemma FitsSplit(rs: seq<SpoolRecord>, k: nat)
    requires k <= |rs| && forall i :: 0 <= i < k ==> Fits(rs[i])
    ensures (forall i :: 0 <= i < |rs| ==> Fits(rs[i])) <==> forall i :: 0 <= i < |rs[k..]| ==> Fits(rs[k..][i])
  {
    hide Fits;
    assert forall i :: k <= i < |rs| ==> rs[i] == rs[k..][i - k];
    assert forall i :: 0 <= i < |rs[k..]| ==> rs[k..][i] == rs[i + k];
  }

  lemma {:induction false} ReadAllFrom(c: Codec, file: Bytes, start: nat, rs: seq<SpoolRecord>)
    requires Sound(c) && start <= |file| && AllAccepted(c, rs) && rs != []
    requires file[start..] == EncodeAll(c, rs)
    ensures ReadAll(c, file, start).Ok? <==> forall i :: 0 <= i < |rs| ==> Fits(rs[i])
    ensures ReadAll(c, file, start).Err? ==> ReadAll(c, file, start).error == ResourceExhausted
    ensures ReadAll(c, file, start).Ok? ==> var pages := ReadAll(c, file, start).value;
      AllFrames(pages) == Place(Decoded(c, rs), start) && Tiles(pages, start, |file|)
    decreases |rs|
  {
    hide Sound, Scan, ReadPage, Fits;
    var k := PageOfClean(c, file, start, rs);
    if Fits(rs[0]) {
      PageProgress(c, file, start);
      var page := ReadPage(c, file, start).value;
      var rest := rs[k..];
      assert |file[page.end..]| == |EncodeAll(c, rest)|;
      assert Decoded(c, rs) == Decoded(c, rs[..k]) + Decoded(c, rest);
      PlaceAppend(Decoded(c, rs[..k]), Decoded(c, rest), start);
      SpanDecoded(c, rs[..k]);
      FitsSplit(rs, k);
      if rest == [] {
        assert AllFrames([page]) == page.frames + AllFrames([page][1..]);
        assert Place(Decoded(c, rest), page.end) == [];
        assert Tiles([page][1..], page.end, |file|);
      } else {
        FrameNotEmpty(c, rest);
        ReadAllFrom(c, file, page.end, rest);
        if ReadAll(c, file, page.end).Ok? {
          var pages := ReadAll(c, file, page.end).value;
          assert ([page] + pages)[1..] == pages;
        }
      }
    }
  }

  /**
   * Exactly once: over a clean non-empty segment, following the continuation from the beginning
   * completes if and only if every decodable body fits the CAS budget, and then the pages are
   * non-empty, contiguous, and together are the whole scan in order.
   */
  lemma PagesAreExactlyOnce(c: Codec, file: Bytes)
    requires Sound(c) && file != [] && Clean(c, file)
    ensures ReadAll(c, file, 0).Ok? <==> forall f :: f in Scan(c, file).value.frames ==> Fits(f.record)
    ensures ReadAll(c, file, 0).Err? ==> ReadAll(c, file, 0).error == ResourceExhausted
    ensures ReadAll(c, file, 0).Ok? ==> var pages := ReadAll(c, file, 0).value;
      AllFrames(pages) == Place(Scan(c, file).value.frames, 0) && Tiles(pages, 0, |file|)
  {
    hide Inverts, Detects, Exact, Stable, Scan, ReadPage, ReadAll;
    CleanIsEncoded(c, file);
    var frames := Scan(c, file).value.frames;
    var rs := Records(frames);
    assert file[0..] == file;
    EmptyEncoding(c);
    ReadAllFrom(c, file, 0, rs);
    assert forall i :: 0 <= i < |rs| ==> rs[i] == frames[i].record;
  }

  /** `acknowledge_segment` accepts only the page that ends the segment, with all its frames committed. */
  predicate Acknowledgeable(page: Page, length: nat, committed: nat) {
    page.end == length && committed == |page.frames| && committed != 0
  }

  lemma {:induction false} OnlyLastPageAcknowledges(pages: seq<Page>, start: nat, length: nat, i: nat)
    requires Tiles(pages, start, length) && i < |pages|
    ensures Acknowledgeable(pages[i], length, |pages[i].frames|) <==> i == |pages| - 1
  {
    TilesBound(pages[1..], pages[0].end, length);
    if i > 0 {
      OnlyLastPageAcknowledges(pages[1..], pages[0].end, length, i - 1);
    } else if |pages| > 1 {
      TilesBound(pages[1..][1..], pages[1].end, length);
    }
  }

  lemma {:induction false} TilesBound(pages: seq<Page>, start: nat, end: nat)
    requires Tiles(pages, start, end)
    ensures start <= end
  {
    if pages != [] {
      TilesBound(pages[1..], pages[0].end, end);
    }
  }
}
