/** The results about any sound codec, stated for the spool's own frame codec, and two that span components. */
module Evertrace {
  import opened Prelude
  import opened Record
  import opened Scanner
  import opened Validator
  import opened Paging
  import opened SpoolState
  import opened SpoolRuns
  import opened Frame
  import Capture
  import BlobDurability

  /** Encoded records plus a strict prefix of one more frame scan to exactly those records and a torn-tail flag. */
  lemma TornLogIsRecovered(rs: seq<SpoolRecord>, last: SpoolRecord, k: nat)
    requires (forall i :: 0 <= i < |rs| ==> Encodable(rs[i])) && Encodable(last) && k < |FrameBytes(last)|
    ensures Sound(FRAME_CODEC)
    ensures Scan(FRAME_CODEC, EncodeAll(FRAME_CODEC, rs) + FrameBytes(last)[..k])
         == Ok(FrameScan(Decoded(FRAME_CODEC, rs), |EncodeAll(FRAME_CODEC, rs)|, k != 0))
  {
    hide Sound, Encodable, FrameBytes;
    FrameCodecIsSound();
    ScanTorn(FRAME_CODEC, rs, last, k);
  }

  /** And whatever a scan accepts of any bytes is byte for byte the encoding of what it returned. */
  lemma AcceptedBytesAreEncoded(s: Bytes)
    ensures Sound(FRAME_CODEC)
    ensures Scan(FRAME_CODEC, s).Ok? ==>
      var scan := Scan(FRAME_CODEC, s).value; var rs := Records(scan.frames);
      && scan.completeLength <= |s| && s[..scan.completeLength] == EncodeAll(FRAME_CODEC, rs)
      && (forall i :: 0 <= i < |rs| ==> Encodable(rs[i]))
      && (scan.incompleteTail <==> scan.completeLength < |s|)
  {
    hide Sound, Scan, Encodable;
    FrameCodecIsSound();
    if Scan(FRAME_CODEC, s).Ok? {
      EncodeScanned(FRAME_CODEC, s);
      var rs := Records(Scan(FRAME_CODEC, s).value.frames);
      forall i | 0 <= i < |rs| ensures Encodable(rs[i]) {
        assert FRAME_CODEC.accepts(rs[i]);
      }
    }
  }

  /** Durability, integrity and quota of every run of the spool from an empty directory. */
  lemma EverySpoolRun(l: Limits, es: seq<Event>)
    ensures Sound(FRAME_CODEC)
    ensures var s := Run(FRAME_CODEC, l, EMPTY, es);
      && FilesOk(FRAME_CODEC, s) && NothingInvented(FRAME_CODEC, s) && DeliveredFirst(FRAME_CODEC, s)
      && (SecureAtLosses(FRAME_CODEC, l, EMPTY, es) ==> Accounted(FRAME_CODEC, s))
      && ((forall loss :: Accounted(FRAME_CODEC, PowerLoss(s, loss))) <==> Secure(FRAME_CODEC, s))
      && (AllEntriesComplete(FRAME_CODEC, l, EMPTY, es) ==> Accounted(FRAME_CODEC, s))
      && (l.high < U64_MAX ==> WithinQuota(l, s))
  {
    hide Sound, FilesOk, NothingInvented, DeliveredFirst, Accounted, AllEntriesComplete, Run, SecureAtLosses, Secure, PowerLoss;
    FrameCodecIsSound();
    EveryRunIsDurable(FRAME_CODEC, l, es);
    if AllEntriesComplete(FRAME_CODEC, l, EMPTY, es) {
      DurableWhenEntriesComplete(FRAME_CODEC, l, es);
    }
    if l.high < U64_MAX {
      RunQuota(FRAME_CODEC, l, EMPTY, es);
    }
  }

  lemma StoredWasAttempted(c: Codec, s: State, name: Name, r: SpoolRecord)
    requires Sound(c) && NothingInvented(c, s) && name in s.sealed && r in WholeFrames(c, s.sealed[name].bytes)
    ensures r in s.history.attempted
  {
    hide WholeFrames, Sound;
    GatherSplit(s.sealed, StoredBy(c), name);
    ViewOf(c, s.sealed[name]);
    assert r in Across(s, StoredBy(c));
  }

  /**
   * From append to ingestion: if every record ever handed to an append fits a page's CAS budget, then after any
   * run every healthy sealed segment can be read to its end page by page, and the pages are its scan.
   */
  lemma HealthySegmentsAreIngestible(l: Limits, es: seq<Event>, name: Name)
    requires Sound(FRAME_CODEC)
    requires var s := Run(FRAME_CODEC, l, EMPTY, es);
      && (forall r :: r in s.history.attempted ==> Fits(r))
      && name in s.sealed && Healthy(FRAME_CODEC, s.sealed[name].bytes)
    ensures var file := Run(FRAME_CODEC, l, EMPTY, es).sealed[name].bytes;
      var pages := ReadAll(FRAME_CODEC, file, 0);
      && pages.Ok? && Tiles(pages.value, 0, |file|)
      && AllFrames(pages.value) == Place(Scan(FRAME_CODEC, file).value.frames, 0)
  {
    hide Sound, Run, Healthy, ReadAll, Tiles, Fits, FilesOk, DeliveredFirst, NothingInvented, Accounted, AllEntriesComplete, SecureAtLosses, Secure, PowerLoss;
    EverySpoolRun(l, es);
    SegmentPages(FRAME_CODEC, Run(FRAME_CODEC, l, EMPTY, es), name);
  }

  lemma SegmentPages(c: Codec, s: State, name: Name)
    requires Sound(c) && NothingInvented(c, s) && (forall r :: r in s.history.attempted ==> Fits(r))
    requires name in s.sealed && Healthy(c, s.sealed[name].bytes)
    ensures ReadAll(c, s.sealed[name].bytes, 0).Ok?
    ensures var file := s.sealed[name].bytes; var pages := ReadAll(c, file, 0).value;
      Tiles(pages, 0, |file|) && AllFrames(pages) == Place(Scan(c, file).value.frames, 0)
  {
    hide Sound, Scan, ReadAll, Fits, NothingInvented, Tiles, AllFrames, Place;
    var file := s.sealed[name].bytes;
    var frames := Scan(c, file).value.frames;
    forall f | f in frames ensures Fits(f.record) {
      var i :| 0 <= i < |frames| && frames[i] == f;
      assert Records(frames)[i] == f.record;
      StoredWasAttempted(c, s, name, f.record);
    }
    PagesOfHealthy(c, file);
  }

  lemma PagesOfHealthy(c: Codec, file: Bytes)
    requires Sound(c) && Healthy(c, file) && forall f :: f in Scan(c, file).value.frames ==> Fits(f.record)
    ensures ReadAll(c, file, 0).Ok? && Tiles(ReadAll(c, file, 0).value, 0, |file|)
    ensures AllFrames(ReadAll(c, file, 0).value) == Place(Scan(c, file).value.frames, 0)
  {
    hide Sound, Fits, ReadAll;
    EmptyScan(c);
    PagesAreExactlyOnce(c, file);
  }

  /**
   * Over every interleaving of captures, background steps, one collector and power failures, if every put completes
   * into a durable shard directory: every blob any record in the main directory refers to exists, and the same for
   * quarantined records if no scan misses a reference.
   */
  lemma EveryCaptureRun(l: Limits, shards: set<Bytes>, acts: seq<Capture.Action>, r: SpoolRecord)
    ensures Sound(FRAME_CODEC)
    ensures BlobDurability.PutsComplete(FRAME_CODEC, l, Capture.Start(shards), acts) ==>
      var sys := Capture.Acts(FRAME_CODEC, l, Capture.Start(shards), acts);
      && (Capture.InMain(FRAME_CODEC, sys.spool, r) ==> Capture.Backed(sys.blobs, r))
      && (Capture.ScansSeeAll(FRAME_CODEC, l, Capture.Start(shards), acts) && Capture.InQuarantine(FRAME_CODEC, sys.spool, r) ==>
            Capture.Backed(sys.blobs, r))
  {
    hide Sound, Capture.Acts, Capture.ScansSeeAll, Capture.AlwaysBacked, Capture.InMain, Capture.InQuarantine, Capture.Backed, Inv, Capture.Fenced, Capture.FailuresSpareMain, BlobDurability.PutsComplete;
    FrameCodecIsSound();
    Capture.StartIsSafe(FRAME_CODEC, shards);
    if BlobDurability.PutsComplete(FRAME_CODEC, l, Capture.Start(shards), acts) {
      BlobDurability.LastingRun(FRAME_CODEC, l, Capture.Start(shards), acts);
      if Capture.AlwaysBacked(FRAME_CODEC, l, Capture.Start(shards), acts) {
        Capture.AlwaysIsAtTheEnd(FRAME_CODEC, l, Capture.Start(shards), acts);
      }
    }
  }
}
