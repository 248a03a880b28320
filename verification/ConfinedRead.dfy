/** Reading the first record of a file through a budgeted range reader (`confined_read.rs`). */
module ConfinedRead {
  import opened Prelude

  const NEWLINE: u8 := 0x0A
  const CHUNK: nat := 4096

  datatype ReadError = LimitExceeded | UnsupportedType | Arithmetic | InvalidPath | Changed

  datatype Chunk = Chunk(bytes: Bytes, eof: bool)

  predicate FirstNewline(s: Bytes, p: nat) {
    p < |s| && s[p] == NEWLINE && forall i :: 0 <= i < p ==> s[i] != NEWLINE
  }

  predicate NoNewline(s: Bytes) { forall i :: 0 <= i < |s| ==> s[i] != NEWLINE }

  /**
   * One positioned read of an unchanged file. The operating system may deliver fewer bytes than asked for;
   * `offered` is how many it is willing to, and zero at a position before the end counts as a change.
   */
  method ReadRange(file: Bytes, offset: nat, maxBytes: nat, offered: nat) returns (r: Result<Chunk, ReadError>)
    ensures r.Ok? <==> maxBytes > 0 && offset <= |file| && (offset < |file| ==> offered > 0)
    ensures r.Ok? ==>
      && var end := offset + |r.value.bytes|;
      && |r.value.bytes| <= maxBytes && end <= |file| && r.value.bytes == file[offset..end]
      && (r.value.eof <==> end == |file|)
      && (offset < |file| ==> |r.value.bytes| > 0)
  {
    if maxBytes == 0 {
      return Err(InvalidPath);
    }
    if offset > |file| {
      return Err(Changed);
    }
    if offset == |file| {
      return Ok(Chunk([], true));
    }
    var allocation := Min(|file| - offset, maxBytes);
    var read := Min(allocation, offered);
    if read == 0 {
      return Err(Changed);
    }
    return Ok(Chunk(file[offset..offset + read], offset + read == |file|));
  }

  method FindNewline(s: Bytes) returns (p: Option<nat>)
    ensures p.Some? ==> p.value < |s| && FirstNewline(s, p.value)
    ensures p.None? ==> NoNewline(s)
  {
    for i := 0 to |s|
      invariant forall k :: 0 <= k < i ==> s[k] != NEWLINE
    {
      if s[i] == NEWLINE {
        return Some(i);
      }
    }
    return None;
  }

  lemma NewlineInChunk(file: Bytes, offset: nat, end: nat, p: nat)
    requires offset <= end <= |file| && NoNewline(file[..offset]) && FirstNewline(file[offset..end], p)
    ensures FirstNewline(file, offset + p)
  {
    var chunk := file[offset..end];
    forall i | 0 <= i < offset + p ensures file[i] != NEWLINE {
      if i < offset {
        assert file[i] == file[..offset][i];
      } else {
        assert file[i] == chunk[i - offset];
      }
    }
  }

  lemma NoNewlineExtends(file: Bytes, offset: nat, end: nat)
    requires offset <= end <= |file| && NoNewline(file[..offset]) && NoNewline(file[offset..end])
    ensures NoNewline(file[..end])
  {
    forall i | 0 <= i < end ensures file[..end][i] != NEWLINE {
      if i < offset {
        assert file[i] == file[..offset][i];
      } else {
        assert file[i] == file[offset..end][i - offset];
      }
    }
  }

  /** A record of at most `maxRecord` bytes whose newline the budget covers. */
  ghost predicate Readable(file: Bytes, maxRecord: nat, budget: nat) {
    exists p: nat :: FirstNewline(file, p) && p <= maxRecord && p + 1 <= budget
  }

  lemma NotReadable(file: Bytes, maxRecord: nat, budget: nat, seen: nat)
    requires seen <= |file| && NoNewline(file[..seen]) && (seen >= budget || seen > maxRecord || seen == |file|)
    ensures !Readable(file, maxRecord, budget)
  {
    forall i | 0 <= i < seen ensures file[i] != NEWLINE {
      assert file[..seen][i] == file[i];
    }
  }

  /**
   * What the read must return and how many bytes it may take: success exactly for a readable record, with the
   * bytes before its newline; `UnsupportedType` exactly for a whole file without newline that bound and budget
   * cover; `LimitExceeded` otherwise.
   */
  ghost predicate Verdict(file: Bytes, maxRecord: nat, budget: nat, r: Result<Bytes, ReadError>, read: nat) {
    && read <= maxRecord + 1 && read <= |file| && read <= budget
    && (r.Ok? <==> Readable(file, maxRecord, budget))
    && (r.Ok? ==> FirstNewline(file, |r.value|) && r.value == file[..|r.value|] && read > |r.value|)
    && (r == Err(UnsupportedType) <==> NoNewline(file) && |file| <= maxRecord && |file| <= budget && budget > 0)
    && (r == Err(UnsupportedType) ==> read == |file|)
    && (r.Err? && r != Err(UnsupportedType) ==> r == Err(LimitExceeded) && read == Min(budget, maxRecord + 1))
  }

  lemma OutOfBounds(file: Bytes, maxRecord: nat, budget: nat, seen: nat)
    requires seen <= |file| && NoNewline(file[..seen]) && seen == Min(budget, maxRecord + 1)
    requires seen == |file| ==> seen > maxRecord || budget == 0
    ensures Verdict(file, maxRecord, budget, Err(LimitExceeded), seen)
  {
    NotReadable(file, maxRecord, budget, seen);
  }

  lemma WholeFileRead(file: Bytes, maxRecord: nat, budget: nat)
    requires NoNewline(file) && |file| <= maxRecord && |file| <= budget && budget > 0
    ensures Verdict(file, maxRecord, budget, Err(UnsupportedType), |file|)
  {
    assert file[..|file|] == file;
    NotReadable(file, maxRecord, budget, |file|);
  }

  lemma RecordRead(file: Bytes, maxRecord: nat, budget: nat, p: nat, read: nat)
    requires FirstNewline(file, p) && p < read <= |file| && read <= maxRecord + 1 && read <= budget
    ensures Verdict(file, maxRecord, budget, Ok(file[..p]), read)
  {}

  /** One chunk behind `offset` and the first newline in it. */
  method NextChunk(file: Bytes, offset: nat, limit: nat, offered: nat) returns (chunk: Chunk, newline: Option<nat>, changed: bool)
    requires 0 < limit && offset <= |file| && NoNewline(file[..offset])
    ensures changed <==> offset < |file| && offered == 0
    ensures changed ==> chunk.bytes == [] && newline.None?
    ensures |chunk.bytes| <= limit && offset + |chunk.bytes| <= |file|
    ensures file[..offset] + chunk.bytes == file[..offset + |chunk.bytes|]
    ensures chunk.eof <==> offset + |chunk.bytes| == |file|
    ensures offset < |file| && !changed ==> |chunk.bytes| > 0
    ensures newline.Some? ==>
      && newline.value < |chunk.bytes| && FirstNewline(file, offset + newline.value)
      && file[..offset] + chunk.bytes[..newline.value] == file[..offset + newline.value]
    ensures newline.None? ==> NoNewline(file[..offset + |chunk.bytes|])
  {
    hide FirstNewline, NoNewline;
    var range := ReadRange(file, offset, limit, offered);
    if range.Err? {
      return Chunk([], false), None, true;
    }
    chunk, changed := range.value, false;
    newline := FindNewline(chunk.bytes);
    if newline.Some? {
      NewlineInChunk(file, offset, offset + |chunk.bytes|, newline.value);
    } else {
      NoNewlineExtends(file, offset, offset + |chunk.bytes|);
    }
  }

  /**
   * The result does not depend on how the reads are cut up: `offered` is arbitrary. `left` is the caller's
   * budget afterwards and `read` the number of bytes delivered. Only a read that delivers nothing before the
   * end of the file, which counts as a change of the file, can stop it early.
   */
  method ReadFirstRecord(file: Bytes, maxRecord: u64, budget: u64, offered: nat -> nat)
    returns (r: Result<Bytes, ReadError>, left: nat, read: nat)
    ensures left + read == budget && read <= |file| && read <= maxRecord + 1
    ensures maxRecord == U64_MAX ==> r == Err(Arithmetic) && read == 0
    ensures maxRecord < U64_MAX && r != Err(Changed) ==> Verdict(file, maxRecord, budget, r, read)
    ensures r == Err(Changed) ==> exists k :: offered(k) == 0
  {
    hide FirstNewline, NoNewline, Verdict;
    left, read := budget, 0;
    if maxRecord == U64_MAX {
      return Err(Arithmetic), left, read;
    }
    NothingSeen();
    var bound := maxRecord + 1;
    var bytes: Bytes := [];
    var k: nat := 0;
    while true
      invariant |bytes| <= maxRecord && |bytes| <= |file| && bytes == file[..|bytes|] && NoNewline(bytes)
      invariant read == |bytes| && left + read == budget
      invariant |bytes| == |file| ==> |bytes| == 0
      decreases maxRecord - |bytes|
    {
      var limit := Min(Min(CHUNK, left), bound - |bytes|);
      if limit == 0 {
        OutOfBounds(file, maxRecord, budget, |bytes|);
        return Err(LimitExceeded), left, read;
      }
      var chunk, newline, changed := NextChunk(file, |bytes|, limit, offered(k));
      if changed {
        return Err(Changed), left, read;
      }
      k := k + 1;
      left := left - |chunk.bytes|;
      read := read + |chunk.bytes|;
      if newline.Some? {
        RecordRead(file, maxRecord, budget, |bytes| + newline.value, read);
        bytes := bytes + chunk.bytes[..newline.value];
        return Ok(bytes), left, read;
      }
      if |bytes| + |chunk.bytes| > maxRecord {
        OutOfBounds(file, maxRecord, budget, read);
        return Err(LimitExceeded), left, read;
      }
      if chunk.eof {
        assert file[..read] == file;
        WholeFileRead(file, maxRecord, budget);
        return Err(UnsupportedType), left, read;
      }
      bytes := bytes + chunk.bytes;
    }
  }

  lemma NothingSeen()
    ensures NoNewline([])
  {}
}
