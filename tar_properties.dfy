/**
 * Properties of one call of the extended tar reader (TarArchive.Next), stated in terms of
 * the block stream: where the header is read, what ends the archive, what a bad checksum
 * does, and which entry each kind of special header makes the call yield.
 */
module TarProperties {
  import opened Common
  import opened TarArchive

  /** Number of blocks n bytes of entry data occupy. */
  function Ceil(n: nat): nat {
    (n + 512 - 1) / 512
  }

  lemma CeilBlocks(k: nat, n: nat)
    requires n <= 512 * k
    ensures Ceil(n) <= k
    ensures (512 * k - n) / 512 == k - Ceil(n)
  {
    var c := Ceil(n);
    var rem := n + 512 - 1 - 512 * c;
    assert 0 <= rem < 512;
    assert c <= k;
    assert 512 * k - n == (512 - 1 - rem) + 512 * (k - c);
    DivBlocks(512 - 1 - rem, k - c);
  }

  /** Once the end of the archive has been seen, a call returns null and reads nothing. */
  lemma EofIsSticky(s: TarState, pax: PaxReader)
    requires Valid(s) && s.hasHitEOF
    ensures Next(s, pax) == (s, EndOfArchive)
  {
  }

  /** The state the header block is read from: the previous entry's data skipped. */
  lemma SkipReachesHeaderPos(s: TarState)
    requires Valid(s)
    ensures var u := if s.currentEntry.Some? then SkipToNextEntry(s) else s;
            && u.pos == HeaderPos(s)
            && (s.currentEntry.Some? ==> u.readBuffer == [])
            && u == s.(pos := u.pos, readBuffer := u.readBuffer, entryOffset := u.entryOffset)
  {
  }

  /** A call ends the archive exactly when the stream is exhausted where the header should be
      or that block is all zeros; a zero block also consumes the block after it. */
  lemma EndOfArchiveDetection(s: TarState, pax: PaxReader)
    requires Valid(s) && !s.hasHitEOF
    ensures var p := HeaderPos(s);
            var r := Next(s, pax);
            && (r.1 == EndOfArchive <==> (p == |s.blocks| || IsEndOfArchiveBlock(s.blocks[p])))
            && (r.1 == EndOfArchive ==>
                  && r.0.hasHitEOF && r.0.currentEntry == None
                  && r.0.pos == (if p == |s.blocks| then p else Min(p + 2, |s.blocks|)))
  {
    SkipReachesHeaderPos(s);
  }

  /** A header with a bad checksum raises the checksum error and yields nothing; it is the
      only way that error arises. */
  lemma ChecksumFailure(s: TarState, pax: PaxReader)
    requires Valid(s) && !s.hasHitEOF
    ensures var p := HeaderPos(s);
            Next(s, pax).1 == Fail(ChecksumInvalid) <==>
              (p < |s.blocks| && !IsEndOfArchiveBlock(s.blocks[p]) && !s.blocks[p].header.checksumOk)
  {
    SkipReachesHeaderPos(s);
  }

  /** A header read with no buffered bytes: its body is exactly the blocks that follow it,
      and skipping a body of n bytes lands ceil(n/512) blocks further on (or at the end). */
  lemma BodySkipPos(s: TarState)
    requires Valid(s) && s.readBuffer == [] && s.entryOffset == 0
    ensures Pending(s) == BlockBytes(s.blocks, s.pos, |s.blocks|)
    ensures EffEnd(s) == Min(s.pos + Ceil(s.entrySize), |s.blocks|)
  {
    var k := |s.blocks| - s.pos;
    if s.entrySize <= 512 * k {
      CeilBlocks(k, s.entrySize);
    } else {
      assert Ceil(s.entrySize) > k;
    }
  }

  /** Readiness of the state for the header lemmas below: nothing buffered from an aborted
      call and no extension state left pending. */
  predicate AtHeader(s: TarState) {
    && Valid(s) && !s.hasHitEOF
    && (s.currentEntry.Some? || s.readBuffer == [])
    && s.curHeaders == None && s.longLink == None
  }

  /** The state right after a valid header block at HeaderPos(s) has been read. */
  function AfterHeader(s: TarState): (u: TarState)
    requires AtHeader(s) && HeaderPos(s) < |s.blocks|
    ensures Valid(u) && u.readBuffer == [] && u.entryOffset == 0
    ensures u.pos == HeaderPos(s) + 1 && u.blocks == s.blocks
    ensures u.entrySize == s.blocks[HeaderPos(s)].header.size
    ensures !u.hasHitEOF && u.curHeaders == None && u.longLink == None
  {
    var p := HeaderPos(s);
    TarState(s.blocks, p + 1, [], s.blocks[p].header.size, 0, false, s.currentEntry, None, None)
  }

  lemma ReadEntryFrom(s: TarState, pax: PaxReader)
    requires AtHeader(s) && HeaderPos(s) < |s.blocks|
    requires !IsEndOfArchiveBlock(s.blocks[HeaderPos(s)]) && s.blocks[HeaderPos(s)].header.checksumOk
    ensures Next(s, pax) == ReadEntry(AfterHeader(s), s.blocks[HeaderPos(s)].header, pax)
  {
    var u := if s.currentEntry.Some? then SkipToNextEntry(s) else s;
    SkipReachesHeaderPos(s);
    ReadHeaderValid(u, pax);
    var h := u.blocks[u.pos].header;
    assert u.(pos := u.pos + 1, hasHitEOF := false, entryOffset := 0, entrySize := h.size) == AfterHeader(s);
  }

  /** The dispatch on the two extension types. */
  lemma ReadEntryDispatch(u: TarState, h: Header, pax: PaxReader)
    requires Valid(u) && !u.hasHitEOF && u.entryOffset == 0 && u.entrySize == h.size
    ensures h.typeFlag == LF_GNU_LONGNAME ==> ReadEntry(u, h, pax) == LongNameBranch(u)
    ensures h.typeFlag == LF_XHDR ==> ReadEntry(u, h, pax) == PaxBranch(u, pax)
    ensures h.typeFlag != LF_GNU_LONGNAME && h.typeFlag != LF_XHDR && !IsNormalType(h.typeFlag) ==>
              ReadEntry(u, h, pax) == NextBlockAsEntry(SkipToNextEntry(u), None)
  {
  }

  /** A header block that is neither missing, nor zero, nor badly summed is dispatched on. */
  lemma ReadHeaderValid(u: TarState, pax: PaxReader)
    requires Valid(u) && u.pos < |u.blocks|
    requires !IsEndOfArchiveBlock(u.blocks[u.pos]) && u.blocks[u.pos].header.checksumOk
    ensures var h := u.blocks[u.pos].header;
            ReadHeader(u, pax)
              == ReadEntry(u.(pos := u.pos + 1, hasHitEOF := false, entryOffset := 0, entrySize := h.size), h, pax)
  {
  }

  /** What a GNU long-name header makes the call produce, read off the blocks, for a body of
      the given size starting at block first (the block after the header): the body (read a
      block at a time, each piece cut at its first NUL) names the entry built from the block
      that follows the body. That block is used as it is, whatever its type. */
  function LongNameOutcome(blocks: seq<Block>, first: nat, size: nat): Outcome
    requires first <= |blocks| && WellFormed(blocks)
  {
    var body := BlockBytes(blocks, first, |blocks|);
    var q := first + Ceil(size);
    if size > |body| then Fail(BadHeader)
    else if q >= |blocks| then Fail(NullHeader)
    else Yield(Entry(Renamed(blocks[q].header, NameOfChunks(Chunks(body[..size]))), None))
  }

  /** LongNameOutcome spelled out, for the proofs below. */
  lemma LongNameOutcomeCases(blocks: seq<Block>, first: nat, size: nat)
    requires first <= |blocks| && WellFormed(blocks)
    ensures var body := BlockBytes(blocks, first, |blocks|);
            var q := first + Ceil(size);
            LongNameOutcome(blocks, first, size)
              == if size > |body| then Fail(BadHeader)
                 else if q < |blocks| then Yield(Entry(Renamed(blocks[q].header, NameOfChunks(Chunks(body[..size]))), None))
                 else Fail(NullHeader)
  {
  }

  function Renamed(h: Header, name: string): Header {
    h.(name := name)
  }

  /** A GNU long-name header yields the entry LongNameOutcome describes. */
  lemma LongNameEntry(s: TarState, pax: PaxReader)
    requires AtHeader(s) && HeaderPos(s) < |s.blocks|
    requires var h := s.blocks[HeaderPos(s)];
             !IsEndOfArchiveBlock(h) && h.header.checksumOk && h.header.typeFlag == LF_GNU_LONGNAME
    ensures var p := HeaderPos(s);
            Next(s, pax).1 == LongNameOutcome(s.blocks, p + 1, s.blocks[p].header.size)
  {
    var p := HeaderPos(s);
    var u := AfterHeader(s);
    var h := s.blocks[p].header;
    ReadEntryFrom(s, pax);
    ReadEntryDispatch(u, h, pax);
    LongNameBranchOutcome(u);
  }

  /** The long-name branch from the state just past its header block. */
  lemma LongNameBranchOutcome(u: TarState)
    requires Valid(u) && !u.hasHitEOF && u.readBuffer == [] && u.entryOffset == 0
    requires u.longLink == None && u.curHeaders == None
    ensures LongNameBranch(u).1 == LongNameOutcome(u.blocks, u.pos, u.entrySize)
  {
    LongNameBranchReads(u);
    LongNameReadOutcome(u);
  }

  /** The outcome of the long-name branch in its read-then-name form. */
  lemma LongNameReadOutcome(u: TarState)
    requires Valid(u) && !u.hasHitEOF && u.readBuffer == [] && u.entryOffset == 0
    requires u.longLink == None && u.curHeaders == None
    ensures var r := ReadChunks(u, u.entrySize);
            (if r.1.None? then (ResetOnBadHeader(r.0), Fail(BadHeader))
             else NextBlockAsEntry(SkipToNextEntry(r.0), Some(NameOfChunks(r.1.value)))).1
              == LongNameOutcome(u.blocks, u.pos, u.entrySize)
  {
    var r := ReadChunks(u, u.entrySize);
    BodyRead(u);
    LongNameOutcomeCases(u.blocks, u.pos, u.entrySize);
    if r.1.Some? {
      LongNameBodyOutcome(u, r.0, NameOfChunks(r.1.value));
    }
  }

  /** The long-name outcome once the whole body has been read and named, leaving v. */
  lemma LongNameBodyOutcome(u: TarState, v: TarState, name: string)
    requires Valid(u) && Valid(v) && !v.hasHitEOF && v.longLink == None && v.curHeaders == None
    requires v.blocks == u.blocks
    requires var body := BlockBytes(u.blocks, u.pos, |u.blocks|);
             && u.entrySize <= |body| && name == NameOfChunks(Chunks(body[..u.entrySize]))
             && EffEnd(v) == u.pos + Ceil(u.entrySize)
    ensures NextBlockAsEntry(SkipToNextEntry(v), Some(name)).1
              == LongNameOutcome(u.blocks, u.pos, u.entrySize)
  {
    NamedNextOutcome(v, name);
    LongNameOutcomeCases(u.blocks, u.pos, u.entrySize);
  }

  /** The long-name branch is the body read followed by the naming of the next block. */
  lemma LongNameBranchReads(u: TarState)
    requires Valid(u) && !u.hasHitEOF && u.entryOffset == 0
    ensures var r := ReadChunks(u, u.entrySize);
            LongNameBranch(u)
              == if r.1.None? then (ResetOnBadHeader(r.0), Fail(BadHeader))
                 else NextBlockAsEntry(SkipToNextEntry(r.0), Some(NameOfChunks(r.1.value)))
  {
    var r := ReadChunks(u, u.entrySize);
    LongNameLoopReads(u, u.entrySize, "");
    if r.1.Some? {
      assert "" + NameOfChunks(r.1.value) == NameOfChunks(r.1.value);
    }
  }

  /** The block after a skipped body, taken as the entry and renamed. */
  lemma NamedNextOutcome(v: TarState, name: string)
    requires Valid(v) && !v.hasHitEOF && v.longLink == None && v.curHeaders == None
    ensures var q := EffEnd(v);
            NextBlockAsEntry(SkipToNextEntry(v), Some(name)).1
              == if q < |v.blocks| then Yield(Entry(Renamed(v.blocks[q].header, name), None))
                 else Fail(NullHeader)
  {
  }

  /** BodySkipPos in the form the header lemmas use: the body is everything pending, and when
      the stream holds all of it the next block read is Ceil(size) blocks further on. */
  lemma BodyAfterHeader(u: TarState)
    requires Valid(u) && u.readBuffer == [] && u.entryOffset == 0
    ensures Pending(u) == BlockBytes(u.blocks, u.pos, |u.blocks|)
    ensures u.entrySize <= |Pending(u)| ==> EffEnd(u) == u.pos + Ceil(u.entrySize) <= |u.blocks|
  {
    BodySkipPos(u);
    if u.entrySize <= |Pending(u)| {
      CeilBlocks(|u.blocks| - u.pos, u.entrySize);
    }
  }

  /** What a pax extended header makes the call produce, read off the blocks, for a body of
      the given size starting at block first: the parsed body becomes the entry's Headers, and
      `path` replaces the name and `linkpath` the link name of the block after the body, each
      only when present. */
  function PaxOutcome(blocks: seq<Block>, first: nat, size: nat, pax: PaxReader): Outcome
    requires first <= |blocks| && WellFormed(blocks)
  {
    var body := BlockBytes(blocks, first, |blocks|);
    var q := first + Ceil(size);
    if size > |body| then Fail(BadHeader)
    else if q >= |blocks| then Fail(NullHeader)
    else
      var m := pax(body[..size]);
      Yield(Entry(PaxOverride(blocks[q].header, m), Some(m)))
  }

  /** PaxOutcome spelled out, for the proofs below. */
  lemma PaxOutcomeCases(blocks: seq<Block>, first: nat, size: nat, pax: PaxReader)
    requires first <= |blocks| && WellFormed(blocks)
    ensures var body := BlockBytes(blocks, first, |blocks|);
            var q := first + Ceil(size);
            PaxOutcome(blocks, first, size, pax)
              == if size > |body| then Fail(BadHeader)
                 else if q < |blocks| then Yield(Entry(PaxOverride(blocks[q].header, pax(body[..size])), Some(pax(body[..size]))))
                 else Fail(NullHeader)
  {
  }

  /** The header with `path` and `linkpath` from the pax map applied, when present. */
  function PaxOverride(h: Header, m: map<string, string>): Header {
    h.(name := if "path" in m then m["path"] else h.name,
       linkName := if "linkpath" in m then m["linkpath"] else h.linkName)
  }

  /** A pax extended header yields the entry PaxOutcome describes. */
  lemma PaxEntry(s: TarState, pax: PaxReader)
    requires AtHeader(s) && HeaderPos(s) < |s.blocks|
    requires var h := s.blocks[HeaderPos(s)];
             !IsEndOfArchiveBlock(h) && h.header.checksumOk && h.header.typeFlag == LF_XHDR
    ensures var p := HeaderPos(s);
            Next(s, pax).1 == PaxOutcome(s.blocks, p + 1, s.blocks[p].header.size, pax)
  {
    ReadEntryFrom(s, pax);
    PaxHeaderOutcome(AfterHeader(s), s.blocks[HeaderPos(s)].header, pax);
  }

  /** The dispatch from the state just past a pax header block. */
  lemma PaxHeaderOutcome(u: TarState, h: Header, pax: PaxReader)
    requires Valid(u) && !u.hasHitEOF && u.readBuffer == [] && u.entryOffset == 0 && u.entrySize == h.size
    requires u.longLink == None && h.typeFlag == LF_XHDR
    ensures ReadEntry(u, h, pax).1 == PaxOutcome(u.blocks, u.pos, u.entrySize, pax)
  {
    ReadEntryDispatch(u, h, pax);
    PaxBranchOutcome(u, pax);
  }

  /** The pax branch from the state just past its header block. */
  lemma PaxBranchOutcome(u: TarState, pax: PaxReader)
    requires Valid(u) && !u.hasHitEOF && u.readBuffer == [] && u.entryOffset == 0 && u.longLink == None
    ensures PaxBranch(u, pax).1 == PaxOutcome(u.blocks, u.pos, u.entrySize, pax)
  {
    PaxBranchReads(u, pax);
    PaxReadOutcome(u, pax);
  }

  /** The outcome of the pax branch in its read-then-parse form. */
  lemma PaxReadOutcome(u: TarState, pax: PaxReader)
    requires Valid(u) && !u.hasHitEOF && u.readBuffer == [] && u.entryOffset == 0 && u.longLink == None
    ensures var r := ReadChunks(u, u.entrySize);
            (if r.1.None? then (ResetOnBadHeader(r.0), Fail(BadHeader))
             else PaxTail(r.0, pax(Flatten(r.1.value)))).1
              == PaxOutcome(u.blocks, u.pos, u.entrySize, pax)
  {
    var r := ReadChunks(u, u.entrySize);
    BodyRead(u);
    PaxOutcomeCases(u.blocks, u.pos, u.entrySize, pax);
    if r.1.Some? {
      PaxBodyOutcome(u, r.0, Flatten(r.1.value), pax);
    }
  }

  /** The pax outcome once the whole body has been read, leaving v. */
  lemma PaxBodyOutcome(u: TarState, v: TarState, body: seq<byte>, pax: PaxReader)
    requires Valid(u) && Valid(v) && !v.hasHitEOF && v.longLink == None
    requires v.blocks == u.blocks
    requires var all := BlockBytes(u.blocks, u.pos, |u.blocks|);
             && u.entrySize <= |all| && body == all[..u.entrySize]
             && EffEnd(v) == u.pos + Ceil(u.entrySize)
    ensures PaxTail(v, pax(body)).1 == PaxOutcome(u.blocks, u.pos, u.entrySize, pax)
  {
    PaxTailOutcome(v, pax(body));
    PaxOutcomeCases(u.blocks, u.pos, u.entrySize, pax);
  }

  /** The pax branch is the body read followed by the parse of everything read. */
  lemma PaxBranchReads(u: TarState, pax: PaxReader)
    requires Valid(u) && !u.hasHitEOF && u.entryOffset == 0
    ensures var r := ReadChunks(u, u.entrySize);
            PaxBranch(u, pax)
              == if r.1.None? then (ResetOnBadHeader(r.0), Fail(BadHeader))
                 else PaxTail(r.0, pax(Flatten(r.1.value)))
  {
    var r := ReadChunks(u, u.entrySize);
    PaxLoopReads(u, u.entrySize, []);
    if r.1.Some? {
      assert [] + Flatten(r.1.value) == Flatten(r.1.value);
    }
  }

  /** Reading a special header's body from just past the header: it succeeds exactly when
      the stream holds size bytes, and then leaves the stream Ceil(size) blocks on. */
  lemma BodyRead(u: TarState)
    requires Valid(u) && u.readBuffer == [] && u.entryOffset == 0
    ensures var r := ReadChunks(u, u.entrySize);
            var body := BlockBytes(u.blocks, u.pos, |u.blocks|);
            && SameButStream(u, r.0)
            && (r.1.Some? <==> u.entrySize <= |body|)
            && (r.1.Some? ==>
                  && r.1.value == Chunks(body[..u.entrySize])
                  && Flatten(r.1.value) == body[..u.entrySize]
                  && EffEnd(r.0) == u.pos + Ceil(u.entrySize) < |u.blocks| + 1)
  {
    ReadChunksReads(u, u.entrySize);
    BodyAfterHeader(u);
  }

  lemma PaxTailOutcome(u1: TarState, m: map<string, string>)
    requires Valid(u1) && !u1.hasHitEOF && u1.longLink == None
    ensures var q := EffEnd(u1);
            PaxTail(u1, m).1
              == if q < |u1.blocks| then Yield(Entry(PaxOverride(u1.blocks[q].header, m), Some(m)))
                 else Fail(NullHeader)
  {
    var u2 := u1.(curHeaders := Some(m),
                  longLink := if "linkpath" in m then Some(m["linkpath"]) else u1.longLink);
    assert SkipToNextEntry(u2).pos == EffEnd(u2) == EffEnd(u1);
  }

  /** A pax global header, a GNU volume header or any unknown type flag: the body is skipped
      and the block after it becomes the entry, unchanged. */
  lemma SkippedHeaderEntry(s: TarState, pax: PaxReader)
    requires AtHeader(s) && HeaderPos(s) < |s.blocks|
    requires var h := s.blocks[HeaderPos(s)];
             && !IsEndOfArchiveBlock(h) && h.header.checksumOk
             && h.header.typeFlag != LF_GNU_LONGNAME && h.header.typeFlag != LF_XHDR
             && !IsNormalType(h.header.typeFlag)
    ensures var p := HeaderPos(s);
            Next(s, pax).1 == SkippedOutcome(s.blocks, p + 1, s.blocks[p].header.size)
  {
    var p := HeaderPos(s);
    var u := AfterHeader(s);
    var h := s.blocks[p].header;
    ReadEntryFrom(s, pax);
    SkippedBranchOutcome(u, h, pax);
  }

  /** What a skipped header makes the call produce, for a body of the given size starting at
      block first: the block Ceil(size) blocks on, unchanged, or NullHeader when the stream
      ends first. */
  function SkippedOutcome(blocks: seq<Block>, first: nat, size: nat): Outcome
    requires first <= |blocks|
  {
    var q := Min(first + Ceil(size), |blocks|);
    if q == |blocks| then Fail(NullHeader) else Yield(Entry(blocks[q].header, None))
  }

  lemma SkippedBranchOutcome(u: TarState, h: Header, pax: PaxReader)
    requires Valid(u) && !u.hasHitEOF && u.readBuffer == [] && u.entryOffset == 0 && u.entrySize == h.size
    requires u.longLink == None && u.curHeaders == None
    requires h.typeFlag != LF_GNU_LONGNAME && h.typeFlag != LF_XHDR && !IsNormalType(h.typeFlag)
    ensures ReadEntry(u, h, pax).1 == SkippedOutcome(u.blocks, u.pos, h.size)
  {
    ReadEntryDispatch(u, h, pax);
    UnnamedNextOutcome(u);
    BodySkipPos(u);
  }

  /** The block after a skipped body, taken as the entry as it is. */
  lemma UnnamedNextOutcome(u: TarState)
    requires Valid(u) && !u.hasHitEOF && u.longLink == None && u.curHeaders == None
    ensures var q := EffEnd(u);
            NextBlockAsEntry(SkipToNextEntry(u), None).1
              == if q < |u.blocks| then Yield(Entry(u.blocks[q].header, None)) else Fail(NullHeader)
  {
  }

  /** A regular file, link, symlink or directory header is yielded as it is. */
  lemma NormalEntry(s: TarState, pax: PaxReader)
    requires AtHeader(s) && HeaderPos(s) < |s.blocks|
    requires var h := s.blocks[HeaderPos(s)];
             !IsEndOfArchiveBlock(h) && h.header.checksumOk && IsNormalType(h.header.typeFlag)
    ensures var p := HeaderPos(s);
            var r := Next(s, pax);
            r.1 == Yield(Entry(s.blocks[p].header, None)) && r.0.pos == p + 1
  {
    ReadEntryFrom(s, pax);
  }

  /** Two reader states that will read their next header from the same place with the same
      pending extension state. */
  predicate Equiv(s: TarState, t: TarState) {
    && Valid(s) && Valid(t)
    && s.blocks == t.blocks
    && s.hasHitEOF == t.hasHitEOF
    && s.currentEntry == t.currentEntry
    && s.curHeaders == t.curHeaders
    && s.longLink == t.longLink
    && HeaderPos(s) == HeaderPos(t)
    && (s.currentEntry.None? ==> s.readBuffer == t.readBuffer)
  }

  /** Equivalent states make the next call behave the same, and a call that does not throw
      leaves them equivalent. */
  lemma NextEquiv(s: TarState, t: TarState, pax: PaxReader)
    requires Equiv(s, t)
    ensures Next(s, pax).1 == Next(t, pax).1
    ensures !Next(s, pax).1.Fail? ==> Equiv(Next(s, pax).0, Next(t, pax).0)
    ensures Next(s, pax).1.Yield? ==> Next(s, pax).0 == Next(t, pax).0
  {
    if !s.hasHitEOF {
      SkipReachesHeaderPos(s);
      SkipReachesHeaderPos(t);
      var us := if s.currentEntry.Some? then SkipToNextEntry(s) else s;
      var ut := if t.currentEntry.Some? then SkipToNextEntry(t) else t;
      ReadHeaderEquiv(us, ut, pax);
    }
  }

  /** Reading the header depends on neither the previous entry's size nor its offset. */
  lemma ReadHeaderEquiv(us: TarState, ut: TarState, pax: PaxReader)
    requires Valid(us) && Valid(ut)
    requires us == ut.(entrySize := us.entrySize, entryOffset := us.entryOffset)
    ensures ReadHeader(us, pax).1 == ReadHeader(ut, pax).1
    ensures !ReadHeader(us, pax).1.Fail? ==> Equiv(ReadHeader(us, pax).0, ReadHeader(ut, pax).0)
    ensures ReadHeader(us, pax).1.Yield? ==> ReadHeader(us, pax).0 == ReadHeader(ut, pax).0
  {
    var p := us.pos;
    if p < |us.blocks| && !IsEndOfArchiveBlock(us.blocks[p]) && us.blocks[p].header.checksumOk {
      ReadHeaderValid(us, pax);
      ReadHeaderValid(ut, pax);
      var h := us.blocks[p].header;
      assert us.(pos := p + 1, hasHitEOF := false, entryOffset := 0, entrySize := h.size)
          == ut.(pos := p + 1, hasHitEOF := false, entryOffset := 0, entrySize := h.size);
    }
  }

  /** Copying an entry's contents out does not change what the following calls yield. */
  lemma CopyKeepsEquiv(s: TarState)
    requires Valid(s) && s.currentEntry.Some?
    ensures Equiv(CopyContents(s).0, s)
  {
    CopyKeepsEffEnd(s);
  }

  lemma EquivSymmetric(s: TarState, t: TarState)
    requires Equiv(s, t)
    ensures Equiv(t, s)
  {
  }

  lemma EquivTransitive(s: TarState, t: TarState, v: TarState)
    requires Equiv(s, t) && Equiv(t, v)
    ensures Equiv(s, v)
  {
  }
}
