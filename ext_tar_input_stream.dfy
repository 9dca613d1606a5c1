/**
 * The extended tar reader as the object it is: the fields of TarInputStream and of its
 * subclass ExtTarInputStream, updated in place by the reading methods. Each method is proved
 * to take the reader's state exactly where the matching function of TarArchive says.
 */
module ExtTarReader {
  import opened Common
  import opened TarArchive

  /** A block read still to be appended to the bytes taken so far. */
  function Extend(got: seq<byte>, t: Option<Taken>): Option<Taken> {
    if t.None? then None else Some(Taken(got + t.value.data, t.value.pos, t.value.leftover))
  }

  /** One turn of the long-name loop, from the loop's invariant: a -1 from Read ends the
      loop with no name, anything else leaves the rest of the loop to do from the new state. */
  lemma LongNameTurn(s: TarState, n: nat, name: string, after: TarState, numRead: int, data: seq<byte>)
    requires Valid(s) && 0 < n == s.entrySize - s.entryOffset
    requires ReadSpec(s, Min(512, n)) == (after, if numRead == -1 then NoData else Bytes(data))
    requires numRead == -1 || numRead == |data|
    ensures numRead == -1 ==> LongNameLoop(s, n, name) == (after, None)
    ensures numRead != -1 ==> && 0 < numRead <= n && Valid(after)
                              && n - numRead == after.entrySize - after.entryOffset
                              && LongNameLoop(s, n, name) == LongNameLoop(after, n - numRead, name + ParseName(data))
  {
  }

  /** One turn of the pax loop, in the same form. */
  lemma PaxTurn(s: TarState, n: nat, fed: seq<byte>, after: TarState, numRead: int, data: seq<byte>)
    requires Valid(s) && 0 < n == s.entrySize - s.entryOffset
    requires ReadSpec(s, Min(512, n)) == (after, if numRead == -1 then NoData else Bytes(data))
    requires numRead == -1 || numRead == |data|
    ensures numRead == -1 ==> PaxLoop(s, n, fed) == (after, None)
    ensures numRead != -1 ==> && 0 < numRead <= n && Valid(after)
                              && n - numRead == after.entrySize - after.entryOffset
                              && PaxLoop(s, n, fed) == PaxLoop(after, n - numRead, fed + data)
  {
  }

  /** One turn of the loop of TarInputStream.Skip, in the form of the long-name turn. */
  lemma SkipTurn(s: TarState, num: nat, after: TarState, numRead: int, data: seq<byte>)
    requires Valid(s) && 0 < num <= s.entrySize - s.entryOffset
    requires ReadSpec(s, Min(8192, num)) == (after, if numRead == -1 then NoData else Bytes(data))
    requires numRead == -1 || numRead == |data|
    ensures numRead == -1 ==> SkipBytes(s, num) == after
    ensures numRead != -1 ==> && 0 < numRead <= num && Valid(after)
                              && num - numRead <= after.entrySize - after.entryOffset
                              && SkipBytes(s, num) == SkipBytes(after, num - numRead)
  {
    if numRead != -1 {
      SkipTurnOn(s, num, after, data);
    }
  }

  /** A turn whose Read returned data. */
  lemma {:induction false} SkipTurnOn(s: TarState, num: nat, after: TarState, data: seq<byte>)
    requires Valid(s) && 0 < num <= s.entrySize - s.entryOffset
    requires ReadSpec(s, Min(8192, num)) == (after, Bytes(data))
    ensures && 0 < |data| <= num && Valid(after)
            && num - |data| <= after.entrySize - after.entryOffset
            && SkipBytes(s, num) == SkipBytes(after, num - |data|)
  {
  }

  /** One turn of the loop of TarInputStream.CopyEntryContents, from the loop's invariant:
      what is written so far followed by what copying from `before` writes is the whole. */
  lemma CopyStep(target: (TarState, seq<byte>), written: seq<byte>, before: TarState, after: TarState,
                 numRead: int, data: seq<byte>)
    requires Valid(before) && target == (CopyContents(before).0, written + CopyContents(before).1)
    requires ReadSpec(before, 32768) == (after, if numRead == -1 then NoData else Bytes(data))
    requires numRead == -1 || numRead == |data|
    ensures numRead <= 0 ==> target == (after, written)
    ensures numRead > 0 ==> && Valid(after)
                            && after.entrySize - after.entryOffset < before.entrySize - before.entryOffset
                            && target == (CopyContents(after).0, (written + data) + CopyContents(after).1)
  {
    CopyContentsStep(before);
    if numRead <= 0 {
      AppendEmpty(written);
    } else {
      AppendAssoc(written, data, CopyContents(after).1);
    }
  }

  class ExtTarInputStream {
    const blocks: seq<Block>
    /** The library's pax record parser (TarExtendedHeaderReader). */
    const pax: PaxReader
    var pos: nat
    var readBuffer: seq<byte>
    var entrySize: nat
    var entryOffset: nat
    var hasHitEOF: bool
    var currentEntry: Option<Entry>
    var curHeaders: Option<map<string, string>>
    var longLink: Option<string>

    /** The reader's fields as one value. */
    function State(): TarState
      reads this
    {
      TarState(blocks, pos, readBuffer, entrySize, entryOffset, hasHitEOF, currentEntry, curHeaders, longLink)
    }

    predicate Valid()
      reads this
    {
      TarArchive.Valid(State())
    }

    constructor (blocks: seq<Block>, pax: PaxReader)
      requires WellFormed(blocks)
      ensures Valid() && State() == Fresh(blocks) && this.pax == pax
    {
      this.blocks := blocks;
      this.pax := pax;
      pos := 0;
      readBuffer := [];
      entrySize := 0;
      entryOffset := 0;
      hasHitEOF := false;
      currentEntry := None;
      curHeaders := None;
      longLink := None;
    }

    /** TarBuffer.ReadBlock: the next block, or null once the stream is exhausted. */
    method ReadBlock() returns (b: Option<Block>)
      requires pos <= |blocks|
      modifies this`pos
      ensures b == (if old(pos) < |blocks| then Some(blocks[old(pos)]) else None)
      ensures pos == (if old(pos) < |blocks| then old(pos) + 1 else old(pos))
    {
      if pos < |blocks| {
        b := Some(blocks[pos]);
        pos := pos + 1;
      } else {
        b := None;
      }
    }

    /** TarInputStream.Read(buffer, 0, count): -1 when the stream runs dry inside the entry. */
    method Read(count: nat) returns (numRead: int, data: seq<byte>)
      requires Valid()
      modifies this`pos, this`readBuffer, this`entryOffset
      ensures ReadSpec(old(State()), count) == (State(), if numRead == -1 then NoData else Bytes(data))
      ensures numRead == -1 || numRead == |data|
    {
      if entryOffset >= entrySize {
        return 0, [];
      }
      ghost var s0 := State();
      var numToRead: nat := count;
      if numToRead + entryOffset > entrySize {
        numToRead := entrySize - entryOffset;
      }
      ghost var want := numToRead;
      assert want == Min(count, s0.entrySize - s0.entryOffset);
      data, numToRead := TakeBuffered(numToRead);
      var ok, got := ReadBlocks(numToRead);
      if !ok {
        ReadSpecRunsDry(s0, count);
        return -1, [];
      }
      data := data + got;
      entryOffset := entryOffset + |data|;
      if numToRead == 0 {
        assert data == s0.readBuffer[..want];
        ReadSpecBuffered(s0, count);
      } else {
        assert data == s0.readBuffer + got;
        ReadSpecFromBlocks(s0, count, Taken(got, pos, readBuffer));
      }
      return |data|, data;
    }

    /** The first part of Read: serve what it can from the tail of the last block read. */
    method TakeBuffered(n: nat) returns (data: seq<byte>, rest: nat)
      modifies this`readBuffer
      ensures n <= |old(readBuffer)| ==> data == old(readBuffer)[..n] && readBuffer == old(readBuffer)[n..] && rest == 0
      ensures n > |old(readBuffer)| ==> data == old(readBuffer) && readBuffer == [] && rest == n - |old(readBuffer)|
    {
      data, rest := [], n;
      if readBuffer != [] {
        var sz := if rest > |readBuffer| then |readBuffer| else rest;
        data := readBuffer[..sz];
        readBuffer := readBuffer[sz..];
        rest := rest - sz;
      }
    }

    /** The `while (numToRead > 0)` loop of Read: whole blocks through ReadBlock, the unused
        tail of the last one kept in readBuffer; false is the unexpected end of the stream. */
    method ReadBlocks(n: nat) returns (ok: bool, got: seq<byte>)
      requires pos <= |blocks| && WellFormed(blocks) && (n > 0 ==> readBuffer == [])
      modifies this`pos, this`readBuffer
      ensures ok == TakeBlocks(blocks, old(pos), n).Some?
      ensures ok && n > 0 ==> TakeBlocks(blocks, old(pos), n) == Some(Taken(got, pos, readBuffer))
      ensures !ok ==> pos == |blocks| && readBuffer == old(readBuffer)
      ensures n == 0 ==> pos == old(pos) && readBuffer == old(readBuffer) && got == []
    {
      ghost var p0 := pos;
      var numToRead: nat := n;
      got := [];
      assert Extend([], TakeBlocks(blocks, pos, n)) == TakeBlocks(blocks, pos, n) by {
        var t := TakeBlocks(blocks, pos, n);
        if t.Some? {
          assert [] + t.value.data == t.value.data;
        }
      }
      while numToRead > 0
        invariant pos <= |blocks|
        invariant numToRead > 0 ==> TakeBlocks(blocks, p0, n) == Extend(got, TakeBlocks(blocks, pos, numToRead))
        invariant numToRead == 0 && n > 0 ==> TakeBlocks(blocks, p0, n) == Some(Taken(got, pos, readBuffer))
        invariant numToRead > 0 || n == 0 ==> readBuffer == old(readBuffer)
        invariant n == 0 ==> pos == p0 && got == []
        decreases numToRead
      {
        var rec := ReadBlock();
        if rec.None? {
          return false, [];
        }
        var r := rec.value.bytes;
        assert BlockBytes(blocks, pos - 1, pos) == r;
        if |r| > numToRead {
          got := got + r[..numToRead];
          readBuffer := r[numToRead..];
          numToRead := 0;
        } else {
          ghost var rest := TakeBlocks(blocks, pos, numToRead - |r|);
          assert TakeBlocks(blocks, pos - 1, numToRead) == Extend(r, rest);
          assert Extend(got, Extend(r, rest)) == Extend(got + r, rest) by {
            if rest.Some? {
              assert got + (r + rest.value.data) == (got + r) + rest.value.data;
            }
          }
          assert numToRead == |r| ==> rest == Some(Taken([], pos, [])) && (got + r) + [] == got + r;
          got := got + r;
          numToRead := numToRead - |r|;
        }
      }
      return true, got;
    }

    /** TarInputStream.Skip: read and drop skipCount bytes, 8 KiB at a time, giving up when
        Read returns -1. */
    method Skip(skipCount: nat)
      requires Valid() && skipCount <= entrySize - entryOffset
      modifies this`pos, this`readBuffer, this`entryOffset
      ensures Valid() && State() == SkipBytes(old(State()), skipCount)
    {
      ghost var target := SkipBytes(State(), skipCount);
      var num: nat := skipCount;
      while num > 0
        invariant Valid() && num <= entrySize - entryOffset
        invariant SkipBytes(State(), num) == target
        decreases num
      {
        var toRead := if num > 8192 then 8192 else num;
        ghost var before := State();
        assert toRead == Min(8192, num);
        var numRead, data := Read(toRead);
        SkipTurn(before, num, State(), numRead, data);
        if numRead == -1 {
          break;
        }
        num := num - numRead;
      }
    }

    /** ExtTarInputStream.SkipToNextEntry. */
    method SkipToNextEntry()
      requires Valid()
      modifies this`pos, this`readBuffer, this`entryOffset
      ensures Valid() && State() == TarArchive.SkipToNextEntry(old(State()))
    {
      var numToSkip := entrySize - entryOffset;
      if numToSkip > 0 {
        Skip(numToSkip);
      }
      readBuffer := [];
    }

    /** TarInputStream.CopyEntryContents: the bytes returned are those written to the file. */
    method CopyEntryContents() returns (written: seq<byte>)
      requires Valid()
      modifies this`pos, this`readBuffer, this`entryOffset
      ensures Valid() && (State(), written) == CopyContents(old(State()))
    {
      ghost var target := CopyContents(State());
      written := [];
      assert [] + target.1 == target.1;
      while true
        invariant Valid()
        invariant target == (CopyContents(State()).0, written + CopyContents(State()).1)
        decreases entrySize - entryOffset
      {
        ghost var before := State();
        var numRead, data := Read(32768);
        CopyStep(target, written, before, State(), numRead, data);
        if numRead <= 0 {
          break;
        }
        written := written + data;
      }
    }

    /** The long-name loop: read the body a block at a time, appending each piece's name. */
    method ReadLongName() returns (longName: Option<string>)
      requires Valid() && entryOffset == 0
      modifies this`pos, this`readBuffer, this`entryOffset
      ensures Valid() && (State(), longName) == LongNameLoop(old(State()), old(entrySize), "")
    {
      ghost var target := LongNameLoop(State(), entrySize, "");
      var numToRead: nat := entrySize;
      var name := "";
      while numToRead > 0
        invariant Valid() && numToRead == entrySize - entryOffset
        invariant LongNameLoop(State(), numToRead, name) == target
        decreases numToRead
      {
        ghost var before := State();
        var numRead, data := Read(if numToRead > 512 then 512 else numToRead);
        LongNameTurn(before, numToRead, name, State(), numRead, data);
        if numRead == -1 {
          return None;
        }
        name := name + ParseName(data);
        numToRead := numToRead - numRead;
      }
      return Some(name);
    }

    /** The pax loop: feed the body to the record parser a block at a time. */
    method ReadExtendedHeader() returns (fed: Option<seq<byte>>)
      requires Valid() && entryOffset == 0
      modifies this`pos, this`readBuffer, this`entryOffset
      ensures Valid() && (State(), fed) == PaxLoop(old(State()), old(entrySize), [])
    {
      ghost var target := PaxLoop(State(), entrySize, []);
      var numToRead: nat := entrySize;
      var body: seq<byte> := [];
      while numToRead > 0
        invariant Valid() && numToRead == entrySize - entryOffset
        invariant PaxLoop(State(), numToRead, body) == target
        decreases numToRead
      {
        ghost var before := State();
        var numRead, data := Read(if numToRead > 512 then 512 else numToRead);
        PaxTurn(before, numToRead, body, State(), numRead, data);
        if numRead == -1 {
          return None;
        }
        body := body + data;
        numToRead := numToRead - numRead;
      }
      return Some(body);
    }

    /** The end of the try block: `new ExtTarEntry(headerBuf)` (which cannot take a null
        block) and the overrides from the long name and the pending link name and headers. */
    method FinishEntry(headerBuf: Option<Block>, longName: Option<string>) returns (outcome: Outcome)
      requires Valid() && !hasHitEOF
      modifies this`currentEntry, this`longLink, this`curHeaders, this`entryOffset, this`entrySize
      ensures Valid()
      ensures headerBuf.None? ==> State() == old(State()) && outcome == Fail(NullHeader)
      ensures headerBuf.Some? ==> (State(), outcome) == BuildEntry(old(State()), headerBuf.value.header, longName)
    {
      if headerBuf.None? {
        return Fail(NullHeader);
      }
      var h := headerBuf.value.header;
      if longName.Some? {
        h := h.(name := longName.value);
      }
      if longLink.Some? {
        h := h.(linkName := longLink.value);
        longLink := None;
      }
      var headers := None;
      if curHeaders.Some? {
        headers := curHeaders;
        curHeaders := None;
      }
      currentEntry := Some(Entry(h, headers));
      entryOffset := 0;
      entrySize := h.size;
      return Yield(Entry(h, headers));
    }

    /** The handler of InvalidHeaderException: the entry is forgotten. */
    method AbandonEntry() returns (outcome: Outcome)
      requires Valid()
      modifies this`entrySize, this`entryOffset, this`currentEntry
      ensures Valid() && (State(), outcome) == (ResetOnBadHeader(old(State())), Fail(BadHeader))
    {
      entrySize, entryOffset, currentEntry := 0, 0, None;
      outcome := Fail(BadHeader);
    }

    /** After a special header: SkipToNextEntry, then the next block read becomes the entry. */
    method TakeNextBlock(longName: Option<string>) returns (outcome: Outcome)
      requires Valid() && !hasHitEOF
      modifies this`pos, this`readBuffer, this`entryOffset, this`entrySize, this`currentEntry,
               this`curHeaders, this`longLink
      ensures Valid() && (State(), outcome) == NextBlockAsEntry(TarArchive.SkipToNextEntry(old(State())), longName)
    {
      SkipToNextEntry();
      var headerBuf := ReadBlock();
      outcome := FinishEntry(headerBuf, longName);
    }

    /** The GNU long-name branch; a body cut short raises InvalidHeaderException, whose
        handler forgets the entry. */
    method LongNameHeader() returns (outcome: Outcome)
      requires Valid() && !hasHitEOF && entryOffset == 0
      modifies this`pos, this`readBuffer, this`entryOffset, this`entrySize, this`currentEntry,
               this`curHeaders, this`longLink
      ensures Valid() && (State(), outcome) == LongNameBranch(old(State()))
    {
      var longName := ReadLongName();
      if longName.None? {
        outcome := AbandonEntry();
        return;
      }
      outcome := TakeNextBlock(longName);
    }

    /** The pax extended-header branch; a body cut short raises InvalidHeaderException. */
    method PaxHeader() returns (outcome: Outcome)
      requires Valid() && !hasHitEOF && entryOffset == 0
      modifies this`pos, this`readBuffer, this`entryOffset, this`entrySize, this`currentEntry,
               this`curHeaders, this`longLink
      ensures Valid() && (State(), outcome) == PaxBranch(old(State()), pax)
    {
      var body := ReadExtendedHeader();
      if body.None? {
        outcome := AbandonEntry();
        return;
      }
      outcome := ApplyPaxHeaders(pax(body.value));
    }

    /** The end of the pax branch: the parsed map becomes pending, `path` the long name and
        `linkpath` the pending long link, and the next block is taken as the entry. */
    method ApplyPaxHeaders(headers: map<string, string>) returns (outcome: Outcome)
      requires Valid() && !hasHitEOF
      modifies this`pos, this`readBuffer, this`entryOffset, this`entrySize, this`currentEntry,
               this`curHeaders, this`longLink
      ensures Valid() && (State(), outcome) == PaxTail(old(State()), headers)
    {
      curHeaders := Some(headers);
      var longName := None;
      if "path" in headers {
        longName := Some(headers["path"]);
      }
      if "linkpath" in headers {
        longLink := Some(headers["linkpath"]);
      }
      outcome := TakeNextBlock(longName);
    }

    /** The type-flag dispatch of GetNextExtEntry, once a header with a valid checksum has
        been read and entryOffset and entrySize set from it. */
    method ReadEntryOf(headerBlock: Block) returns (outcome: Outcome)
      requires Valid() && !hasHitEOF && entryOffset == 0 && entrySize == headerBlock.header.size
      modifies this`pos, this`readBuffer, this`entryOffset, this`entrySize, this`currentEntry,
               this`curHeaders, this`longLink
      ensures Valid() && (State(), outcome) == ReadEntry(old(State()), headerBlock.header, pax)
    {
      var header := headerBlock.header;
      if header.typeFlag == LF_GNU_LONGNAME {
        outcome := LongNameHeader();
      } else if header.typeFlag == LF_GHDR {
        outcome := TakeNextBlock(None);
      } else if header.typeFlag == LF_XHDR {
        outcome := PaxHeader();
      } else if header.typeFlag == LF_GNU_VOLHDR {
        outcome := TakeNextBlock(None);
      } else if !IsNormalType(header.typeFlag) {
        outcome := TakeNextBlock(None);
      } else {
        outcome := FinishEntry(Some(headerBlock), None);
      }
    }

    /** Reading the header block: null or a zero block ends the archive (a zero block takes
        the block after it too), a bad checksum is an error, anything else is dispatched on. */
    method ReadHeaderBlock() returns (outcome: Outcome)
      requires Valid()
      modifies this
      ensures Valid() && (State(), outcome) == ReadHeader(old(State()), pax)
    {
      var headerBuf := ReadBlock();
      if headerBuf.None? {
        hasHitEOF := true;
      } else if IsEndOfArchiveBlock(headerBuf.value) {
        hasHitEOF := true;
        var _ := ReadBlock();
      } else {
        hasHitEOF := false;
      }
      if hasHitEOF {
        currentEntry := None;
        return EndOfArchive;
      }
      var header := headerBuf.value.header;
      if !header.checksumOk {
        return Fail(ChecksumInvalid);
      }
      entryOffset := 0;
      entrySize := header.size;
      outcome := ReadEntryOf(headerBuf.value);
    }

    /** ExtTarInputStream.GetNextExtEntry: the next entry, null at the end of the archive, or
        one of the exceptions. */
    method GetNextExtEntry() returns (outcome: Outcome)
      requires Valid()
      modifies this
      ensures Valid() && (State(), outcome) == Next(old(State()), pax)
    {
      if hasHitEOF {
        return EndOfArchive;
      }
      if currentEntry.Some? {
        SkipToNextEntry();
      }
      outcome := ReadHeaderBlock();
    }
  }
}
