/**
 * The ustar/pax archive as the extended tar reader sees it, and the reader's
 * transitions as functions over an explicit state record.
 *
 * The archive is a sequence of 512-byte blocks. Each block carries its raw
 * bytes (what a data read or the all-zero end test looks at) and the header
 * record that the tar library's header parser yields for those bytes
 * (type flag, name, link name, size and whether the checksum matched).
 *
 * The library's sizes are written as literals throughout, so that the solver
 * sees linear arithmetic: 512 is TarBuffer.BlockSize, 8192 the scratch buffer
 * of TarInputStream.Skip and 32768 the buffer of CopyEntryContents.
 */
module TarArchive {
  import opened Common

  // Type flags of the ustar header (TarHeader.LF_*).
  const LF_OLDNORM: char := '\0'
  const LF_NORMAL: char := '0'
  const LF_LINK: char := '1'
  const LF_SYMLINK: char := '2'
  const LF_DIR: char := '5'
  const LF_GHDR: char := 'g'          // pax global extended header
  const LF_XHDR: char := 'x'          // pax extended header for the next entry
  const LF_GNU_LONGNAME: char := 'L'  // GNU long name for the next entry
  const LF_GNU_VOLHDR: char := 'V'    // GNU volume header

  /** The header record the library parses out of one block. */
  datatype Header = Header(typeFlag: char, name: string, linkName: string, size: nat, checksumOk: bool)

  datatype Block = Block(bytes: seq<byte>, header: Header)

  /** A yielded entry: its (possibly overridden) header and the pax map, if one was attached. */
  datatype Entry = Entry(header: Header, headers: Option<map<string, string>>)

  /** ChecksumInvalid is the TarException; BadHeader the InvalidHeaderException rethrown after
      the reset; NullHeader the failure to build an entry from a missing block. */
  datatype TarError = ChecksumInvalid | BadHeader | NullHeader

  /** What one call of GetNextExtEntry produces: an entry, null, or an exception. */
  datatype Outcome = Yield(entry: Entry) | EndOfArchive | Fail(error: TarError)

  /** Result of the library's Read: some bytes, or -1 when the stream ran dry. */
  datatype ReadResult = Bytes(data: seq<byte>) | NoData

  datatype Taken = Taken(data: seq<byte>, pos: nat, leftover: seq<byte>)

  /** The reader's fields: the block stream and its position, the library's partial-block
      buffer, the current entry's size and read offset, and the pending extension state. */
  datatype TarState = TarState(
    blocks: seq<Block>,
    pos: nat,
    readBuffer: seq<byte>,
    entrySize: nat,
    entryOffset: nat,
    hasHitEOF: bool,
    currentEntry: Option<Entry>,
    curHeaders: Option<map<string, string>>,
    longLink: Option<string>)

  /** The library's pax record parser, applied to the whole extended-header body. */
  type PaxReader = seq<byte> -> map<string, string>

  predicate WellFormed(blocks: seq<Block>) {
    forall i | 0 <= i < |blocks| :: |blocks[i].bytes| == 512
  }

  predicate Valid(s: TarState) {
    && WellFormed(s.blocks)
    && s.pos <= |s.blocks|
    && s.entryOffset <= s.entrySize
    && |s.readBuffer| < 512
    && (s.hasHitEOF ==> s.currentEntry == None)
  }

  /** A freshly opened reader at the start of the archive. */
  function Fresh(blocks: seq<Block>): (s: TarState)
    requires WellFormed(blocks)
    ensures Valid(s) && s.pos == 0 && !s.hasHitEOF && s.currentEntry == None
    ensures s.curHeaders == None && s.longLink == None && s.readBuffer == []
  {
    TarState(blocks, 0, [], 0, 0, false, None, None, None)
  }

  /** s2 differs from s1 at most in the stream position, the read buffer and the offset. */
  predicate SameButStream(s1: TarState, s2: TarState) {
    s2 == s1.(pos := s2.pos, readBuffer := s2.readBuffer, entryOffset := s2.entryOffset)
  }

  predicate IsEndOfArchiveBlock(b: Block) {
    forall i | 0 <= i < |b.bytes| :: b.bytes[i] == 0
  }

  /** The entry types the reader yields directly; every other flag is skipped over. */
  predicate IsNormalType(flag: char) {
    flag == LF_NORMAL || flag == LF_OLDNORM || flag == LF_LINK || flag == LF_SYMLINK || flag == LF_DIR
  }

  /** The raw bytes of blocks[from..to], back to back. */
  function BlockBytes(blocks: seq<Block>, from: nat, to: nat): (r: seq<byte>)
    requires from <= to <= |blocks| && WellFormed(blocks)
    ensures |r| == 512 * (to - from)
    decreases |blocks| - from
  {
    if from == to then [] else blocks[from].bytes + BlockBytes(blocks, from + 1, to)
  }

  lemma {:induction false} BlockBytesSplit(blocks: seq<Block>, a: nat, b: nat, c: nat)
    requires a <= b <= c <= |blocks| && WellFormed(blocks)
    ensures BlockBytes(blocks, a, c) == BlockBytes(blocks, a, b) + BlockBytes(blocks, b, c)
    decreases |blocks| - a
  {
    if a < b {
      BlockBytesSplit(blocks, a + 1, b, c);
      assert BlockBytes(blocks, a, c) == blocks[a].bytes + BlockBytes(blocks, a + 1, c);
      assert BlockBytes(blocks, a, b) == blocks[a].bytes + BlockBytes(blocks, a + 1, b);
    }
  }

  /** Every byte the reader has not consumed yet: the buffered rest of a block, then all
      blocks from the current position on. */
  function Pending(s: TarState): (r: seq<byte>)
    requires Valid(s)
    ensures |r| == |s.readBuffer| + 512 * (|s.blocks| - s.pos)
  {
    s.readBuffer + BlockBytes(s.blocks, s.pos, |s.blocks|)
  }

  /** Reads n bytes from whole blocks starting at pos, the way the library's Read pulls
      blocks once its buffer is empty: the unused tail of the last block is left over. */
  function TakeBlocks(blocks: seq<Block>, pos: nat, n: nat): (r: Option<Taken>)
    requires pos <= |blocks| && WellFormed(blocks)
    ensures r.Some? <==> n <= 512 * (|blocks| - pos)
    ensures r.Some? ==> && pos <= r.value.pos <= |blocks|
                        && |r.value.data| == n
                        && |r.value.leftover| < 512
                        && r.value.data + r.value.leftover == BlockBytes(blocks, pos, r.value.pos)
    decreases |blocks| - pos
  {
    if n == 0 then Some(Taken([], pos, []))
    else if pos == |blocks| then None
    else
      var rec := blocks[pos].bytes;
      assert BlockBytes(blocks, pos, pos + 1) == rec;
      if |rec| > n then Some(Taken(rec[..n], pos + 1, rec[n..]))
      else
        match TakeBlocks(blocks, pos + 1, n - |rec|)
        case None => None
        case Some(t) =>
          assert BlockBytes(blocks, pos, t.pos) == rec + BlockBytes(blocks, pos + 1, t.pos);
          Some(Taken(rec + t.data, t.pos, t.leftover))
  }

  /** The library's Read(buffer, 0, count) on the current entry: at most what is left of the
      entry, first from the buffered block tail, then from whole blocks. */
  function ReadSpec(s: TarState, count: nat): (r: (TarState, ReadResult))
    requires Valid(s)
    ensures Valid(r.0) && SameButStream(s, r.0) && r.0.pos >= s.pos
    ensures r.1.NoData? <==>
              s.entryOffset < s.entrySize && Min(count, s.entrySize - s.entryOffset) > |Pending(s)|
    ensures r.1.Bytes? ==>
              && |r.1.data| == (if s.entryOffset < s.entrySize then Min(count, s.entrySize - s.entryOffset) else 0)
              && r.1.data == Pending(s)[..|r.1.data|]
              && Pending(r.0) == Pending(s)[|r.1.data|..]
              && r.0.entryOffset == s.entryOffset + |r.1.data|
    ensures r.1.NoData? ==> Pending(r.0) == [] && r.0.entryOffset == s.entryOffset
  {
    if s.entryOffset >= s.entrySize then (s, Bytes([]))
    else
      var want := Min(count, s.entrySize - s.entryOffset);
      if want <= |s.readBuffer| then
        (s.(readBuffer := s.readBuffer[want..], entryOffset := s.entryOffset + want),
         Bytes(s.readBuffer[..want]))
      else
        match TakeBlocks(s.blocks, s.pos, want - |s.readBuffer|)
        case None => (s.(pos := |s.blocks|, readBuffer := []), NoData)
        case Some(t) =>
          BlockBytesSplit(s.blocks, s.pos, t.pos, |s.blocks|);
          var s' := s.(pos := t.pos, readBuffer := t.leftover, entryOffset := s.entryOffset + want);
          assert Pending(s) == s.readBuffer + t.data + Pending(s');
          (s', Bytes(s.readBuffer + t.data))
  }

  /** The two ways ReadSpec succeeds inside the entry, spelled out for the reader's Read. */
  lemma ReadSpecBuffered(s: TarState, count: nat)
    requires Valid(s) && s.entryOffset < s.entrySize
    requires Min(count, s.entrySize - s.entryOffset) <= |s.readBuffer|
    ensures var want := Min(count, s.entrySize - s.entryOffset);
            ReadSpec(s, count)
              == (s.(readBuffer := s.readBuffer[want..], entryOffset := s.entryOffset + want),
                  Bytes(s.readBuffer[..want]))
  {
  }

  lemma ReadSpecRunsDry(s: TarState, count: nat)
    requires Valid(s) && s.entryOffset < s.entrySize
    requires var want := Min(count, s.entrySize - s.entryOffset);
             want > |s.readBuffer| && TakeBlocks(s.blocks, s.pos, want - |s.readBuffer|).None?
    ensures ReadSpec(s, count) == (s.(pos := |s.blocks|, readBuffer := []), NoData)
  {
  }

  lemma ReadSpecFromBlocks(s: TarState, count: nat, t: Taken)
    requires Valid(s) && s.entryOffset < s.entrySize
    requires var want := Min(count, s.entrySize - s.entryOffset);
             want > |s.readBuffer| && TakeBlocks(s.blocks, s.pos, want - |s.readBuffer|) == Some(t)
    ensures ReadSpec(s, count)
              == (s.(pos := t.pos, readBuffer := t.leftover,
                     entryOffset := s.entryOffset + Min(count, s.entrySize - s.entryOffset)),
                  Bytes(s.readBuffer + t.data))
  {
  }

  /** Where the next header is read once the rest of the current entry's data is skipped:
      the bytes left past the entry's data, rounded down to whole blocks, counted back from
      the end of the stream. */
  function EffEnd(s: TarState): (p: nat)
    requires Valid(s)
    ensures s.pos <= p <= |s.blocks|
  {
    var rest := |Pending(s)| - (s.entrySize - s.entryOffset);
    assert rest <= |s.readBuffer| + 512 * (|s.blocks| - s.pos);
    |s.blocks| - (if rest > 0 then rest / 512 else 0)
  }

  /** TarInputStream.Skip(num): Read in pieces of at most 8 KiB until num bytes are gone,
      stopping early when Read returns -1. */
  function SkipBytes(s: TarState, num: nat): (r: TarState)
    requires Valid(s) && num <= s.entrySize - s.entryOffset
    ensures Valid(r) && SameButStream(s, r) && r.pos >= s.pos
    decreases num
  {
    if num == 0 then s
    else
      var r := ReadSpec(s, Min(8192, num));
      if r.1.NoData? then r.0 else SkipBytes(r.0, num - |r.1.data|)
  }

  /** The skip consumes exactly num bytes of what is pending, or all of it when it ends early. */
  lemma {:induction false} SkipBytesPending(s: TarState, num: nat)
    requires Valid(s) && num <= s.entrySize - s.entryOffset
    ensures var r := SkipBytes(s, num);
            && (num <= |Pending(s)| ==> Pending(r) == Pending(s)[num..] && r.entryOffset == s.entryOffset + num)
            && (num > |Pending(s)| ==> Pending(r) == [])
    decreases num
  {
    if num > 0 {
      var r := ReadSpec(s, Min(8192, num));
      if r.1.Bytes? {
        SkipBytesPending(r.0, num - |r.1.data|);
        assert num <= |Pending(s)| ==> Pending(s)[num..] == Pending(r.0)[num - |r.1.data|..];
      }
    } else {
      assert Pending(s)[num..] == Pending(s);
    }
  }

  /** SkipToNextEntry: skip what is left of the current entry's data, then drop the partial
      read buffer. The skip reads exactly entrySize - entryOffset bytes when that is positive. */
  function SkipToNextEntry(s: TarState): (r: TarState)
    requires Valid(s)
    ensures Valid(r) && SameButStream(s, r) && r.readBuffer == []
    ensures r.pos == EffEnd(s)
    ensures var n := s.entrySize - s.entryOffset;
            n <= |Pending(s)| ==>
              && r.entryOffset == s.entrySize
              && n <= |Pending(s)| - |Pending(r)| < n + 512
              && Pending(r) == Pending(s)[|Pending(s)| - |Pending(r)|..]
  {
    SkipThenDrop(s);
    var numToSkip := s.entrySize - s.entryOffset;
    var s1 := if numToSkip > 0 then SkipBytes(s, numToSkip) else s;
    s1.(readBuffer := [])
  }

  /** The body of SkipToNextEntry meets its contract. */
  lemma SkipThenDrop(s: TarState)
    requires Valid(s)
    ensures var n := s.entrySize - s.entryOffset;
            var r := (if n > 0 then SkipBytes(s, n) else s).(readBuffer := []);
            && Valid(r) && SameButStream(s, r) && r.readBuffer == []
            && r.pos == EffEnd(s)
            && (n <= |Pending(s)| ==>
                  && r.entryOffset == s.entrySize
                  && n <= |Pending(s)| - |Pending(r)| < n + 512
                  && Pending(r) == Pending(s)[|Pending(s)| - |Pending(r)|..])
  {
    var n := s.entrySize - s.entryOffset;
    if n > 0 {
      SkipBytesPending(s, n);
      SkipLands(s, SkipBytes(s, n));
    } else {
      assert Pending(s)[n..] == Pending(s);
      SkipLands(s, s);
    }
  }

  /** Where the skip leaves the stream: the partial block dropped afterwards is exactly the
      part of a block past the entry's data. */
  lemma SkipLands(s: TarState, s1: TarState)
    requires Valid(s) && Valid(s1) && SameButStream(s, s1)
    requires var n := s.entrySize - s.entryOffset;
             if n <= |Pending(s)| then Pending(s1) == Pending(s)[n..] && s1.entryOffset == s.entrySize
             else Pending(s1) == []
    ensures var r := s1.(readBuffer := []);
            var n := s.entrySize - s.entryOffset;
            && r.pos == EffEnd(s)
            && (n <= |Pending(s)| ==>
                  && n <= |Pending(s)| - |Pending(r)| < n + 512
                  && Pending(r) == Pending(s)[|Pending(s)| - |Pending(r)|..])
  {
    var r := s1.(readBuffer := []);
    assert Pending(r) == Pending(s1)[|s1.readBuffer|..];
    DivBlocks(|s1.readBuffer|, |s.blocks| - s1.pos);
  }

  lemma DivBlocks(rem: nat, k: nat)
    requires rem < 512
    ensures (rem + 512 * k) / 512 == k
  {
  }

  /** Encoding.ASCII's decoding of one byte: bytes above 127 become '?'. */
  function AsciiChar(b: byte): char {
    if b < 128 then (b as int) as char else '?'
  }

  /** TarHeader.ParseName with the ASCII encoding: the bytes up to the first NUL, one
      character per byte. */
  function ParseName(b: seq<byte>): (r: string)
    ensures |r| <= |b|
    ensures forall i | 0 <= i < |r| :: b[i] != 0 && r[i] == AsciiChar(b[i])
    ensures |r| < |b| ==> b[|r|] == 0
  {
    if b == [] || b[0] == 0 then [] else [AsciiChar(b[0])] + ParseName(b[1..])
  }

  function Flatten(cs: seq<seq<byte>>): seq<byte> {
    if cs == [] then [] else cs[0] + Flatten(cs[1..])
  }

  /** The bytes cut into the block-sized pieces the reader's loops read them in. */
  function Chunks(b: seq<byte>): (r: seq<seq<byte>>)
    ensures Flatten(r) == b
    ensures forall i | 0 <= i < |r| :: 0 < |r[i]| <= 512
    decreases |b|
  {
    if b == [] then []
    else if |b| <= 512 then
      assert Flatten([b]) == b + Flatten([]);
      [b]
    else
      var rest := Chunks(b[512..]);
      assert Flatten([b[..512]] + rest) == b[..512] + Flatten(rest);
      [b[..512]] + rest
  }

  /** The long name a GNU 'L' body spells: each chunk parsed as a name, appended. */
  function NameOfChunks(cs: seq<seq<byte>>): string {
    if cs == [] then "" else ParseName(cs[0]) + NameOfChunks(cs[1..])
  }

  /** The `while (numToRead > 0)` loops of the long-name and pax branches: read the special
      entry's body in pieces of at most one block; None is the -1 that aborts the call. */
  function ReadChunks(s: TarState, numToRead: nat): (r: (TarState, Option<seq<seq<byte>>>))
    requires Valid(s) && numToRead == s.entrySize - s.entryOffset
    ensures Valid(r.0) && SameButStream(s, r.0) && r.0.pos >= s.pos
    decreases numToRead
  {
    if numToRead == 0 then (s, Some([]))
    else
      var r := ReadSpec(s, Min(512, numToRead));
      if r.1.NoData? then (r.0, None)
      else ConsChunk(r.1.data, ReadChunks(r.0, numToRead - |r.1.data|))
  }

  /** One more piece in front of what the rest of the loop read (a failure stays one). */
  function ConsChunk(d: seq<byte>, r: (TarState, Option<seq<seq<byte>>>)): (TarState, Option<seq<seq<byte>>>) {
    (r.0, if r.1.Some? then Some([d] + r.1.value) else None)
  }

  /** The pieces the loops read are the next numToRead pending bytes cut into blocks, and the
      loops succeed exactly when that many bytes are pending; a failed read drains the stream. */
  lemma {:induction false} ReadChunksReads(s: TarState, numToRead: nat)
    requires Valid(s) && numToRead == s.entrySize - s.entryOffset
    ensures var r := ReadChunks(s, numToRead);
            && (r.1.Some? <==> numToRead <= |Pending(s)|)
            && (r.1.Some? ==> && r.1.value == Chunks(Pending(s)[..numToRead])
                              && Pending(r.0) == Pending(s)[numToRead..]
                              && r.0.entryOffset == r.0.entrySize)
            && (r.1.None? ==> Pending(r.0) == [])
    decreases numToRead
  {
    if numToRead > 0 {
      var r := ReadSpec(s, Min(512, numToRead));
      ReadChunksUnfold(s, numToRead);
      if r.1.Bytes? {
        var k := |r.1.data|;
        ReadChunksReads(r.0, numToRead - k);
        ChunksStep(Pending(s), numToRead);
        if numToRead <= |Pending(s)| {
          assert Pending(s)[k..][numToRead - k..] == Pending(s)[numToRead..];
        }
      }
    }
  }

  /** ReadChunks unrolled once, for the reader's loops. */
  lemma ReadChunksUnfold(s: TarState, n: nat)
    requires Valid(s) && 0 < n == s.entrySize - s.entryOffset
    ensures var r := ReadSpec(s, Min(512, n));
            ReadChunks(s, n)
              == if r.1.NoData? then (r.0, None)
                 else
                   ConsChunk(r.1.data, ReadChunks(r.0, n - |r.1.data|))
  {
  }

  lemma ChunksStep(p: seq<byte>, n: nat)
    requires 0 < n
    ensures var m := Min(512, n);
            n <= |p| ==> Chunks(p[..n]) == [p[..m]] + Chunks(p[m..][..n - m])
  {
    if n > |p| {
    } else if n > 512 {
      assert p[..n][..512] == p[..512];
      assert p[..n][512..] == p[512..][..n - 512];
    } else {
      assert p[n..][..0] == [];
    }
  }

  /** The post-state facts every successful yield establishes: the entry is current, its own
      size is the one the next skip uses, and no extension state is left pending. */
  predicate YieldedState(r: TarState, e: Entry) {
    && r.currentEntry == Some(e)
    && r.entryOffset == 0
    && r.entrySize == e.header.size
    && r.curHeaders == None
    && r.longLink == None
  }

  /** The end of the try block: build the entry from a header, override its name from the
      call's long name, its link name from the pending long link and attach the pending pax
      map; the pending values are cleared as they are attached. */
  function BuildEntry(s: TarState, h: Header, longName: Option<string>): (r: (TarState, Outcome))
    requires Valid(s) && !s.hasHitEOF
    ensures Valid(r.0) && r.0.blocks == s.blocks && r.0.pos == s.pos && r.1.Yield?
    ensures !r.0.hasHitEOF
    ensures YieldedState(r.0, r.1.entry)
    ensures r.1.entry.header.name == (if longName.Some? then longName.value else h.name)
    ensures r.1.entry.header.linkName == (if s.longLink.Some? then s.longLink.value else h.linkName)
    ensures r.1.entry.header.(name := h.name, linkName := h.linkName) == h
    ensures r.1.entry.headers == s.curHeaders
  {
    var h1 := if longName.Some? then h.(name := longName.value) else h;
    var h2 := if s.longLink.Some? then h1.(linkName := s.longLink.value) else h1;
    var e := Entry(h2, s.curHeaders);
    (s.(currentEntry := Some(e), longLink := None, curHeaders := None, entryOffset := 0, entrySize := h2.size),
     Yield(e))
  }

  /** After a special header: `headerBuf = tarBuffer.ReadBlock()` and the entry is built from
      that block whatever it holds; a missing block cannot be parsed. */
  function NextBlockAsEntry(s: TarState, longName: Option<string>): (r: (TarState, Outcome))
    requires Valid(s) && !s.hasHitEOF
    ensures Valid(r.0) && r.0.blocks == s.blocks && !r.0.hasHitEOF
    ensures r.1.Yield? || r.1 == Fail(NullHeader)
    ensures r.1.Yield? <==> s.pos < |s.blocks|
    ensures r.1.Yield? ==> r.0.pos == s.pos + 1 && YieldedState(r.0, r.1.entry)
    ensures r.1.Yield? ==>
              var h := s.blocks[s.pos].header;
              && r.1.entry.header.name == (if longName.Some? then longName.value else h.name)
              && r.1.entry.header.linkName == (if s.longLink.Some? then s.longLink.value else h.linkName)
              && r.1.entry.header.(name := h.name, linkName := h.linkName) == h
              && r.1.entry.headers == s.curHeaders
    ensures r.1.Fail? ==> r.0 == s
  {
    if s.pos == |s.blocks| then (s, Fail(NullHeader))
    else BuildEntry(s.(pos := s.pos + 1), s.blocks[s.pos].header, longName)
  }

  /** The catch of InvalidHeaderException: forget the entry before rethrowing. */
  function ResetOnBadHeader(s: TarState): (r: TarState)
    ensures r.entrySize == 0 && r.entryOffset == 0 && r.currentEntry == None
    ensures r == s.(entrySize := 0, entryOffset := 0, currentEntry := None)
  {
    s.(entrySize := 0, entryOffset := 0, currentEntry := None)
  }

  /** The GNU long-name branch: read the body, then take the block after it as the entry,
      named by the body. A body cut short is a bad header. */
  function LongNameBranch(s: TarState): (r: (TarState, Outcome))
    requires Valid(s) && !s.hasHitEOF
    ensures Valid(r.0) && r.0.blocks == s.blocks && !r.0.hasHitEOF
    ensures r.1.Yield? || r.1 == Fail(NullHeader) || r.1 == Fail(BadHeader)
    ensures r.1.Yield? ==> r.0.pos >= s.pos && YieldedState(r.0, r.1.entry)
    ensures r.1 == Fail(BadHeader) ==> r.0.entrySize == 0 && r.0.entryOffset == 0 && r.0.currentEntry == None
  {
    var l := LongNameLoop(s, s.entrySize - s.entryOffset, "");
    if l.1.None? then (ResetOnBadHeader(l.0), Fail(BadHeader))
    else NextBlockAsEntry(SkipToNextEntry(l.0), l.1)
  }

  /** The long-name `while (numToRead > 0)` loop: each piece of at most one block is parsed
      as a name and appended; None is the -1 from Read that aborts it. */
  function LongNameLoop(s: TarState, numToRead: nat, name: string): (l: (TarState, Option<string>))
    requires Valid(s) && numToRead == s.entrySize - s.entryOffset
    ensures Valid(l.0) && SameButStream(s, l.0) && l.0.pos >= s.pos
    decreases numToRead
  {
    if numToRead == 0 then (s, Some(name))
    else
      var r := ReadSpec(s, Min(512, numToRead));
      if r.1.NoData? then (r.0, None)
      else LongNameLoop(r.0, numToRead - |r.1.data|, name + ParseName(r.1.data))
  }

  /** The long-name loop reads what ReadChunks reads, and the name it builds is the pieces'
      names in order after the one it started with. */
  lemma {:induction false} LongNameLoopReads(s: TarState, numToRead: nat, name: string)
    requires Valid(s) && numToRead == s.entrySize - s.entryOffset
    ensures LongNameLoop(s, numToRead, name) == NamedBy(ReadChunks(s, numToRead), name)
    decreases numToRead
  {
    if numToRead == 0 {
      assert name + NameOfChunks([]) == name;
    } else {
      var r := ReadSpec(s, Min(512, numToRead));
      if r.1.NoData? {
        ReadChunksUnfold(s, numToRead);
      } else {
        var d := r.1.data;
        LongNameLoopReads(r.0, numToRead - |d|, name + ParseName(d));
        LongNameLoopPiece(s, numToRead, name, r.0, d);
      }
    }
  }

  /** A ReadChunks result with the pieces turned into the name they spell after name. */
  function NamedBy(r: (TarState, Option<seq<seq<byte>>>), name: string): (TarState, Option<string>) {
    (r.0, if r.1.Some? then Some(name + NameOfChunks(r.1.value)) else None)
  }

  /** One turn of the long-name loop: the claim for the rest of the loop gives the claim for
      the whole. */
  lemma LongNameLoopPiece(s: TarState, n: nat, name: string, s1: TarState, d: seq<byte>)
    requires Valid(s) && 0 < n == s.entrySize - s.entryOffset
    requires ReadSpec(s, Min(512, n)) == (s1, Bytes(d))
    requires LongNameLoop(s1, n - |d|, name + ParseName(d))
             == NamedBy(ReadChunks(s1, n - |d|), name + ParseName(d))
    ensures LongNameLoop(s, n, name) == NamedBy(ReadChunks(s, n), name)
  {
    var rest := ReadChunks(s1, n - |d|);
    assert ReadChunks(s, n) == ConsChunk(d, rest) by {
      ReadChunksUnfold(s, n);
    }
    NamedByCons(rest, name, d);
  }

  lemma NamedByCons(r: (TarState, Option<seq<seq<byte>>>), name: string, d: seq<byte>)
    ensures NamedBy(r, name + ParseName(d)) == NamedBy(ConsChunk(d, r), name)
  {
    if r.1.Some? {
      var cs := r.1.value;
      assert ([d] + cs)[0] == d && ([d] + cs)[1..] == cs;
      assert (name + ParseName(d)) + NameOfChunks(cs) == name + NameOfChunks([d] + cs);
    }
  }

  /** The pax extended-header branch: parse the body, keep the map and the link path pending,
      then take the block after the body as the entry, renamed by the path. */
  function PaxBranch(s: TarState, pax: PaxReader): (r: (TarState, Outcome))
    requires Valid(s) && !s.hasHitEOF
    ensures Valid(r.0) && r.0.blocks == s.blocks && !r.0.hasHitEOF
    ensures r.1.Yield? || r.1 == Fail(NullHeader) || r.1 == Fail(BadHeader)
    ensures r.1.Yield? ==> r.0.pos >= s.pos && YieldedState(r.0, r.1.entry)
    ensures r.1 == Fail(BadHeader) ==> r.0.entrySize == 0 && r.0.entryOffset == 0 && r.0.currentEntry == None
  {
    var l := PaxLoop(s, s.entrySize - s.entryOffset, []);
    if l.1.None? then (ResetOnBadHeader(l.0), Fail(BadHeader))
    else PaxTail(l.0, pax(l.1.value))
  }

  /** The pax `while (numToRead > 0)` loop: each piece is fed to the record parser (fed holds
      what it has been given so far); None is the -1 from Read that aborts it. */
  function PaxLoop(s: TarState, numToRead: nat, fed: seq<byte>): (l: (TarState, Option<seq<byte>>))
    requires Valid(s) && numToRead == s.entrySize - s.entryOffset
    ensures Valid(l.0) && SameButStream(s, l.0) && l.0.pos >= s.pos
    decreases numToRead
  {
    if numToRead == 0 then (s, Some(fed))
    else
      var r := ReadSpec(s, Min(512, numToRead));
      if r.1.NoData? then (r.0, None)
      else PaxLoop(r.0, numToRead - |r.1.data|, fed + r.1.data)
  }

  /** The pax loop reads what ReadChunks reads and feeds the parser those pieces in order. */
  lemma {:induction false} PaxLoopReads(s: TarState, numToRead: nat, fed: seq<byte>)
    requires Valid(s) && numToRead == s.entrySize - s.entryOffset
    ensures PaxLoop(s, numToRead, fed) == FedWith(ReadChunks(s, numToRead), fed)
    decreases numToRead
  {
    if numToRead == 0 {
      assert fed + Flatten([]) == fed;
    } else {
      var r := ReadSpec(s, Min(512, numToRead));
      if r.1.NoData? {
        ReadChunksUnfold(s, numToRead);
      } else {
        var d := r.1.data;
        PaxLoopReads(r.0, numToRead - |d|, fed + d);
        PaxLoopPiece(s, numToRead, fed, r.0, d);
      }
    }
  }

  /** A ReadChunks result with the pieces joined after the bytes already fed. */
  function FedWith(r: (TarState, Option<seq<seq<byte>>>), fed: seq<byte>): (TarState, Option<seq<byte>>) {
    (r.0, if r.1.Some? then Some(fed + Flatten(r.1.value)) else None)
  }

  /** One turn of the pax loop: the claim for the rest of the loop gives the claim for the
      whole. */
  lemma PaxLoopPiece(s: TarState, n: nat, fed: seq<byte>, s1: TarState, d: seq<byte>)
    requires Valid(s) && 0 < n == s.entrySize - s.entryOffset
    requires ReadSpec(s, Min(512, n)) == (s1, Bytes(d))
    requires PaxLoop(s1, n - |d|, fed + d) == FedWith(ReadChunks(s1, n - |d|), fed + d)
    ensures PaxLoop(s, n, fed) == FedWith(ReadChunks(s, n), fed)
  {
    var rest := ReadChunks(s1, n - |d|);
    assert ReadChunks(s, n) == ConsChunk(d, rest) by {
      ReadChunksUnfold(s, n);
    }
    FedWithCons(rest, fed, d);
  }

  lemma FedWithCons(r: (TarState, Option<seq<seq<byte>>>), fed: seq<byte>, d: seq<byte>)
    ensures FedWith(r, fed + d) == FedWith(ConsChunk(d, r), fed)
  {
    if r.1.Some? {
      var cs := r.1.value;
      assert ([d] + cs)[0] == d && ([d] + cs)[1..] == cs;
      assert (fed + d) + Flatten(cs) == fed + Flatten([d] + cs);
    }
  }

  /** What follows the parsing of a pax body into m: the map and the link path become
      pending, the rest of the body is skipped and the next block is built, renamed by the
      path when there is one. */
  function PaxTail(s1: TarState, m: map<string, string>): (r: (TarState, Outcome))
    requires Valid(s1) && !s1.hasHitEOF
    ensures Valid(r.0) && r.0.blocks == s1.blocks && !r.0.hasHitEOF
    ensures r.1.Yield? || r.1 == Fail(NullHeader)
    ensures r.1.Yield? ==> r.0.pos >= s1.pos && YieldedState(r.0, r.1.entry)
  {
    var s2 := s1.(curHeaders := Some(m),
                  longLink := if "linkpath" in m then Some(m["linkpath"]) else s1.longLink);
    NextBlockAsEntry(SkipToNextEntry(s2), if "path" in m then Some(m["path"]) else None)
  }

  /** The type-flag dispatch on a header whose checksum is valid; s is positioned just past
      the header block with entryOffset = 0 and entrySize = the header's size. */
  function ReadEntry(s: TarState, h: Header, pax: PaxReader): (r: (TarState, Outcome))
    requires Valid(s) && !s.hasHitEOF && s.entryOffset == 0 && s.entrySize == h.size
    ensures Valid(r.0) && r.0.blocks == s.blocks && !r.0.hasHitEOF
    ensures r.1.Yield? ==> r.0.pos >= s.pos && YieldedState(r.0, r.1.entry)
    ensures r.1.Fail? ==> r.1.error != ChecksumInvalid
    ensures r.1 == Fail(BadHeader) ==> r.0.entrySize == 0 && r.0.entryOffset == 0 && r.0.currentEntry == None
    ensures !r.1.EndOfArchive?
  {
    if h.typeFlag == LF_GNU_LONGNAME then LongNameBranch(s)
    else if h.typeFlag == LF_XHDR then PaxBranch(s, pax)
    else if !IsNormalType(h.typeFlag) then
      // LF_GHDR, LF_GNU_VOLHDR and every unrecognised flag: skip the body, take the next block
      NextBlockAsEntry(SkipToNextEntry(s), None)
    else
      BuildEntry(s, h, None)
  }

  /** Reading the header block once any unread data of the previous entry has been skipped. */
  function ReadHeader(u: TarState, pax: PaxReader): (r: (TarState, Outcome))
    requires Valid(u)
    ensures Valid(r.0) && r.0.blocks == u.blocks
    ensures r.1.Yield? ==> r.0.pos > u.pos && YieldedState(r.0, r.1.entry) && !r.0.hasHitEOF
    ensures r.1.EndOfArchive? ==> r.0.hasHitEOF && r.0.currentEntry == None
    ensures r.1 == Fail(BadHeader) ==> r.0.entrySize == 0 && r.0.entryOffset == 0 && r.0.currentEntry == None
  {
    if u.pos == |u.blocks| then
      (u.(hasHitEOF := true, currentEntry := None), EndOfArchive)
    else if IsEndOfArchiveBlock(u.blocks[u.pos]) then
      // the second zero block is read too (nothing is read when the stream has ended)
      (u.(pos := Min(u.pos + 2, |u.blocks|), hasHitEOF := true, currentEntry := None), EndOfArchive)
    else
      var h := u.blocks[u.pos].header;
      if !h.checksumOk then
        (u.(pos := u.pos + 1, hasHitEOF := false), Fail(ChecksumInvalid))
      else
        ReadEntry(u.(pos := u.pos + 1, hasHitEOF := false, entryOffset := 0, entrySize := h.size), h, pax)
  }

  /** The position the next header is read from: past the current entry's data when there is
      a current entry, else the stream position. */
  function HeaderPos(s: TarState): (p: nat)
    requires Valid(s)
    ensures s.pos <= p <= |s.blocks|
  {
    if s.currentEntry.Some? then EffEnd(s) else s.pos
  }

  /** One call of GetNextExtEntry. */
  function Next(s: TarState, pax: PaxReader): (r: (TarState, Outcome))
    requires Valid(s)
    ensures Valid(r.0) && r.0.blocks == s.blocks
    ensures r.1.Yield? ==> r.0.pos > s.pos && YieldedState(r.0, r.1.entry) && !r.0.hasHitEOF
    ensures r.1.EndOfArchive? ==> r.0.hasHitEOF && r.0.currentEntry == None
    ensures r.1 == Fail(BadHeader) ==> r.0.entrySize == 0 && r.0.entryOffset == 0 && r.0.currentEntry == None
  {
    if s.hasHitEOF then (s, EndOfArchive)
    else ReadHeader(if s.currentEntry.Some? then SkipToNextEntry(s) else s, pax)
  }

  /** TarInputStream.CopyEntryContents: Read in 32 KiB pieces until Read returns 0 or -1;
      the bytes produced are those written to the output file. */
  function CopyContents(s: TarState): (r: (TarState, seq<byte>))
    requires Valid(s)
    ensures Valid(r.0) && SameButStream(s, r.0) && r.0.pos >= s.pos
    decreases s.entrySize - s.entryOffset
  {
    if s.entryOffset >= s.entrySize then (s, [])
    else
      var r := ReadSpec(s, 32768);
      if r.1.NoData? then (r.0, [])
      else
        var rest := CopyContents(r.0);
        (rest.0, r.1.data + rest.1)
  }

  /** CopyContents unrolled once, for the reader's loop. */
  lemma CopyContentsStep(s: TarState)
    requires Valid(s)
    ensures var r := ReadSpec(s, 32768);
            CopyContents(s)
              == if s.entryOffset >= s.entrySize then (s, [])
                 else if r.1.NoData? then (r.0, [])
                 else (CopyContents(r.0).0, r.1.data + CopyContents(r.0).1)
  {
  }

  /** Copying writes a prefix of the pending bytes. */
  lemma {:induction false} CopyContentsPrefix(s: TarState)
    requires Valid(s)
    ensures CopyContents(s).1 <= Pending(s)
    decreases s.entrySize - s.entryOffset
  {
    if s.entryOffset < s.entrySize {
      var read := ReadSpec(s, 32768);
      if read.1.Bytes? {
        CopyContentsPrefix(read.0);
        assert CopyContents(s).1 == read.1.data + CopyContents(read.0).1;
        assert Pending(s) == read.1.data + Pending(read.0);
      }
    }
  }

  /** When the stream holds the rest of the entry, copying writes exactly that rest. */
  lemma {:induction false} CopyContentsComplete(s: TarState)
    requires Valid(s) && s.entrySize - s.entryOffset <= |Pending(s)|
    ensures CopyContents(s).1 == Pending(s)[..s.entrySize - s.entryOffset]
    ensures CopyContents(s).0.entryOffset == CopyContents(s).0.entrySize
    decreases s.entrySize - s.entryOffset
  {
    if s.entryOffset < s.entrySize {
      var read := ReadSpec(s, 32768);
      var d := read.1.data;
      CopyContentsComplete(read.0);
      assert CopyContents(s) == (CopyContents(read.0).0, d + CopyContents(read.0).1);
      var p := Pending(s);
      assert p[|d|..] == Pending(read.0);
      assert p[..s.entrySize - s.entryOffset] == d + p[|d|..][..s.entrySize - s.entryOffset - |d|];
    }
  }

  /** Copying leaves the place of the next header where it was. */
  lemma {:induction false} CopyKeepsEffEnd(s: TarState)
    requires Valid(s)
    ensures EffEnd(CopyContents(s).0) == EffEnd(s)
    decreases s.entrySize - s.entryOffset
  {
    if s.entryOffset < s.entrySize {
      ReadKeepsEffEnd(s, 32768);
      var r := ReadSpec(s, 32768);
      if r.1.Bytes? {
        CopyKeepsEffEnd(r.0);
      }
    }
  }

  /** Reading part of the current entry's data does not move the place where the next header
      will be read: that is fixed by the entry's size alone. */
  lemma ReadKeepsEffEnd(s: TarState, count: nat)
    requires Valid(s)
    ensures EffEnd(ReadSpec(s, count).0) == EffEnd(s)
  {
    var r := ReadSpec(s, count);
    if r.1.Bytes? {
      assert |Pending(r.0)| == |Pending(s)| - |r.1.data|;
    } else {
      assert |Pending(s)| - (s.entrySize - s.entryOffset) < 0;
    }
  }
}
