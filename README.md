# Layer expansion of winlayer-tools, in Dafny

This project models how winlayer-tools' LayerConverter turns a container layer (a tar
archive with GNU and pax extensions) into a Windows directory tree, and proves
properties of that model. Two parts are modelled:

- **The extended tar reader `ExtTarInputStream`.** It is a `class` with the reader's
  fields: stream position, partial-block buffer, `entrySize`, `entryOffset`,
  `hasHitEOF`, `currentEntry`, `curHeaders` and `longLink`. Its methods follow the C#
  code statement by statement: the read loops become `while` loops with invariants.
  Each method is proved equal to a function over an explicit state record
  (`TarArchive.TarState`). Those functions are the specification: `TarArchive.Next`
  is one call of `GetNextExtEntry`. The lemmas in `TarProperties` state what a call
  does, in terms of the archive's blocks.
- **The three passes of `LayerExpander` and `ApplyLayer`.** They work over a `Disk`
  whose tree maps paths (relative to the target directory) to directories, files,
  junctions and hard links with their metadata. Each pass is a method that loops over
  `GetNextExtEntry` and changes the disk in place. Each is proved equal to a function
  (`ExpandFrom`, `MetadataFrom`, `SecurityFrom`, `ApplyLayerSpec`). `LayerProperties`
  proves:
  - Expand is idempotent.
  - The metadata fields are set independently.
  - Security touches only security descriptors.
  - The passes run in order, and the later ones cannot fail once Expand succeeded.

Files:

| file | module | contents |
|---|---|---|
| common.dfy | Common | bytes, `Option`, `Min` |
| tar_archive.dfy | TarArchive | blocks, headers, entries; the reader's transitions as functions |
| tar_properties.dfy | TarProperties | what one `GetNextExtEntry` call yields, read off the blocks |
| ext_tar_input_stream.dfy | ExtTarReader | the `ExtTarInputStream` class and its loops |
| file_system.dfy | FileSystem | the directory tree, the OS calls' success rules, the `Disk` class |
| layer_expander.dfy | LayerExpander | the three passes and `ApplyLayer`, as functions and as methods |
| layer_properties.dfy | LayerProperties | idempotence, independence and ordering of the passes |

The tar library underneath the reader (SharpZipLib's `TarInputStream`, `TarBuffer`,
`TarHeader` and `TarExtendedHeaderReader`) is not part of this model. The model makes
these assumptions about it, taken from what the reader's own code checks for:

- The model assumes `ReadBlock` returns the next 512-byte block, or null once the stream
  has ended (the reader tests for null at ExtTarInputStream.cs:58).
- The model assumes `Read` serves the partial-block buffer first, then whole blocks, and
  returns -1 when the stream runs dry (the reader tests for -1 at ExtTarInputStream.cs:104
  and :133).
- The model assumes `Skip` reads through a buffer of 8192 bytes and `CopyEntryContents`
  through one of 32768 bytes.
- The header parser is an abstract record per block: type flag, name, link name, size,
  and whether the checksum matched.
- The pax record parser is a function parameter from the body bytes to a map.

If the library instead zero-fills a missing block or throws at the end of the stream,
the null and -1 paths of the model are never taken, and a truncated archive surfaces as
that exception rather than as the model's `NullHeader` or `BadHeader`.

One branch of the source cannot be taken: the junction branch of `ExpandArchive`
(LayerExpander.cs:30-33). `IsDirectory` is evaluated after the name has been
translated, so the name has no `/` left. A type flag of `LF_LINK` is not `LF_DIR`,
so a hard-link entry is never a directory there. `LayerExpander.BranchOf` proves
this, and the model writes that branch as `assert false`.

## Model

| member | source | states |
|---|---|---|
| TarArchive.Next | Applications/LayerConverter/ExtTarInputStream.cs:44-210 | one call keeps the reader valid on the same archive; a yielded entry advances the stream and becomes `currentEntry` with offset 0, size = the entry's size and no pending pax map or link; the end of the archive sets `hasHitEOF` and clears `currentEntry`; an InvalidHeaderException leaves size, offset and current entry reset |
| ExtTarReader.ExtTarInputStream.GetNextExtEntry | Applications/LayerConverter/ExtTarInputStream.cs:44-210 | the method's new fields and result are exactly `Next` of its old fields |
| ExtTarReader.ExtTarInputStream.ReadHeaderBlock | Applications/LayerConverter/ExtTarInputStream.cs:56-90 | reading the header block (null, zero block plus one more, bad checksum, or a valid header) is exactly `ReadHeader` |
| ExtTarReader.ExtTarInputStream.ReadEntryOf | Applications/LayerConverter/ExtTarInputStream.cs:91-197 | the dispatch on the type flag is exactly `ReadEntry` |
| TarArchive.ReadEntry | Applications/LayerConverter/ExtTarInputStream.cs:91-197 | after a valid header the call never signals end of archive and never raises the checksum error; a yield leaves the yielded state; BadHeader leaves the fields reset |
| TarProperties.EofIsSticky | Applications/LayerConverter/ExtTarInputStream.cs:46-49 | once `hasHitEOF` is set a call returns null and changes nothing |
| TarProperties.SkipReachesHeaderPos | Applications/LayerConverter/ExtTarInputStream.cs:51-54 | the header is read where the previous entry's data ends; the read buffer is dropped; only the stream fields change |
| TarProperties.EndOfArchiveDetection | Applications/LayerConverter/ExtTarInputStream.cs:56-77 | a call ends the archive if and only if the stream is exhausted where the header belongs or that block is all zeros; a zero block consumes one more block when there is one; `currentEntry` is cleared |
| TarProperties.ChecksumFailure | Applications/LayerConverter/ExtTarInputStream.cs:84-87 | the checksum error arises if and only if the header block is present, not all zeros and badly summed |
| TarProperties.LongNameEntry | Applications/LayerConverter/ExtTarInputStream.cs:93-115 | a GNU long-name header yields the block after its body, renamed to the body read in pieces and cut at NULs; a body longer than the stream gives BadHeader; a missing next block gives the null-header failure |
| TarProperties.PaxEntry | Applications/LayerConverter/ExtTarInputStream.cs:122-156 | a pax header yields the block after its body with the parsed map as `Headers`; `path` overrides the name and `linkpath` the link name, each only when present; a short body gives BadHeader |
| TarProperties.SkippedHeaderEntry | Applications/LayerConverter/ExtTarInputStream.cs:116-121 | a global header, a volume header or an unknown flag skips its body; the block after it is yielded unchanged, with no checks |
| TarProperties.NormalEntry | Applications/LayerConverter/ExtTarInputStream.cs:163-197 | a regular, old-normal, link, symlink or directory header is yielded as it is; the stream ends right after it |
| TarProperties.BodySkipPos | Applications/LayerConverter/ExtTarInputStream.cs:19-29 | after a header, the pending bytes are the following blocks; skipping a body of n bytes lands ceil(n/512) blocks further on, or at the end |
| TarProperties.NextEquiv | Applications/LayerConverter/ExtTarInputStream.cs:44-210 | two states that read their next header at the same place with the same pending state make the same call produce the same outcome; they stay equivalent |
| TarProperties.ReadHeaderEquiv | Applications/LayerConverter/ExtTarInputStream.cs:56-90 | reading a header does not depend on the previous entry's size or offset |
| TarProperties.CopyKeepsEquiv | Applications/LayerConverter/LayerExpander.cs:62-63 | copying an entry's contents out does not change where the next header is read |
| TarArchive.BuildEntry | Applications/LayerConverter/ExtTarInputStream.cs:174-197 | the entry takes the long name if any, the pending link name if any, and the pending pax map; every other header field is kept; the pending state is cleared; offset is 0 and size is the entry's size |
| TarArchive.NextBlockAsEntry | Applications/LayerConverter/ExtTarInputStream.cs:113-114 | the block read after a special header becomes the entry if there is one, with the long name, the pending link name and the pending pax map applied and every other header field as the block has it; otherwise the call fails with the null-header error and nothing changes |
| TarArchive.ResetOnBadHeader | Applications/LayerConverter/ExtTarInputStream.cs:199-206 | the catch sets size and offset to 0 and clears `currentEntry`, and nothing else |
| TarArchive.SkipToNextEntry | Applications/LayerConverter/ExtTarInputStream.cs:19-29 | the stream moves to the end of the current entry's data; the read buffer is discarded; when the data is there, exactly `entrySize - entryOffset` bytes are consumed |
| TarArchive.SkipBytesPending | Applications/LayerConverter/ExtTarInputStream.cs:25 | skipping n bytes consumes exactly the next n pending bytes and adds n to the offset, or drains the stream when fewer are pending |
| ExtTarReader.ExtTarInputStream.SkipToNextEntry | Applications/LayerConverter/ExtTarInputStream.cs:19-29 | the method is exactly `TarArchive.SkipToNextEntry` |
| ExtTarReader.ExtTarInputStream.Skip | Applications/LayerConverter/ExtTarInputStream.cs:25 | the skip loop is exactly `SkipBytes` |
| ExtTarReader.SkipTurn | Applications/LayerConverter/ExtTarInputStream.cs:25 | one turn of the skip loop: -1 ends it; otherwise it reads between 1 and the remaining bytes, and the rest of the skip continues from the new state |
| ExtTarReader.ExtTarInputStream.Read | Applications/LayerConverter/ExtTarInputStream.cs:102 | the library read is exactly `ReadSpec`; -1 or the count of bytes returned |
| TarArchive.ReadSpec | Applications/LayerConverter/ExtTarInputStream.cs:102 | a read returns -1 exactly when fewer than min(count, remaining) bytes are pending; otherwise it returns that many of the next pending bytes and advances the offset by as many |
| TarArchive.ReadChunksReads | Applications/LayerConverter/ExtTarInputStream.cs:100-112 | the body loop succeeds if and only if the whole body is pending; the pieces are the body cut into blocks; the offset reaches the size; a -1 drains the stream |
| TarArchive.LongNameLoopReads | Applications/LayerConverter/ExtTarInputStream.cs:100-112 | the long-name loop's name is the name parsed from each piece read, concatenated |
| TarArchive.PaxLoopReads | Applications/LayerConverter/ExtTarInputStream.cs:129-140 | the pax loop feeds the parser exactly the body bytes, in order |
| ExtTarReader.LongNameTurn | Applications/LayerConverter/ExtTarInputStream.cs:100-112 | one turn reads at most a block of what is left: -1 ends the loop with no name; otherwise the loop continues with the piece's name appended |
| ExtTarReader.PaxTurn | Applications/LayerConverter/ExtTarInputStream.cs:129-140 | one turn reads at most a block of what is left: -1 ends the loop; otherwise the piece is fed to the parser |
| ExtTarReader.ExtTarInputStream.ReadLongName | Applications/LayerConverter/ExtTarInputStream.cs:95-112 | the method's loop is exactly `LongNameLoop` over the whole body |
| ExtTarReader.ExtTarInputStream.ReadExtendedHeader | Applications/LayerConverter/ExtTarInputStream.cs:124-140 | the method's loop is exactly `PaxLoop` over the whole body |
| ExtTarReader.ExtTarInputStream.LongNameHeader | Applications/LayerConverter/ExtTarInputStream.cs:93-115 | the long-name branch is exactly `LongNameBranch` |
| ExtTarReader.ExtTarInputStream.PaxHeader | Applications/LayerConverter/ExtTarInputStream.cs:122-156 | the pax branch is exactly `PaxBranch` |
| ExtTarReader.ExtTarInputStream.ApplyPaxHeaders | Applications/LayerConverter/ExtTarInputStream.cs:142-155 | the map is kept as `curHeaders`; `linkpath` becomes the pending link; then the next block is taken |
| ExtTarReader.ExtTarInputStream.FinishEntry | Applications/LayerConverter/ExtTarInputStream.cs:174-197 | building the entry is exactly `BuildEntry`, or the null-header failure when there is no block |
| ExtTarReader.ExtTarInputStream.AbandonEntry | Applications/LayerConverter/ExtTarInputStream.cs:199-206 | the catch resets the fields and rethrows as BadHeader |
| ExtTarReader.ExtTarInputStream.CopyEntryContents | Applications/LayerConverter/LayerExpander.cs:63 | the copy loop is exactly `CopyContents` |
| TarArchive.CopyContentsComplete | Applications/LayerConverter/LayerExpander.cs:63 | when the data is there, the bytes written are exactly the rest of the entry's data; the offset reaches the size |
| TarArchive.CopyContentsPrefix | Applications/LayerConverter/LayerExpander.cs:63 | the bytes written are always a prefix of the pending bytes |
| ExtTarReader.ExtTarInputStream.constructor | Applications/LayerConverter/LayerExpander.cs:16-17 | a fresh reader starts at the first block with nothing pending |
| LayerExpander.Translate | Applications/LayerConverter/LayerExpander.cs:25-26 | every `/` becomes `\`; every other character and the length are kept |
| LayerProperties.TranslateIdempotent | Applications/LayerConverter/LayerExpander.cs:49 | translating a translated name changes nothing |
| LayerExpander.Localized | Applications/LayerConverter/LayerExpander.cs:23-26 | the name is translated; the link name is translated for LF_LINK only; the type and the pax map are kept |
| LayerExpander.BranchOf | Applications/LayerConverter/LayerExpander.cs:23-65 | the link branch is taken if and only if the type is LF_LINK; a directory is created if and only if the type is LF_DIR; the junction branch is never taken |
| LayerExpander.ExpandEntry | Applications/LayerConverter/LayerExpander.cs:23-65 | an entry whose path already holds its kind changes nothing; otherwise only its path is added. A hard link is created to the translated link name if and only if the name is free and the target is a file, else the pass aborts with the hard-link failure; a directory is created unless a file has the name (then the directory failure); a file is created unless a directory has the name (then the file failure), and only then are the contents copied into it |
| LayerProperties.ExpandStopsOnFailedLink | Applications/LayerConverter/LayerExpander.cs:36-43 | an entry whose hard link cannot be created ends the Expand pass with the Win32Exception, the tree as the earlier entries left it |
| LayerProperties.ExpandMakesLink | Applications/LayerConverter/LayerExpander.cs:36-44 | a hard link whose name is free and whose target is a file is added, and the pass continues from the tree holding it |
| LayerExpander.ExpandFrom | Applications/LayerConverter/LayerExpander.cs:19-67 | Expand never removes or changes a node that was there |
| LayerExpander.ExpandOne | Applications/LayerConverter/LayerExpander.cs:23-65 | the loop body changes the disk and the reader exactly as `ExpandEntry` and `CopyContents` say |
| LayerExpander.ExpandArchive | Applications/LayerConverter/LayerExpander.cs:14-68 | the pass ends with the tree and status `ExpandFrom` gives from a fresh reader |
| LayerProperties.ExpandAgain | Applications/LayerConverter/LayerExpander.cs:32-60 | over the tree a successful Expand left, Expand from an equivalent reader succeeds and changes nothing |
| LayerProperties.ExpandIdempotent | Applications/LayerConverter/LayerExpander.cs:14-68 | Expand run twice on the same archive gives the same tree as once |
| LayerExpander.SetFromHeader | Applications/LayerConverter/LayerExpander.cs:117-124 | a guarded setter changes only the entry's path |
| LayerExpander.MetadataEntry | Applications/LayerConverter/LayerExpander.cs:115-152 | an entry without a pax map changes nothing; otherwise only its own path is touched |
| LayerProperties.SetFromHeaderEffect | Applications/LayerConverter/LayerExpander.cs:117-124 | a setter sets its field to the header text exactly when the key is present, the text converts and the path is of the entry's kind; other fields and the tree's shape are kept |
| LayerProperties.MetadataFieldwise | Applications/LayerConverter/LayerExpander.cs:115-152 | creation time, mtime, attributes and atime each end as their own setter decides, whatever the other three did |
| LayerProperties.MetadataEntryShape | Applications/LayerConverter/LayerExpander.cs:115-152 | a Metadata iteration changes metadata only, and never a security descriptor |
| LayerProperties.MetadataPassShape | Applications/LayerConverter/LayerExpander.cs:70-154 | the whole Metadata pass changes metadata only, and never a security descriptor |
| LayerExpander.MetadataFrom | Applications/LayerConverter/LayerExpander.cs:70-154 | the Metadata pass fails only by a reader exception; it keeps every path |
| LayerExpander.MetadataOne | Applications/LayerConverter/LayerExpander.cs:81-152 | the loop body changes the disk exactly as `MetadataEntry` says |
| LayerExpander.ApplyArchiveMetadata | Applications/LayerConverter/LayerExpander.cs:70-154 | the pass ends with the tree and status `MetadataFrom` gives from a fresh reader |
| LayerExpander.SecurityEntry | Applications/LayerConverter/LayerExpander.cs:204-223 | an entry without a pax map changes nothing; otherwise only its own path is touched |
| LayerProperties.SecurityEntryOnly | Applications/LayerConverter/LayerExpander.cs:204-223 | the descriptor is set exactly when `MSWINDOWS.rawsd` is present, it applies and the path is of the entry's kind; nothing else changes |
| LayerProperties.SecurityPassOnly | Applications/LayerConverter/LayerExpander.cs:156-226 | the whole Security pass changes security descriptors only |
| LayerExpander.SecurityFrom | Applications/LayerConverter/LayerExpander.cs:156-226 | the Security pass fails only by a reader exception; it keeps every path |
| LayerExpander.SecurityOne | Applications/LayerConverter/LayerExpander.cs:170-223 | the loop body changes the disk exactly as `SecurityEntry` says |
| LayerExpander.ApplyArchiveSecurity | Applications/LayerConverter/LayerExpander.cs:156-226 | the pass ends with the tree and status `SecurityFrom` gives from a fresh reader |
| LayerProperties.LaterPassesSucceed | Applications/LayerConverter/LayerExpander.cs:236-238 | each pass reads the archive afresh, so once Expand got through it, neither Metadata nor Security meets a reader exception |
| LayerExpander.ApplyLayer | Applications/LayerConverter/LayerExpander.cs:231-241 | the method ends with the tree and status `ApplyLayerSpec` gives |
| LayerProperties.ApplyLayerOrder | Applications/LayerConverter/LayerExpander.cs:231-241 | a target that is a file stops the call first; an exception in Expand ends the call with Expand's tree; once Expand succeeds the whole call succeeds, the later passes change metadata only, and the target directory is there |
| FileSystem.MakeDirectory | Applications/LayerConverter/LayerExpander.cs:56 | creating a directory fails if and only if a file has the name; otherwise it adds the directory and changes nothing else |
| FileSystem.MakeFile | Applications/LayerConverter/LayerExpander.cs:62 | creating a file fails if and only if a directory has the name; otherwise it leaves an empty file and changes nothing else |
| FileSystem.MakeHardLink | Applications/LayerConverter/LayerExpander.cs:39-43 | a hard link is made if and only if the name is free and the target is a file |
| FileSystem.TrySet | Applications/LayerConverter/LayerExpander.cs:119-123 | a guarded setter changes only its path, only when the text converts and the kind matches |
| FileSystem.Disk.CreateHardLink | Applications/LayerConverter/LayerExpander.cs:39 | the call succeeds and changes the tree exactly as `MakeHardLink` says |
| FileSystem.Disk.CreateDirectory | Applications/LayerConverter/LayerExpander.cs:56 | the call succeeds and changes the tree exactly as `MakeDirectory` says |
| FileSystem.Disk.CreateFile | Applications/LayerConverter/LayerExpander.cs:62 | the call succeeds and changes the tree exactly as `MakeFile` says |
| FileSystem.Disk.Write | Applications/LayerConverter/LayerExpander.cs:63 | writing appends the bytes to the file and changes nothing else |
| FileSystem.Disk.Set | Applications/LayerConverter/LayerExpander.cs:121 | one setter changes the tree exactly as `TrySet` says |

## Left out

- Gzip decompression (LayerExpander.cs:16, 74, 163): each pass reads the archive's
  blocks directly.
- Console output, and the text of the exception messages with record and block numbers
  (ExtTarInputStream.cs:204-205): they have no effect on the state.
- Enabling the Restore and TakeOwnership privileges (LayerExpander.cs:160-161): a
  process-wide OS effect outside the tree.
- SharpZipLib is not part of this model. Its reads are modelled by the behaviour described
  above, its header parser by an abstract record per block, and its pax parser by a
  function parameter.
- `JunctionPoint.Create` (LayerExpander.cs:33): that branch cannot be taken (see above),
  so junctions are never created. `Junction` nodes exist in the tree only so that a
  target tree can already contain them.
- The conversions (`double.Parse` plus `DateTime.AddSeconds`, `int.Parse` plus the
  attribute setter, Base64 decoding plus the ACL calls) are modelled as predicates of
  `FileSystem.Os` that say whether the call succeeds. A field that is set holds the header
  text it was set from, not the converted time, mask or descriptor.
- FileSystem.TrySet: a setter is taken to succeed only on a path of the kind its info
  object names (a `FileInfo` on a file, a `DirectoryInfo` on a directory). Whether
  Windows accepts a `FileInfo` setter on a directory is not modelled.
- FileSystem.MakeFile: does not fail when the parent directory is missing. `File.Create`
  throws in that case, and the model does not track parent directories.
- FileSystem.MakeDirectory: adds only the named directory. `Directory.CreateDirectory`
  also creates every missing parent directory, and fails when a parent component is a
  file; the model does not track parent directories.
- FileSystem.MakeHardLink: a hard link is its own node with its own metadata. On NTFS it
  shares the data and metadata of its target. `CreateHardLink` also fails when the new
  name's parent directory is missing; the model lets it succeed.
- Paths are compared as exact strings: NTFS case-insensitivity, `..` segments and absolute
  names that `Path.Combine` would not keep under the target directory are not modelled.
- `File.OpenRead` failing on a missing archive, and I/O errors of the disk, are not
  modelled.
- Sizes are unbounded naturals. The source's `long` sizes and `int` read counts never
  overflow for archives that fit on a disk, and a parsed size is never negative.

Unlike readers that loop over consecutive extension headers, this reader takes the very
next block after a GNU long-name, pax, global, volume or unknown header as the yielded
entry (ExtTarInputStream.cs:113-114, 119-120, 154-155,
160-161, 170-171, 174). The reader does not check that block's checksum or type flag, and
it does not loop over several special headers in a row. A missing block there is the
`NullHeader` failure, because `new ExtTarEntry(null)` throws.
