/**
 * LayerExpander: a layer archive is materialised in three passes over the same archive,
 * each with a fresh reader. Expand creates what is missing (links, directories, files with
 * their contents), Metadata sets times and attributes, Security sets security descriptors.
 *
 * Each pass is a method looping over GetNextExtEntry and changing the Disk in place, proved
 * to end in the tree and status that the matching function computes from the reader states
 * of TarArchive.
 */
module LayerExpander {
  import opened Common
  import opened TarArchive
  import opened FileSystem
  import opened ExtTarReader

  /** string.Replace("/", "\\"): every forward slash becomes a backslash. */
  function Translate(s: string): (r: string)
    ensures |r| == |s| && '/' !in r
    ensures forall i | 0 <= i < |s| :: s[i] != '/' ==> r[i] == s[i]
    ensures forall i | 0 <= i < |s| :: s[i] == '/' ==> r[i] == '\\'
  {
    if s == [] then []
    else [if s[0] == '/' then '\\' else s[0]] + Translate(s[1..])
  }

  /** TarEntry.IsDirectory for an entry read from an archive. */
  predicate IsDirectory(h: Header) {
    h.typeFlag == LF_DIR || (|h.name| > 0 && h.name[|h.name| - 1] == '/')
  }

  /** The entry after a pass has renamed it in place: the name is translated, and for a hard
      link the link name too. */
  function Localized(e: Entry): (l: Entry)
    ensures l.headers == e.headers && l.header.typeFlag == e.header.typeFlag
    ensures l.header.name == Translate(e.header.name)
    ensures l.header.linkName == if e.header.typeFlag == LF_LINK then Translate(e.header.linkName)
                                 else e.header.linkName
  {
    if e.header.typeFlag == LF_LINK then
      e.(header := e.header.(name := Translate(e.header.name), linkName := Translate(e.header.linkName)))
    else
      e.(header := e.header.(name := Translate(e.header.name)))
  }

  /** The path an entry is materialised at, relative to the target directory. */
  function PathOf(e: Entry): string {
    Localized(e).header.name
  }

  /** Which of the four branches of the Expand loop an entry takes. */
  datatype Branch = LinkDirectory | LinkFile | PlainDirectory | PlainFile

  /** The branch is chosen on the type flag, then on IsDirectory of the renamed entry. Since
      the name has lost its slashes by then, only the directory type flag counts as a
      directory, and a hard link never takes the junction branch. */
  function BranchOf(e: Entry): (b: Branch)
    ensures (b == LinkDirectory || b == LinkFile) <==> e.header.typeFlag == LF_LINK
    ensures b != LinkDirectory
    ensures b == PlainDirectory <==> e.header.typeFlag == LF_DIR
  {
    var l := Localized(e);
    assert |l.header.name| > 0 ==> l.header.name[|l.header.name| - 1] != '/';
    if e.header.typeFlag == LF_LINK then
      (if IsDirectory(l.header) then LinkDirectory else LinkFile)
    else if IsDirectory(l.header) then PlainDirectory
    else PlainFile
  }

  /** The entry's path already holds what its branch would create, so Expand leaves it. */
  predicate Settled(t: Tree, e: Entry) {
    if BranchOf(e) == LinkDirectory || BranchOf(e) == PlainDirectory then DirectoryExists(t, PathOf(e))
    else FileExists(t, PathOf(e))
  }

  /** Every node of t is still in u, unchanged. */
  predicate Extends(t: Tree, u: Tree) {
    forall q | q in t :: q in u && u[q] == t[q]
  }

  /** A Win32Exception from CreateHardLink, or the exception of Directory.CreateDirectory or
      File.Create. */
  datatype FsError = HardLinkFailed | DirectoryFailed | FileFailed

  /** How a pass ends: normally, by an exception from the reader, or by one from the OS. */
  datatype Status = Done | TarFailed(tarError: TarError) | FsFailed(fsError: FsError)

  /** The effect of one entry on the tree in the Expand pass; copied says the entry's
      contents were read out of the archive. */
  datatype Step = Continue(tree: Tree, copied: bool) | Abort(error: FsError)

  /** One iteration of the Expand loop, given the bytes CopyEntryContents would write. */
  function ExpandEntry(t: Tree, e: Entry, contents: seq<byte>): (r: Step)
    ensures Settled(t, e) ==> r == Continue(t, false)
    ensures r.Abort? ==> !Settled(t, e)
    ensures r.Continue? ==> Extends(t, r.tree) && Settled(r.tree, e)
    ensures r.Continue? && r.tree != t ==> PathOf(e) !in t && r.tree.Keys == t.Keys + {PathOf(e)}
    ensures r.Continue? && r.copied ==> r.tree == t[PathOf(e) := File(contents, map[])]
    ensures r.Continue? && r.copied <==> BranchOf(e) == PlainFile && r.Continue? && r.tree != t
    // CreateHardLink: a free name and an existing file to link to, else a Win32Exception
    ensures BranchOf(e) == LinkFile && !Settled(t, e) ==>
              var target := Localized(e).header.linkName;
              && (r.Abort? <==> !(PathOf(e) !in t && FileExists(t, target)))
              && (r.Abort? ==> r.error == HardLinkFailed)
              && (r.Continue? ==> r.tree == t[PathOf(e) := HardLink(target, map[])] && !r.copied)
    // Directory.CreateDirectory throws where a file has the name
    ensures BranchOf(e) == PlainDirectory && !Settled(t, e) ==>
              && (r.Abort? <==> FileExists(t, PathOf(e)))
              && (r.Abort? ==> r.error == DirectoryFailed)
              && (r.Continue? ==> r.tree == t[PathOf(e) := Directory(map[])] && !r.copied)
    // File.Create throws where a directory has the name
    ensures BranchOf(e) == PlainFile && !Settled(t, e) ==>
              && (r.Abort? <==> DirectoryExists(t, PathOf(e)))
              && (r.Abort? ==> r.error == FileFailed)
              && (r.Continue? ==> r.tree == t[PathOf(e) := File(contents, map[])] && r.copied)
  {
    var l := Localized(e);
    var p := l.header.name;
    match BranchOf(e)
    case LinkDirectory =>
      // JunctionPoint.Create: BranchOf shows this branch is never taken
      assert false; Continue(t, false)
    case LinkFile =>
      if FileExists(t, p) then Continue(t, false)
      else
        var m := MakeHardLink(t, p, l.header.linkName);
        if m.None? then Abort(HardLinkFailed) else Continue(m.value, false)
    case PlainDirectory =>
      if DirectoryExists(t, p) then Continue(t, false)
      else
        var m := MakeDirectory(t, p);
        if m.None? then Abort(DirectoryFailed) else Continue(m.value, false)
    case PlainFile =>
      if FileExists(t, p) then Continue(t, false)
      else
        var m := MakeFile(t, p);
        if m.None? then Abort(FileFailed) else Continue(m.value[p := File(contents, map[])], true)
  }

  /** The Expand pass from reader state s: entries are processed until the end of the
      archive or the first exception; the contents of a file are copied out only when the
      file is created. */
  function ExpandFrom(s: TarState, t: Tree, pax: PaxReader): (r: (Tree, Status))
    requires Valid(s)
    ensures Extends(t, r.0)
    decreases |s.blocks| - s.pos
  {
    var n := Next(s, pax);
    if n.1.EndOfArchive? then (t, Done)
    else if n.1.Fail? then (t, TarFailed(n.1.error))
    else
      var c := CopyContents(n.0);
      var step := ExpandEntry(t, n.1.entry, c.1);
      if step.Abort? then (t, FsFailed(step.error))
      else ExpandFrom(if step.copied then c.0 else n.0, step.tree, pax)
  }

  /** t and u hold the same nodes, up to metadata. */
  predicate SameShape(t: Tree, u: Tree) {
    t.Keys == u.Keys && forall q | q in t :: u[q].(meta := t[q].meta) == t[q]
  }

  /** Field f is the same, set or unset, at every path of t and u. */
  predicate SameField(t: Tree, u: Tree, f: Field) {
    t.Keys == u.Keys &&
    forall q | q in t :: (f in t[q].meta <==> f in u[q].meta) && (f in t[q].meta ==> t[q].meta[f] == u[q].meta[f])
  }

  /** One of the guarded setters of the Metadata and Security passes: attempted only when
      the entry's headers have the key. */
  function SetFromHeader(t: Tree, e: Entry, f: Field, key: string, converts: string -> bool): (r: Tree)
    requires e.headers.Some?
    ensures r.Keys == t.Keys
    ensures forall q | q in t && q != PathOf(e) :: r[q] == t[q]
  {
    var hs := e.headers.value;
    if key in hs then
      TrySet(t, PathOf(e), IsDirectory(Localized(e).header), f, hs[key], converts(hs[key]))
    else t
  }

  /** One iteration of the Metadata loop: the four fields, each in its own try block, only
      for an entry that carries a pax map. */
  function MetadataEntry(t: Tree, e: Entry, os: Os): (r: Tree)
    ensures r.Keys == t.Keys
    ensures forall q | q in t && q != PathOf(e) :: r[q] == t[q]
    ensures e.headers.None? ==> r == t
  {
    if e.headers.None? then t
    else
      var t1 := SetFromHeader(t, e, CreationTime, "LIBARCHIVE.creationtime", os.seconds);
      var t2 := SetFromHeader(t1, e, LastWriteTime, "mtime", os.seconds);
      var t3 := SetFromHeader(t2, e, Attributes, "MSWINDOWS.fileattr", os.attributes);
      SetFromHeader(t3, e, LastAccessTime, "atime", os.seconds)
  }

  /** One iteration of the Security loop: the raw descriptor, if the pax map has one. */
  function SecurityEntry(t: Tree, e: Entry, os: Os): (r: Tree)
    ensures r.Keys == t.Keys
    ensures forall q | q in t && q != PathOf(e) :: r[q] == t[q]
    ensures e.headers.None? ==> r == t
  {
    if e.headers.None? then t
    else SetFromHeader(t, e, SecurityDescriptor, "MSWINDOWS.rawsd", os.descriptor)
  }

  /** The Metadata pass from reader state s; nothing but the reader can make it throw. */
  function MetadataFrom(s: TarState, t: Tree, pax: PaxReader, os: Os): (r: (Tree, Status))
    requires Valid(s)
    ensures r.1 == Done || r.1.TarFailed?
    ensures r.0.Keys == t.Keys
    decreases |s.blocks| - s.pos
  {
    var n := Next(s, pax);
    if n.1.EndOfArchive? then (t, Done)
    else if n.1.Fail? then (t, TarFailed(n.1.error))
    else MetadataFrom(n.0, MetadataEntry(t, n.1.entry, os), pax, os)
  }

  /** The Security pass from reader state s; its failures are all swallowed but the reader's. */
  function SecurityFrom(s: TarState, t: Tree, pax: PaxReader, os: Os): (r: (Tree, Status))
    requires Valid(s)
    ensures r.1 == Done || r.1.TarFailed?
    ensures r.0.Keys == t.Keys
    decreases |s.blocks| - s.pos
  {
    var n := Next(s, pax);
    if n.1.EndOfArchive? then (t, Done)
    else if n.1.Fail? then (t, TarFailed(n.1.error))
    else SecurityFrom(n.0, SecurityEntry(t, n.1.entry, os), pax, os)
  }

  /** ApplyLayer: the target directory ("") is created if missing, then the three passes run
      in order, each over a fresh reader, and an exception ends the whole call. */
  function ApplyLayerSpec(t: Tree, blocks: seq<Block>, pax: PaxReader, os: Os): (r: (Tree, Status))
    requires WellFormed(blocks)
  {
    var root := if DirectoryExists(t, "") then Some(t) else MakeDirectory(t, "");
    if root.None? then (t, FsFailed(DirectoryFailed))
    else
      var expanded := ExpandFrom(Fresh(blocks), root.value, pax);
      if expanded.1 != Done then expanded
      else
        var stamped := MetadataFrom(Fresh(blocks), expanded.0, pax, os);
        if stamped.1 != Done then stamped
        else SecurityFrom(Fresh(blocks), stamped.0, pax, os)
  }

  /** The body of the Expand loop for one entry. */
  method ExpandOne(disk: Disk, reader: ExtTarInputStream, e: Entry) returns (failure: Option<FsError>)
    requires reader.Valid()
    modifies disk, reader
    ensures reader.Valid() && reader.pos >= old(reader.pos)
    ensures var c := CopyContents(old(reader.State()));
            var step := ExpandEntry(old(disk.tree), e, c.1);
            && (failure.Some? <==> step.Abort?)
            && (step.Abort? ==> failure.value == step.error && disk.tree == old(disk.tree))
            && (step.Continue? ==> && disk.tree == step.tree
                                   && reader.State() == if step.copied then c.0 else old(reader.State()))
  {
    var entry := e;
    if entry.header.typeFlag == LF_LINK {
      entry := entry.(header := entry.header.(name := Translate(entry.header.name)));
      entry := entry.(header := entry.header.(linkName := Translate(entry.header.linkName)));
      if IsDirectory(entry.header) {
        // JunctionPoint.Create: BranchOf shows this branch is never taken
        assert false;
      } else if !FileExists(disk.tree, entry.header.name) {
        var ok := disk.CreateHardLink(entry.header.name, entry.header.linkName);
        if !ok {
          return Some(HardLinkFailed);
        }
      }
    } else {
      entry := entry.(header := entry.header.(name := Translate(entry.header.name)));
      if IsDirectory(entry.header) {
        if !DirectoryExists(disk.tree, entry.header.name) {
          var ok := disk.CreateDirectory(entry.header.name);
          if !ok {
            return Some(DirectoryFailed);
          }
        }
      } else if !FileExists(disk.tree, entry.header.name) {
        var ok := disk.CreateFile(entry.header.name);
        if !ok {
          return Some(FileFailed);
        }
        var written := reader.CopyEntryContents();
        disk.Write(entry.header.name, written);
        assert [] + written == written;
      }
    }
    return None;
  }

  /** LayerExpander.ExpandArchive. */
  method ExpandArchive(disk: Disk, blocks: seq<Block>, pax: PaxReader) returns (status: Status)
    requires WellFormed(blocks)
    modifies disk
    ensures (disk.tree, status) == ExpandFrom(Fresh(blocks), old(disk.tree), pax)
  {
    var reader := new ExtTarInputStream(blocks, pax);
    ghost var result := ExpandFrom(reader.State(), disk.tree, pax);
    while true
      invariant reader.Valid() && reader.blocks == blocks && reader.pax == pax
      invariant ExpandFrom(reader.State(), disk.tree, pax) == result
      decreases |blocks| - reader.pos
    {
      var outcome := reader.GetNextExtEntry();
      if outcome.EndOfArchive? {
        return Done;
      }
      if outcome.Fail? {
        return TarFailed(outcome.error);
      }
      var failure := ExpandOne(disk, reader, outcome.entry);
      if failure.Some? {
        return FsFailed(failure.value);
      }
    }
  }

  /** The body of the Metadata loop for one entry. */
  method MetadataOne(disk: Disk, e: Entry, os: Os)
    modifies disk
    ensures disk.tree == MetadataEntry(old(disk.tree), e, os)
  {
    var entry := Localized(e);
    var path := entry.header.name;
    var asDirectory := IsDirectory(entry.header);
    if entry.headers.Some? {
      var hs := entry.headers.value;
      if "LIBARCHIVE.creationtime" in hs {
        disk.Set(path, asDirectory, CreationTime, hs["LIBARCHIVE.creationtime"], os.seconds(hs["LIBARCHIVE.creationtime"]));
      }
      if "mtime" in hs {
        disk.Set(path, asDirectory, LastWriteTime, hs["mtime"], os.seconds(hs["mtime"]));
      }
      if "MSWINDOWS.fileattr" in hs {
        disk.Set(path, asDirectory, Attributes, hs["MSWINDOWS.fileattr"], os.attributes(hs["MSWINDOWS.fileattr"]));
      }
      if "atime" in hs {
        disk.Set(path, asDirectory, LastAccessTime, hs["atime"], os.seconds(hs["atime"]));
      }
    }
  }

  /** LayerExpander.ApplyArchiveMetadata. */
  method ApplyArchiveMetadata(disk: Disk, blocks: seq<Block>, pax: PaxReader, os: Os) returns (status: Status)
    requires WellFormed(blocks)
    modifies disk
    ensures (disk.tree, status) == MetadataFrom(Fresh(blocks), old(disk.tree), pax, os)
  {
    var reader := new ExtTarInputStream(blocks, pax);
    ghost var result := MetadataFrom(reader.State(), disk.tree, pax, os);
    while true
      invariant reader.Valid() && reader.blocks == blocks && reader.pax == pax
      invariant MetadataFrom(reader.State(), disk.tree, pax, os) == result
      decreases |blocks| - reader.pos
    {
      var outcome := reader.GetNextExtEntry();
      if outcome.EndOfArchive? {
        return Done;
      }
      if outcome.Fail? {
        return TarFailed(outcome.error);
      }
      MetadataOne(disk, outcome.entry, os);
    }
  }

  /** The body of the Security loop for one entry. */
  method SecurityOne(disk: Disk, e: Entry, os: Os)
    modifies disk
    ensures disk.tree == SecurityEntry(old(disk.tree), e, os)
  {
    var entry := Localized(e);
    if entry.headers.Some? && "MSWINDOWS.rawsd" in entry.headers.value {
      var rawSd := entry.headers.value["MSWINDOWS.rawsd"];
      disk.Set(entry.header.name, IsDirectory(entry.header), SecurityDescriptor, rawSd, os.descriptor(rawSd));
    }
  }

  /** LayerExpander.ApplyArchiveSecurity. */
  method ApplyArchiveSecurity(disk: Disk, blocks: seq<Block>, pax: PaxReader, os: Os) returns (status: Status)
    requires WellFormed(blocks)
    modifies disk
    ensures (disk.tree, status) == SecurityFrom(Fresh(blocks), old(disk.tree), pax, os)
  {
    var reader := new ExtTarInputStream(blocks, pax);
    ghost var result := SecurityFrom(reader.State(), disk.tree, pax, os);
    while true
      invariant reader.Valid() && reader.blocks == blocks && reader.pax == pax
      invariant SecurityFrom(reader.State(), disk.tree, pax, os) == result
      decreases |blocks| - reader.pos
    {
      var outcome := reader.GetNextExtEntry();
      if outcome.EndOfArchive? {
        return Done;
      }
      if outcome.Fail? {
        return TarFailed(outcome.error);
      }
      SecurityOne(disk, outcome.entry, os);
    }
  }

  /** LayerExpander.ApplyLayer. */
  method ApplyLayer(disk: Disk, blocks: seq<Block>, pax: PaxReader, os: Os) returns (status: Status)
    requires WellFormed(blocks)
    modifies disk
    ensures (disk.tree, status) == ApplyLayerSpec(old(disk.tree), blocks, pax, os)
  {
    if !DirectoryExists(disk.tree, "") {
      var ok := disk.CreateDirectory("");
      if !ok {
        return FsFailed(DirectoryFailed);
      }
    }
    status := ExpandArchive(disk, blocks, pax);
    if status != Done {
      return;
    }
    status := ApplyArchiveMetadata(disk, blocks, pax, os);
    if status != Done {
      return;
    }
    status := ApplyArchiveSecurity(disk, blocks, pax, os);
  }
}
