/**
 * What the three layer passes guarantee, alone and together: Expand only adds what is
 * missing, so a second run over its own result changes nothing; Metadata and Security
 * change nothing but metadata, each field on its own; and since every pass reads the same
 * archive afresh, the later passes meet the same entries as Expand did.
 */
module LayerProperties {
  import opened Common
  import opened TarArchive
  import opened TarProperties
  import opened FileSystem
  import opened LayerExpander

  /** A translated name has nothing left to translate. */
  lemma TranslateIdempotent(s: string)
    ensures Translate(Translate(s)) == Translate(s)
  {
    var r := Translate(s);
    assert forall i | 0 <= i < |r| :: Translate(r)[i] == r[i];
  }

  // ----- Expand -----

  lemma ExtendsTransitive(t: Tree, u: Tree, v: Tree)
    requires Extends(t, u) && Extends(u, v)
    ensures Extends(t, v)
  {
  }

  /** What Expand settles stays settled under anything that only adds nodes. */
  lemma SettledExtends(t: Tree, u: Tree, e: Entry)
    requires Settled(t, e) && Extends(t, u)
    ensures Settled(u, e)
  {
  }

  /** Running Expand again from an equivalent reader, over the tree a successful run left,
      changes nothing and succeeds: each entry's path is already there with the right kind. */
  lemma {:induction false} ExpandAgain(s: TarState, t: Tree, s': TarState, pax: PaxReader)
    requires Equiv(s, s') && ExpandFrom(s, t, pax).1 == Done
    ensures ExpandFrom(s', ExpandFrom(s, t, pax).0, pax) == (ExpandFrom(s, t, pax).0, Done)
    decreases |s.blocks| - s.pos
  {
    NextEquiv(s, s', pax);
    var n := Next(s, pax);
    if n.1.Yield? {
      var c := CopyContents(n.0);
      var step := ExpandEntry(t, n.1.entry, c.1);
      var s2 := if step.copied then c.0 else n.0;
      if step.copied {
        CopyKeepsEquiv(n.0);
      }
      ExpandAgain(s2, step.tree, Next(s', pax).0, pax);
      SettledExtends(step.tree, ExpandFrom(s, t, pax).0, n.1.entry);
    }
  }

  /** A hard link that cannot be created (its name is taken by a directory, or there is no
      file to link to) throws the Win32Exception: the Expand pass ends there, leaving the
      tree as the entries before it made it. */
  lemma ExpandStopsOnFailedLink(s: TarState, t: Tree, pax: PaxReader)
    requires Valid(s)
    ensures var n := Next(s, pax);
            n.1.Yield? && BranchOf(n.1.entry) == LinkFile && !Settled(t, n.1.entry)
            && !(PathOf(n.1.entry) !in t && FileExists(t, Localized(n.1.entry).header.linkName))
            ==> ExpandFrom(s, t, pax) == (t, FsFailed(HardLinkFailed))
  {
  }

  /** A hard link whose name is free and whose target is a file is created, and the pass
      goes on from the tree holding it. */
  lemma ExpandMakesLink(s: TarState, t: Tree, pax: PaxReader)
    requires Valid(s)
    ensures var n := Next(s, pax);
            n.1.Yield? && BranchOf(n.1.entry) == LinkFile
            && PathOf(n.1.entry) !in t && FileExists(t, Localized(n.1.entry).header.linkName)
            ==> ExpandFrom(s, t, pax)
                  == ExpandFrom(n.0, t[PathOf(n.1.entry) := HardLink(Localized(n.1.entry).header.linkName, map[])], pax)
  {
  }

  /** Expand is idempotent: over the tree a successful Expand produced, a second Expand of
      the same archive succeeds and changes nothing. */
  lemma ExpandIdempotent(blocks: seq<Block>, t: Tree, pax: PaxReader)
    requires WellFormed(blocks) && ExpandFrom(Fresh(blocks), t, pax).1 == Done
    ensures var t1 := ExpandFrom(Fresh(blocks), t, pax).0;
            ExpandFrom(Fresh(blocks), t1, pax) == (t1, Done)
  {
    ExpandAgain(Fresh(blocks), t, Fresh(blocks), pax);
  }

  // ----- Metadata and Security -----

  lemma SameShapeTransitive(t: Tree, u: Tree, v: Tree)
    requires SameShape(t, u) && SameShape(u, v)
    ensures SameShape(t, v)
  {
  }

  lemma SameFieldTransitive(t: Tree, u: Tree, v: Tree, f: Field)
    requires SameField(t, u, f) && SameField(u, v, f)
    ensures SameField(t, v, f)
  {
  }

  /** The value of field f at p, if p exists and f has been set. */
  function FieldAt(t: Tree, p: string, f: Field): Option<string> {
    if p in t && f in t[p].meta then Some(t[p].meta[f]) else None
  }

  /** The setter for key takes effect: the entry has a pax map with the key, the text
      converts, and the path is of the kind the entry's info object names. */
  predicate Attempted(t: Tree, e: Entry, key: string, converts: string -> bool) {
    && e.headers.Some? && key in e.headers.value && converts(e.headers.value[key])
    && (if IsDirectory(Localized(e).header) then DirectoryExists(t, PathOf(e)) else FileExists(t, PathOf(e)))
  }

  /** Field f at the entry's path once its setter has run. */
  function Expected(t: Tree, e: Entry, f: Field, key: string, converts: string -> bool): Option<string> {
    if Attempted(t, e, key, converts) then Some(e.headers.value[key]) else FieldAt(t, PathOf(e), f)
  }

  /** One guarded setter: field f becomes the header text exactly when the setter takes
      effect; the other fields and the shape of the tree stay as they were. */
  lemma SetFromHeaderEffect(t: Tree, e: Entry, f: Field, key: string, converts: string -> bool)
    requires e.headers.Some?
    ensures var r := SetFromHeader(t, e, f, key, converts);
            && SameShape(t, r)
            && (forall g | g != f :: SameField(t, r, g))
            && FieldAt(r, PathOf(e), f) == Expected(t, e, f, key, converts)
  {
  }

  /** A setter leaves every other field of the entry's path alone. */
  lemma SetFromHeaderKeeps(t: Tree, e: Entry, f: Field, key: string, converts: string -> bool, g: Field)
    requires e.headers.Some? && g != f
    ensures var r := SetFromHeader(t, e, f, key, converts);
            SameShape(t, r) && FieldAt(r, PathOf(e), g) == FieldAt(t, PathOf(e), g)
  {
  }

  /** Kinds are what the setters look at, and setting metadata does not change them. */
  lemma KindsKept(t: Tree, u: Tree, p: string)
    requires SameShape(t, u)
    ensures DirectoryExists(t, p) == DirectoryExists(u, p) && FileExists(t, p) == FileExists(u, p)
  {
    if p in t {
      assert u[p].(meta := t[p].meta) == t[p];
    }
  }

  /** What a setter will do depends on the tree only through the kind of the path and the
      field's own value there. */
  lemma ExpectedKept(t: Tree, u: Tree, e: Entry, f: Field, key: string, converts: string -> bool)
    requires SameShape(t, u) && FieldAt(u, PathOf(e), f) == FieldAt(t, PathOf(e), f)
    ensures Expected(u, e, f, key, converts) == Expected(t, e, f, key, converts)
  {
    KindsKept(t, u, PathOf(e));
  }

  /** The four metadata fields are independent: each ends up set from its own header when
      that setter takes effect and is otherwise left as it was, whatever happened to the
      other three; a failed conversion stops nothing. */
  lemma MetadataFieldwise(t: Tree, e: Entry, os: Os)
    ensures var r := MetadataEntry(t, e, os);
            var p := PathOf(e);
            && FieldAt(r, p, CreationTime) == Expected(t, e, CreationTime, "LIBARCHIVE.creationtime", os.seconds)
            && FieldAt(r, p, LastWriteTime) == Expected(t, e, LastWriteTime, "mtime", os.seconds)
            && FieldAt(r, p, Attributes) == Expected(t, e, Attributes, "MSWINDOWS.fileattr", os.attributes)
            && FieldAt(r, p, LastAccessTime) == Expected(t, e, LastAccessTime, "atime", os.seconds)
  {
    if e.headers.Some? {
      CreationTimeSet(t, e, os);
      LastWriteTimeSet(t, e, os);
      AttributesSet(t, e, os);
      LastAccessTimeSet(t, e, os);
    }
  }

  lemma CreationTimeSet(t: Tree, e: Entry, os: Os)
    requires e.headers.Some?
    ensures FieldAt(MetadataEntry(t, e, os), PathOf(e), CreationTime)
            == Expected(t, e, CreationTime, "LIBARCHIVE.creationtime", os.seconds)
  {
    var t1 := SetFromHeader(t, e, CreationTime, "LIBARCHIVE.creationtime", os.seconds);
    var t2 := SetFromHeader(t1, e, LastWriteTime, "mtime", os.seconds);
    var t3 := SetFromHeader(t2, e, Attributes, "MSWINDOWS.fileattr", os.attributes);
    SetFromHeaderEffect(t, e, CreationTime, "LIBARCHIVE.creationtime", os.seconds);
    SetFromHeaderKeeps(t1, e, LastWriteTime, "mtime", os.seconds, CreationTime);
    SetFromHeaderKeeps(t2, e, Attributes, "MSWINDOWS.fileattr", os.attributes, CreationTime);
    SetFromHeaderKeeps(t3, e, LastAccessTime, "atime", os.seconds, CreationTime);
  }

  lemma LastWriteTimeSet(t: Tree, e: Entry, os: Os)
    requires e.headers.Some?
    ensures FieldAt(MetadataEntry(t, e, os), PathOf(e), LastWriteTime)
            == Expected(t, e, LastWriteTime, "mtime", os.seconds)
  {
    var t1 := SetFromHeader(t, e, CreationTime, "LIBARCHIVE.creationtime", os.seconds);
    var t2 := SetFromHeader(t1, e, LastWriteTime, "mtime", os.seconds);
    var t3 := SetFromHeader(t2, e, Attributes, "MSWINDOWS.fileattr", os.attributes);
    SetFromHeaderKeeps(t, e, CreationTime, "LIBARCHIVE.creationtime", os.seconds, LastWriteTime);
    ExpectedKept(t, t1, e, LastWriteTime, "mtime", os.seconds);
    SetFromHeaderEffect(t1, e, LastWriteTime, "mtime", os.seconds);
    SetFromHeaderKeeps(t2, e, Attributes, "MSWINDOWS.fileattr", os.attributes, LastWriteTime);
    SetFromHeaderKeeps(t3, e, LastAccessTime, "atime", os.seconds, LastWriteTime);
  }

  lemma AttributesSet(t: Tree, e: Entry, os: Os)
    requires e.headers.Some?
    ensures FieldAt(MetadataEntry(t, e, os), PathOf(e), Attributes)
            == Expected(t, e, Attributes, "MSWINDOWS.fileattr", os.attributes)
  {
    var t1 := SetFromHeader(t, e, CreationTime, "LIBARCHIVE.creationtime", os.seconds);
    var t2 := SetFromHeader(t1, e, LastWriteTime, "mtime", os.seconds);
    var t3 := SetFromHeader(t2, e, Attributes, "MSWINDOWS.fileattr", os.attributes);
    SetFromHeaderKeeps(t, e, CreationTime, "LIBARCHIVE.creationtime", os.seconds, Attributes);
    SetFromHeaderKeeps(t1, e, LastWriteTime, "mtime", os.seconds, Attributes);
    SameShapeTransitive(t, t1, t2);
    ExpectedKept(t, t2, e, Attributes, "MSWINDOWS.fileattr", os.attributes);
    SetFromHeaderEffect(t2, e, Attributes, "MSWINDOWS.fileattr", os.attributes);
    SetFromHeaderKeeps(t3, e, LastAccessTime, "atime", os.seconds, Attributes);
  }

  lemma LastAccessTimeSet(t: Tree, e: Entry, os: Os)
    requires e.headers.Some?
    ensures FieldAt(MetadataEntry(t, e, os), PathOf(e), LastAccessTime)
            == Expected(t, e, LastAccessTime, "atime", os.seconds)
  {
    var t1 := SetFromHeader(t, e, CreationTime, "LIBARCHIVE.creationtime", os.seconds);
    var t2 := SetFromHeader(t1, e, LastWriteTime, "mtime", os.seconds);
    var t3 := SetFromHeader(t2, e, Attributes, "MSWINDOWS.fileattr", os.attributes);
    SetFromHeaderKeeps(t, e, CreationTime, "LIBARCHIVE.creationtime", os.seconds, LastAccessTime);
    SetFromHeaderKeeps(t1, e, LastWriteTime, "mtime", os.seconds, LastAccessTime);
    SetFromHeaderKeeps(t2, e, Attributes, "MSWINDOWS.fileattr", os.attributes, LastAccessTime);
    SameShapeTransitive(t, t1, t2);
    SameShapeTransitive(t, t2, t3);
    ExpectedKept(t, t3, e, LastAccessTime, "atime", os.seconds);
    SetFromHeaderEffect(t3, e, LastAccessTime, "atime", os.seconds);
  }

  /** One Metadata iteration changes metadata only, and never the security descriptor. */
  lemma MetadataEntryShape(t: Tree, e: Entry, os: Os)
    ensures var r := MetadataEntry(t, e, os);
            SameShape(t, r) && SameField(t, r, SecurityDescriptor)
  {
    if e.headers.Some? {
      var t1 := SetFromHeader(t, e, CreationTime, "LIBARCHIVE.creationtime", os.seconds);
      var t2 := SetFromHeader(t1, e, LastWriteTime, "mtime", os.seconds);
      var t3 := SetFromHeader(t2, e, Attributes, "MSWINDOWS.fileattr", os.attributes);
      var t4 := SetFromHeader(t3, e, LastAccessTime, "atime", os.seconds);
      SetFromHeaderEffect(t, e, CreationTime, "LIBARCHIVE.creationtime", os.seconds);
      SetFromHeaderEffect(t1, e, LastWriteTime, "mtime", os.seconds);
      SetFromHeaderEffect(t2, e, Attributes, "MSWINDOWS.fileattr", os.attributes);
      SetFromHeaderEffect(t3, e, LastAccessTime, "atime", os.seconds);
      SameShapeTransitive(t, t1, t2);
      SameShapeTransitive(t, t2, t3);
      SameShapeTransitive(t, t3, t4);
      SameFieldTransitive(t, t1, t2, SecurityDescriptor);
      SameFieldTransitive(t, t2, t3, SecurityDescriptor);
      SameFieldTransitive(t, t3, t4, SecurityDescriptor);
    }
  }

  /** The whole Metadata pass changes metadata only, and never a security descriptor. */
  lemma {:induction false} MetadataPassShape(s: TarState, t: Tree, pax: PaxReader, os: Os)
    requires Valid(s)
    ensures var r := MetadataFrom(s, t, pax, os);
            SameShape(t, r.0) && SameField(t, r.0, SecurityDescriptor)
    decreases |s.blocks| - s.pos
  {
    var n := Next(s, pax);
    if n.1.Yield? {
      var t1 := MetadataEntry(t, n.1.entry, os);
      MetadataEntryShape(t, n.1.entry, os);
      MetadataPassShape(n.0, t1, pax, os);
      var r := MetadataFrom(n.0, t1, pax, os);
      SameShapeTransitive(t, t1, r.0);
      SameFieldTransitive(t, t1, r.0, SecurityDescriptor);
    }
  }

  /** One Security iteration sets the security descriptor of the entry's path, exactly when
      the pax map has MSWINDOWS.rawsd, the descriptor applies and the path is of the kind the
      entry names; nothing else changes. */
  lemma SecurityEntryOnly(t: Tree, e: Entry, os: Os)
    ensures var r := SecurityEntry(t, e, os);
            && SameShape(t, r)
            && (forall g | g != SecurityDescriptor :: SameField(t, r, g))
            && FieldAt(r, PathOf(e), SecurityDescriptor)
               == Expected(t, e, SecurityDescriptor, "MSWINDOWS.rawsd", os.descriptor)
  {
    if e.headers.Some? {
      SetFromHeaderEffect(t, e, SecurityDescriptor, "MSWINDOWS.rawsd", os.descriptor);
    }
  }

  /** The whole Security pass changes security descriptors only. */
  lemma {:induction false} SecurityPassOnly(s: TarState, t: Tree, pax: PaxReader, os: Os)
    requires Valid(s)
    ensures var r := SecurityFrom(s, t, pax, os);
            && SameShape(t, r.0)
            && (forall g | g != SecurityDescriptor :: SameField(t, r.0, g))
    decreases |s.blocks| - s.pos
  {
    var n := Next(s, pax);
    if n.1.Yield? {
      var t1 := SecurityEntry(t, n.1.entry, os);
      SecurityEntryOnly(t, n.1.entry, os);
      SecurityPassOnly(n.0, t1, pax, os);
      var r := SecurityFrom(n.0, t1, pax, os);
      SameShapeTransitive(t, t1, r.0);
      forall g | g != SecurityDescriptor
        ensures SameField(t, r.0, g)
      {
        SameFieldTransitive(t, t1, r.0, g);
      }
    }
  }

  // ----- The passes together -----

  /** Every pass opens a fresh reader over the same archive, so once Expand has got through
      it without an exception, neither later pass meets one. */
  lemma {:induction false} LaterPassesSucceed(s: TarState, t: Tree, s': TarState, t2: Tree, t3: Tree,
                                              pax: PaxReader, os: Os)
    requires Equiv(s, s') && ExpandFrom(s, t, pax).1 == Done
    ensures MetadataFrom(s', t2, pax, os).1 == Done
    ensures SecurityFrom(s', t3, pax, os).1 == Done
    decreases |s.blocks| - s.pos
  {
    NextEquiv(s, s', pax);
    var n := Next(s, pax);
    if n.1.Yield? {
      var c := CopyContents(n.0);
      var step := ExpandEntry(t, n.1.entry, c.1);
      var s2 := if step.copied then c.0 else n.0;
      if step.copied {
        CopyKeepsEquiv(n.0);
      }
      LaterPassesSucceed(s2, step.tree, Next(s', pax).0, MetadataEntry(t2, n.1.entry, os),
                         SecurityEntry(t3, n.1.entry, os), pax, os);
    }
  }

  /** ApplyLayer runs its steps in order and stops at the first exception: a target that is
      a file stops it before any pass; an exception in Expand leaves the tree as Expand left
      it; and once Expand succeeds the whole call succeeds, the later passes changing
      metadata only, so the target directory and every node Expand made are still there. */
  lemma ApplyLayerOrder(t: Tree, blocks: seq<Block>, pax: PaxReader, os: Os)
    requires WellFormed(blocks)
    ensures var r := ApplyLayerSpec(t, blocks, pax, os);
            && (FileExists(t, "") ==> r == (t, FsFailed(DirectoryFailed)))
            && (!FileExists(t, "") ==>
                  var t0 := if DirectoryExists(t, "") then t else t["" := Directory(map[])];
                  var x := ExpandFrom(Fresh(blocks), t0, pax);
                  && (x.1 != Done ==> r == x)
                  && (x.1 == Done ==> r.1 == Done && SameShape(x.0, r.0) && DirectoryExists(r.0, "")))
  {
    if !FileExists(t, "") {
      var t0 := if DirectoryExists(t, "") then t else t["" := Directory(map[])];
      var x := ExpandFrom(Fresh(blocks), t0, pax);
      if x.1 == Done {
        LaterPassesSucceed(Fresh(blocks), t0, Fresh(blocks), x.0, MetadataFrom(Fresh(blocks), x.0, pax, os).0, pax, os);
        var m := MetadataFrom(Fresh(blocks), x.0, pax, os);
        MetadataPassShape(Fresh(blocks), x.0, pax, os);
        SecurityPassOnly(Fresh(blocks), m.0, pax, os);
        SameShapeTransitive(x.0, m.0, SecurityFrom(Fresh(blocks), m.0, pax, os).0);
        KindsKept(x.0, SecurityFrom(Fresh(blocks), m.0, pax, os).0, "");
      }
    }
  }
}
