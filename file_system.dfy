/**
 * The directory tree a layer is expanded into, as the layer passes see it through the
 * operating system: each path under the target directory (relative to it, so that "" is
 * the target directory itself) holds a directory, a file, a directory junction or a hard
 * link, with the metadata fields the passes set.
 *
 * The operating-system calls are modelled by the rules that decide whether they succeed,
 * and by what they leave behind; the Disk class is the tree as mutable state, one method
 * per call.
 */
module FileSystem {
  import opened Common

  /** The metadata the passes set: the four FileSystemInfo properties and the ACL. */
  datatype Field = CreationTime | LastWriteTime | Attributes | LastAccessTime | SecurityDescriptor

  /** Each field that has been set holds the header text it was set from (the conversion of
      that text to a time, an attribute mask or a descriptor is not modelled). */
  type Meta = map<Field, string>

  datatype Node =
    | Directory(meta: Meta)
    | File(data: seq<byte>, meta: Meta)
    | Junction(target: string, meta: Meta)
    | HardLink(target: string, meta: Meta)

  type Tree = map<string, Node>

  /** The conversions the passes attempt on header text, each either succeeding or throwing:
      double.Parse of a count of seconds together with the DateTime built from it, int.Parse
      together with the attribute setter, and Base64 decoding together with applying the
      security descriptor. */
  datatype Os = Os(seconds: string -> bool, attributes: string -> bool, descriptor: string -> bool)

  /** Directory.Exists: a directory or a junction to one. */
  predicate DirectoryExists(t: Tree, p: string) {
    p in t && (t[p].Directory? || t[p].Junction?)
  }

  /** File.Exists: a file, or another name of one. */
  predicate FileExists(t: Tree, p: string) {
    p in t && (t[p].File? || t[p].HardLink?)
  }

  /** Directory.CreateDirectory fails only where a file already has the name. */
  function MakeDirectory(t: Tree, p: string): (r: Option<Tree>)
    ensures r.Some? <==> !FileExists(t, p)
    ensures r.Some? ==> p in r.value && r.value[p] == Directory(map[])
    ensures r.Some? ==> forall q | q != p :: (q in r.value <==> q in t) && (q in t ==> r.value[q] == t[q])
  {
    if FileExists(t, p) then None else Some(t[p := Directory(map[])])
  }

  /** File.Create fails where a directory has the name; otherwise it leaves an empty file. */
  function MakeFile(t: Tree, p: string): (r: Option<Tree>)
    ensures r.Some? <==> !DirectoryExists(t, p)
    ensures r.Some? ==> p in r.value && r.value[p] == File([], map[])
    ensures r.Some? ==> forall q | q != p :: (q in r.value <==> q in t) && (q in t ==> r.value[q] == t[q])
  {
    if DirectoryExists(t, p) then None else Some(t[p := File([], map[])])
  }

  /** CreateHardLink fails unless the existing name is a file and the new name is free. */
  function MakeHardLink(t: Tree, p: string, target: string): (r: Option<Tree>)
    ensures r.Some? <==> p !in t && FileExists(t, target)
    ensures r.Some? ==> r.value == t[p := HardLink(target, map[])]
  {
    if p !in t && FileExists(t, target) then Some(t[p := HardLink(target, map[])]) else None
  }

  /** The node with one metadata field set. */
  function WithField(n: Node, f: Field, v: string): (r: Node)
    ensures r.meta == n.meta[f := v]
    ensures r.(meta := n.meta) == n
  {
    match n
    case Directory(m) => Directory(m[f := v])
    case File(d, m) => File(d, m[f := v])
    case Junction(x, m) => Junction(x, m[f := v])
    case HardLink(x, m) => HardLink(x, m[f := v])
  }

  /** A property setter of a DirectoryInfo (asDirectory) or a FileInfo on p, inside a
      try/catch that swallows its failure: it takes effect when the text converts and p is
      of the kind the info object names, and otherwise changes nothing. */
  function TrySet(t: Tree, p: string, asDirectory: bool, f: Field, v: string, converts: bool): (r: Tree)
    ensures r.Keys == t.Keys
    ensures forall q | q in t && q != p :: r[q] == t[q]
    ensures p in t ==> r[p] == if converts && (if asDirectory then DirectoryExists(t, p) else FileExists(t, p))
                               then WithField(t[p], f, v) else t[p]
  {
    if converts && (if asDirectory then DirectoryExists(t, p) else FileExists(t, p))
    then t[p := WithField(t[p], f, v)]
    else t
  }

  /** The tree seen through the operating system: each method is one call. */
  class Disk {
    var tree: Tree

    constructor (t: Tree)
      ensures tree == t
    {
      tree := t;
    }

    method CreateDirectory(p: string) returns (ok: bool)
      modifies this
      ensures ok == MakeDirectory(old(tree), p).Some?
      ensures tree == if ok then MakeDirectory(old(tree), p).value else old(tree)
    {
      ok := !FileExists(tree, p);
      if ok {
        tree := tree[p := Directory(map[])];
      }
    }

    method CreateFile(p: string) returns (ok: bool)
      modifies this
      ensures ok == MakeFile(old(tree), p).Some?
      ensures tree == if ok then MakeFile(old(tree), p).value else old(tree)
    {
      ok := !DirectoryExists(tree, p);
      if ok {
        tree := tree[p := File([], map[])];
      }
    }

    /** Writing through the FileStream that File.Create returned. */
    method Write(p: string, data: seq<byte>)
      requires p in tree && tree[p].File?
      modifies this
      ensures tree == old(tree)[p := File(old(tree)[p].data + data, old(tree)[p].meta)]
    {
      tree := tree[p := File(tree[p].data + data, tree[p].meta)];
    }

    method CreateHardLink(p: string, target: string) returns (ok: bool)
      modifies this
      ensures ok == MakeHardLink(old(tree), p, target).Some?
      ensures tree == if ok then MakeHardLink(old(tree), p, target).value else old(tree)
    {
      ok := p !in tree && FileExists(tree, target);
      if ok {
        tree := tree[p := HardLink(target, map[])];
      }
    }

    /** One guarded property setter; a failure is swallowed by the caller's catch. */
    method Set(p: string, asDirectory: bool, f: Field, v: string, converts: bool)
      modifies this
      ensures tree == TrySet(old(tree), p, asDirectory, f, v, converts)
    {
      if converts && (if asDirectory then DirectoryExists(tree, p) else FileExists(tree, p)) {
        tree := tree[p := WithField(tree[p], f, v)];
      }
    }
  }
}
