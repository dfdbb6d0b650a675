/**
 * The part of Node's `fs` and `path` modules the program uses, over an
 * abstract tree of files and directories: a map from paths (lists of
 * components, relative to the working directory) to nodes. The working
 * directory itself, the empty path, is always a directory; a path that
 * starts with ".." leads above it.
 *
 * A call that throws leaves the tree as it was; a sequence of calls that
 * stops at a throw keeps the effects of the calls before it, which is what
 * `Run` records.
 */
module Fs {
  import opened Js
  import opened Results

  type Path = seq<string>

  datatype Node = File(data: seq<byte>) | Dir

  type Tree = map<Path, Node>

  /** The tree after a sequence of calls, and the error that stopped it. */
  datatype Run = Run(nodes: Tree, err: Option<string>)

  const ENOENT := "ENOENT: no such file or directory"
  const EEXIST := "EEXIST: file already exists"
  const EISDIR := "EISDIR: illegal operation on a directory"

  /** A single path component: not empty, not "." or "..", and free of the
      separator. */
  predicate Plain(c: string)
  {
    c != "" && c != "." && c != ".." && '/' !in c
  }

  /** One component added to a normalised path, as `path.normalize` treats
      it: an empty piece and "." change nothing, ".." removes the last
      component (and is kept when there is none to remove, at the top of a
      relative path or after another ".."), anything else is appended. */
  function Push(p: Path, c: string): Path
  {
    if c == "" || c == "." then p
    else if c == ".." then (if p != [] && p[|p| - 1] != ".." then p[..|p| - 1] else p + [".."])
    else p + [c]
  }

  /** The components of a list, added one after another. */
  function PushAll(p: Path, cs: seq<string>): Path
    decreases |cs|
  {
    if cs == [] then p else PushAll(Push(p, cs[0]), cs[1..])
  }

  /** `path.join(base, ...parts)` on a normalised relative base: every part
      is cut at its slashes and its pieces are added in order. A leading ".."
      names a directory above the working directory. (The trailing separator
      `path.join` keeps after a part that ends in "/" is not modelled.) */
  function PathJoin(base: Path, parts: seq<string>): Path
    decreases |parts|
  {
    if parts == [] then base
    else PathJoin(PushAll(base, Split(parts[0], '/')), parts[1..])
  }

  /** Joining plain components appends each of them. */
  lemma {:induction false} PathJoinAll(base: Path, parts: seq<string>)
    requires forall k :: 0 <= k < |parts| ==> Plain(parts[k])
    ensures PathJoin(base, parts) == base + parts
    decreases |parts|
  {
    if parts != [] {
      PushPlain(base, parts[0]);
      PathJoinAll(base + [parts[0]], parts[1..]);
      assert base + [parts[0]] + parts[1..] == base + parts;
    }
  }

  /** A plain component is one piece, appended. */
  lemma PushPlain(base: Path, c: string)
    requires Plain(c)
    ensures PushAll(base, Split(c, '/')) == base + [c]
  {
    SplitNone(c, '/');
    assert PushAll(base + [c], []) == base + [c];
  }

  /** The text "../" is the component ".." and a separator. */
  lemma UpLiteral()
    ensures "../" == ".." + ['/'] && '/' !in ".."
  {
    assert forall k :: 0 <= k < 2 ==> ".."[k] == '.';
  }

  /** `path.join(base, "../" + c)` resolves the "..": the last component of
      the base is replaced by `c`. */
  lemma JoinParent(base: Path, c: string)
    requires base != [] && base[|base| - 1] != ".." && Plain(c)
    ensures PathJoin(base, ["../" + c]) == Parent(base) + [c]
  {
    UpSplit(c);
    UpThen(base, c);
    assert PathJoin(base, ["../" + c]) == PathJoin(PushAll(base, ["..", c]), []);
  }

  /** `../c` splits into ".." and `c`. */
  lemma UpSplit(c: string)
    requires Plain(c)
    ensures Split("../" + c, '/') == ["..", c]
  {
    UpLiteral();
    SplitFirst("..", '/', c);
    SplitNone(c, '/');
  }

  /** ".." then a plain name replaces the last component with that name. */
  lemma UpThen(base: Path, c: string)
    requires base != [] && base[|base| - 1] != ".." && Plain(c)
    ensures PushAll(base, ["..", c]) == Parent(base) + [c]
  {
    var up := Push(base, "..");
    assert up == Parent(base);
    assert PushAll(base, ["..", c]) == PushAll(up, [c]);
    assert PushAll(up, [c]) == PushAll(up + [c], []);
  }

  function Parent(p: Path): Path
    requires p != []
  {
    p[..|p| - 1]
  }

  predicate IsDir(nodes: Tree, p: Path)
  {
    p == [] || (p in nodes && nodes[p].Dir?)
  }

  /** A tree as a file system keeps it: every entry sits in a directory. */
  predicate Valid(nodes: Tree)
  {
    forall q :: q in nodes ==> q != [] && IsDir(nodes, Parent(q))
  }

  /** In a valid tree every ancestor of a directory is a directory. */
  lemma {:induction false} Ancestors(nodes: Tree, p: Path)
    requires Valid(nodes) && IsDir(nodes, p)
    ensures forall k :: 0 <= k <= |p| ==> IsDir(nodes, p[..k])
    decreases |p|
  {
    if p != [] {
      Ancestors(nodes, Parent(p));
      forall k | 0 <= k <= |p|
        ensures IsDir(nodes, p[..k])
      {
        if k < |p| {
          assert p[..k] == Parent(p)[..k];
        } else {
          assert p[..k] == p;
        }
      }
    }
  }

  /** `fs.existsSync(p)`. */
  predicate Exists(nodes: Tree, p: Path)
  {
    p == [] || p in nodes
  }

  /** `fs.readFileSync(p)`. */
  function ReadFile(nodes: Tree, p: Path): (r: Result<seq<byte>>)
    ensures r.Ok? <==> p in nodes && nodes[p].File?
    ensures r.Ok? ==> r.value == nodes[p].data
  {
    if p in nodes && nodes[p].File? then Ok(nodes[p].data)
    else if IsDir(nodes, p) then Err(EISDIR)
    else Err(ENOENT)
  }

  /** `fs.writeFileSync(p, data)`: creates or replaces a file whose directory
      exists. */
  function WriteFile(nodes: Tree, p: Path, data: seq<byte>): (r: Run)
  {
    if IsDir(nodes, p) then Run(nodes, Some(EISDIR))
    else if !IsDir(nodes, Parent(p)) then Run(nodes, Some(ENOENT))
    else Run(nodes[p := File(data)], None)
  }

  /** `fs.mkdirSync(p)`: creates one directory inside an existing one. */
  function Mkdir(nodes: Tree, p: Path): (r: Run)
  {
    if Exists(nodes, p) then Run(nodes, Some(EEXIST))
    else if !IsDir(nodes, Parent(p)) then Run(nodes, Some(ENOENT))
    else Run(nodes[p := Dir], None)
  }

  /** `fs.mkdirSync(p, { recursive: true })`: creates every missing directory
      on the way to `p`; an existing directory is not an error, a file in the
      way is. */
  function MkdirAll(nodes: Tree, p: Path): (r: Run)
    decreases |p|
  {
    if p == [] then Run(nodes, None)
    else if p in nodes then (if nodes[p].Dir? then Run(nodes, None) else Run(nodes, Some(EEXIST)))
    else
      var up := MkdirAll(nodes, Parent(p));
      if up.err.Some? then up else Run(up.nodes[p := Dir], None)
  }

  /** Writes and directory creations keep a tree valid. */
  lemma ValidWriteFile(nodes: Tree, p: Path, data: seq<byte>)
    requires Valid(nodes)
    ensures Valid(WriteFile(nodes, p, data).nodes)
  {
  }

  lemma ValidMkdir(nodes: Tree, p: Path)
    requires Valid(nodes)
    ensures Valid(Mkdir(nodes, p).nodes)
  {
  }

  lemma {:induction false} ValidMkdirAll(nodes: Tree, p: Path)
    requires Valid(nodes)
    ensures Valid(MkdirAll(nodes, p).nodes)
    decreases |p|
  {
    if p != [] && p !in nodes {
      ValidMkdirAll(nodes, Parent(p));
      MkdirAllEffect(nodes, Parent(p));
    }
  }

  /** A successful write stores exactly the data at `p` and touches nothing
      else; it fails only on a directory or a missing parent directory. */
  lemma WriteFileEffect(nodes: Tree, p: Path, data: seq<byte>)
    ensures var r := WriteFile(nodes, p, data);
      && (r.err.None? <==> p != [] && !IsDir(nodes, p) && IsDir(nodes, Parent(p)))
      && (r.err.None? ==> ReadFile(r.nodes, p) == Ok(data))
      && (forall q :: q != p ==> (q in r.nodes <==> q in nodes) && (q in nodes ==> r.nodes[q] == nodes[q]))
      && (r.err.Some? ==> r.nodes == nodes)
  {
  }

  /** Writing the same data twice leaves the tree of a single write. */
  lemma WriteFileTwice(nodes: Tree, p: Path, data: seq<byte>)
    ensures var once := WriteFile(nodes, p, data);
      once.err.None? ==> WriteFile(once.nodes, p, data) == once
  {
  }

  /** After a recursive mkdir succeeds, `p` and all its ancestors are
      directories, and the only new entries are those directories. */
  lemma {:induction false} MkdirAllEffect(nodes: Tree, p: Path)
    ensures var r := MkdirAll(nodes, p);
      && (r.err.None? ==> IsDir(r.nodes, p))
      && (forall q :: q in nodes ==> q in r.nodes && r.nodes[q] == nodes[q])
      && (forall q :: q in r.nodes && q !in nodes ==> q <= p && r.nodes[q] == Dir)
    decreases |p|
  {
    if p != [] && p !in nodes {
      MkdirAllEffect(nodes, Parent(p));
    }
  }

  /** The tree the program works on, changed in place by the `fs` calls. */
  class FileSystem {
    var nodes: Tree

    constructor(initial: Tree)
      ensures nodes == initial
    {
      nodes := initial;
    }

    /** `fs.writeFileSync(p, data)`; a thrown error is returned. */
    method WriteFileSync(p: Path, data: seq<byte>) returns (err: Option<string>)
      modifies this
      ensures Run(nodes, err) == WriteFile(old(nodes), p, data)
    {
      var r := WriteFile(nodes, p, data);
      nodes := r.nodes;
      err := r.err;
    }

    /** `fs.mkdirSync(p, { recursive })`; a thrown error is returned. */
    method MkdirSync(p: Path, recursive: bool) returns (err: Option<string>)
      modifies this
      ensures Run(nodes, err) == if recursive then MkdirAll(old(nodes), p) else Mkdir(old(nodes), p)
    {
      var r := if recursive then MkdirAll(nodes, p) else Mkdir(nodes, p);
      nodes := r.nodes;
      err := r.err;
    }
  }
}
