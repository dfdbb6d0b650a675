/**
 * The helpers of app/main.js: `sliceHash` and `listTreeContent`.
 *
 * `listTreeContent` reads `.git/objects/<2>/<38>`, splits the whole object
 * text at its NULs, drops the first piece (the header) and prints, from
 * every other piece, the word after its first space; a piece without a
 * space contributes `undefined`, which `join` prints as nothing.
 */
module AppMain {
  import opened Results
  import opened Js
  import opened Fs
  import opened Objects
  import opened CatTree

  /** `sliceHash(hash)`: the first two characters, a slash, the rest. */
  function SliceHash(hash: string): (r: string)
    ensures |r| == |hash| + 1
    ensures |hash| >= 2 ==> r[2] == '/' && r[..2] + r[3..] == hash
    ensures |hash| < 2 ==> r == hash + "/"
  {
    Slice(hash, 0, 2) + "/" + Slice(hash, 2, |hash|)
  }

  /** The path `.git/objects/<sliceHash>`, cut at its slashes. */
  function ListPath(hash: string): Path
  {
    Split(".git/objects/" + SliceHash(hash), '/')
  }

  /** For a full hash this is the object's path of `resolveGitObjectPath`
      under the working directory. */
  lemma {:induction false} ListPathIsObjectPath(hash: string)
    requires IsHash(hash)
    ensures ListPath(hash) == ObjectPath([], hash)
  {
    var dir, file := hash[..2], hash[2..];
    assert '/' !in dir && '/' !in file by {
      assert forall k :: 0 <= k < 2 ==> dir[k] == hash[k];
      assert forall k :: 0 <= k < |file| ==> file[k] == hash[k + 2];
    }
    assert ".git/objects/" + SliceHash(hash) == ".git" + ['/'] + ("objects" + ['/'] + (dir + ['/'] + file));
    SplitFour(".git", "objects", dir, file);
  }

  /** Four slash-free parts joined by slashes split back into them. */
  lemma {:induction false} SplitFour(a: string, b: string, c: string, d: string)
    requires '/' !in a && '/' !in b && '/' !in c && '/' !in d
    ensures Split(a + ['/'] + (b + ['/'] + (c + ['/'] + d)), '/') == [a, b, c, d]
  {
    var cd := c + ['/'] + d;
    var bcd := b + ['/'] + cd;
    SplitNone(d, '/');
    SplitFirst(c, '/', d);
    assert Split(cd, '/') == [c, d];
    SplitFirst(b, '/', cd);
    assert Split(bcd, '/') == [b, c, d];
    SplitFirst(a, '/', bcd);
  }

  /** `piece.split(' ')[1]`, with `undefined` printed as nothing. */
  function Word(piece: string): string
  {
    var words := Split(piece, ' ');
    if |words| > 1 then words[1] else ""
  }

  /** The words of the pieces, in order. */
  function Words(pieces: seq<string>): (r: seq<string>)
    ensures |r| == |pieces|
  {
    if pieces == [] then [] else [Word(pieces[0])] + Words(pieces[1..])
  }

  /** What `listTreeContent(hash)` prints, or the error `readFileSync`
      throws. */
  function ListTree(nodes: Tree, hash: string): Result<string>
  {
    match ReadFile(nodes, ListPath(hash))
    case Err(e) => Err(e)
    case Ok(content) => Ok(Join(Words(Split(Text(content), '\0')[1..]), '\n'))
  }

  /** `listTreeContent(hash)`, with its loop. */
  method ListTreeContent(fs: FileSystem, shaHash: string) returns (r: Result<string>)
    ensures r == ListTree(fs.nodes, shaHash)
  {
    var filePath := ListPath(shaHash);
    var fileContent := ReadFile(fs.nodes, filePath);
    if fileContent.Err? {
      return Err(fileContent.error);
    }
    var tree := Split(Text(fileContent.value), '\0')[1..];
    var fileNames: seq<string> := [];
    for i := 0 to |tree|
      invariant fileNames + Words(tree[i..]) == Words(tree)
    {
      WordsStep(tree, i, fileNames);
      fileNames := fileNames + [Word(tree[i])];
    }
    assert fileNames + [] == fileNames;
    r := Ok(Join(fileNames, '\n'));
  }

  /** The word of piece `i`, then those of the pieces after it. */
  lemma WordsStep(pieces: seq<string>, i: nat, before: seq<string>)
    requires i < |pieces|
    ensures before + Words(pieces[i..]) == before + [Word(pieces[i])] + Words(pieces[i + 1..])
  {
    assert pieces[i..][1..] == pieces[i + 1..];
  }

  // ---------------------------------------------------------------------------
  // What it prints for a stored tree

  /** An entry whose record splits cleanly at NULs and spaces: well-formed,
      no NUL in its mode, no space in its name, and neither byte 0 nor byte
      32 among the raw bytes of its hash. */
  predicate Listable(e: TreeEntry)
  {
    && WellFormed(e) && '\0' !in e.mode && ' ' !in e.name
    && 0 !in FromHex(e.hash) && 32 !in FromHex(e.hash)
  }

  predicate AllListable(es: seq<TreeEntry>)
  {
    forall k :: 0 <= k < |es| ==> Listable(es[k])
  }

  /** The pieces after a prefix without NUL or space, followed by listable
      records, give the names of the records, then an empty word for the
      last hash. */
  lemma {:induction false} WordsOfRecords(prefix: string, es: seq<TreeEntry>)
    requires ' ' !in prefix && '\0' !in prefix && AllListable(es)
    ensures Words(Split(prefix + Text(EncodeEntries(es)), '\0')) == Names(es) + [""]
    decreases |es|
  {
    if es == [] {
      assert prefix + Text([]) == prefix;
      SplitNone(prefix, '\0');
      SplitNone(prefix, ' ');
    } else {
      var hash := RecordSplit(prefix, es);
      var piece := prefix + es[0].mode + [' '] + es[0].name;
      var pieces := [piece] + Split(hash + Text(EncodeEntries(es[1..])), '\0');
      assert pieces[1..] == Split(hash + Text(EncodeEntries(es[1..])), '\0');
      WordsOfRecords(hash, es[1..]);
    }
  }

  /** The first record after the prefix: its piece, up to its NUL, and the
      split of what follows, which starts with its hash. */
  lemma {:induction false} RecordSplit(prefix: string, es: seq<TreeEntry>) returns (hash: string)
    requires ' ' !in prefix && '\0' !in prefix && AllListable(es) && es != []
    ensures ' ' !in hash && '\0' !in hash && AllListable(es[1..])
    ensures Split(prefix + Text(EncodeEntries(es)), '\0')
      == [prefix + es[0].mode + [' '] + es[0].name] + Split(hash + Text(EncodeEntries(es[1..])), '\0')
    ensures Names(es) + [""] == [es[0].name] + (Names(es[1..]) + [""])
    ensures Word(prefix + es[0].mode + [' '] + es[0].name) == es[0].name
  {
    var e, tail := es[0], es[1..];
    WellFormedAll(es);
    EncodeCons(es, e, tail);
    hash := RecordText(e);
    var rest := hash + Text(EncodeEntries(tail));
    var piece := prefix + e.mode + [' '] + e.name;
    RecordPiece(prefix, e, hash);
    TextAppend(EntryBytes(e), EncodeEntries(tail));
    Regroup(prefix, e.mode, e.name, hash, Text(EncodeEntries(tail)));
    SplitFirst(piece, '\0', rest);
  }

  /** Where the prefix, the record and the rest meet. */
  lemma Regroup(prefix: string, mode: string, name: string, hash: string, t: string)
    ensures prefix + (mode + [' '] + (name + ['\0'] + hash) + t)
      == prefix + mode + [' '] + name + ['\0'] + (hash + t)
  {
  }

  lemma {:induction false} WellFormedAll(es: seq<TreeEntry>)
    requires AllListable(es)
    ensures AllWellFormed(es)
    decreases |es|
  {
    if es != [] {
      WellFormedAll(es[1..]);
    }
  }

  /** One record after a prefix: the piece up to its NUL holds no NUL and its
      word is the record's name; its hash holds neither NUL nor space. */
  lemma {:induction false} RecordPiece(prefix: string, e: TreeEntry, hash: string)
    requires ' ' !in prefix && '\0' !in prefix && Listable(e)
    requires hash == Text(FromHex(e.hash))
    ensures '\0' !in prefix + e.mode + [' '] + e.name
    ensures Word(prefix + e.mode + [' '] + e.name) == e.name
    ensures ' ' !in hash && '\0' !in hash
  {
    var raw := FromHex(e.hash);
    forall k | 0 <= k < |hash|
      ensures hash[k] != ' ' && hash[k] != '\0'
    {
      assert hash[k] as int == raw[k];
    }
    SplitFirst(prefix + e.mode, ' ', e.name);
    SplitNone(e.name, ' ');
  }

  /** A stored tree of listable records prints its names, each followed by a
      newline: the last piece of the split, the last hash, has no space and
      prints as nothing. */
  lemma {:induction false} ListStoredTree(nodes: Tree, hash: string, es: seq<TreeEntry>)
    requires ListPath(hash) in nodes && nodes[ListPath(hash)] == File(Framed("tree", EncodeEntries(es)))
    requires AllListable(es)
    ensures ListTree(nodes, hash) == Ok(Join(Names(es) + [""], '\n'))
  {
    var data := EncodeEntries(es);
    var head := "tree" + " " + Decimal(|data|);
    KnownKinds();
    FramedText("tree", data);
    SplitFirst(head, '\0', Text(data));
    assert [] + Text(data) == Text(data);
    WordsOfRecords([], es);
  }

  /** For a full hash and a stored tree of listable, named entries whose names
      hold no newline, `listTreeContent` prints what `readTree` prints. */
  lemma {:induction false} ListAgreesWithCat(nodes: Tree, hash: string, es: seq<TreeEntry>)
    requires IsHash(hash) && es != []
    requires ObjectPath([], hash) in nodes && nodes[ObjectPath([], hash)] == File(Framed("tree", EncodeEntries(es)))
    requires AllListable(es) && Named(es)
    ensures ListTree(nodes, hash) == CatTree.CatTree(nodes, hash)
  {
    ListPathIsObjectPath(hash);
    ListStoredTree(nodes, hash, es);
    WellFormedAll(es);
    CatStoredNames(nodes, hash, es);
    var names := Names(es);
    NameAt(es, 0);
    JoinStarts(names, '\n');
    JoinTrailing(names, '\n');
  }
}
