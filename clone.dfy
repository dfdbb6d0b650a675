/**
 * The steps of `clone` (app/modules/clone.js) around the pack: the deltas of
 * a pack keyed by the hash of their base, their resolution against the
 * object store, the tree of the head commit, and the scan of the ref
 * advertisement for the head.
 */
module Clone {
  import opened Js
  import opened Results
  import opened Fs
  import opened Objects
  import opened Pack
  import opened Delta
  import opened Commit

  // ---------------------------------------------------------------------------
  // Dictionaries

  /** A JavaScript object used as a dictionary: its keys in the order `for…in`
      visits them, which is the order of first insertion (the 40-digit hex keys
      are not array indices), and the value under each key. */
  datatype Dict<V> = Dict(keys: seq<string>, values: map<string, V>)

  /** Each key once, and exactly the keys that have a value. */
  ghost predicate DictValid<V>(d: Dict<V>)
  {
    && (forall i, j :: 0 <= i < j < |d.keys| ==> d.keys[i] != d.keys[j])
    && (forall k :: k in d.values <==> k in d.keys)
  }

  /** `d[key] = value`: a new key goes last, a key already there keeps its
      place and gets the new value. */
  function Put<V>(d: Dict<V>, key: string, value: V): (r: Dict<V>)
    ensures DictValid(d) ==> DictValid(r)
    ensures r.values == d.values[key := value]
    ensures key in d.values ==> r.keys == d.keys
    ensures key !in d.values ==> r.keys == d.keys + [key]
  {
    Dict(if key in d.values then d.keys else d.keys + [key], d.values[key := value])
  }

  // ---------------------------------------------------------------------------
  // getParsedGitObjects

  /** `obj.ref.toString("hex")` on a delta without a `ref`. */
  const NO_REF := "TypeError: Cannot read properties of undefined (reading 'toString')"

  /** The `deltaObjects` dictionary after the `forEach` has seen the first `n`
      objects: each delta is stored under the hex of its base's hash,
      replacing an earlier delta against the same base. */
  function DeltasKeyed(objects: seq<RawObject>, n: nat): Result<Dict<RawObject>>
    requires n <= |objects|
  {
    if n == 0 then Ok(Dict([], map[]))
    else
      match DeltasKeyed(objects, n - 1)
      case Err(e) => Err(e)
      case Ok(d) =>
        var obj := objects[n - 1];
        if obj.kind != Some("delta") then Ok(d)
        else if obj.ref.None? then Err(NO_REF)
        else Ok(Put(d, Hex(obj.ref.value), obj))
  }

  /** Object `k` is a delta stored under `key`. */
  predicate DeltaUnder(objects: seq<RawObject>, k: nat, key: string)
    requires k < |objects|
  {
    objects[k].kind == Some("delta") && objects[k].ref.Some? && Hex(objects[k].ref.value) == key
  }

  /** Every delta carries the hash of its base. */
  predicate DeltasHaveRefs(objects: seq<RawObject>)
  {
    forall k :: 0 <= k < |objects| && objects[k].kind == Some("delta") ==> objects[k].ref.Some?
  }

  /** The keying fails exactly when a delta has no `ref`. When it succeeds
      the dictionary is well formed, its keys are exactly the bases of the
      deltas, and under each key is the last delta against that base. */
  lemma DeltasKeyedContents(objects: seq<RawObject>, n: nat)
    requires n <= |objects|
    ensures DeltasKeyed(objects, n).Ok? <==> DeltasHaveRefs(objects[..n])
    ensures DeltasKeyed(objects, n).Ok? ==>
      var d := DeltasKeyed(objects, n).value;
      && DictValid(d)
      && (forall key :: key in d.values <==> exists k :: 0 <= k < n && DeltaUnder(objects, k, key))
      && (forall key :: key in d.values ==>
            exists k :: 0 <= k < n && DeltaUnder(objects, k, key) && d.values[key] == objects[k]
              && forall j :: k < j < n ==> !DeltaUnder(objects, j, key))
  {
    DeltasKeyedOk(objects, n);
    if DeltasKeyed(objects, n).Ok? {
      DeltasKeyedKeys(objects, n);
      DeltasKeyedLast(objects, n);
    }
  }

  lemma {:induction false} DeltasKeyedOk(objects: seq<RawObject>, n: nat)
    requires n <= |objects|
    ensures DeltasKeyed(objects, n).Ok? <==> DeltasHaveRefs(objects[..n])
    decreases n
  {
    if n > 0 {
      DeltasKeyedOk(objects, n - 1);
      var prefix, obj := objects[..n - 1], objects[n - 1];
      assert objects[..n] == prefix + [obj];
      assert DeltasHaveRefs(objects[..n]) <==> DeltasHaveRefs(prefix) && (obj.kind == Some("delta") ==> obj.ref.Some?) by {
        if DeltasHaveRefs(prefix) && (obj.kind == Some("delta") ==> obj.ref.Some?) {
          forall k | 0 <= k < n && objects[..n][k].kind == Some("delta")
            ensures objects[..n][k].ref.Some?
          {
            if k < n - 1 {
              assert objects[..n][k] == prefix[k];
            }
          }
        }
        if DeltasHaveRefs(objects[..n]) {
          forall k | 0 <= k < n - 1 && prefix[k].kind == Some("delta")
            ensures prefix[k].ref.Some?
          {
            assert objects[..n][k] == prefix[k];
          }
          assert objects[..n][n - 1] == obj;
        }
      }
    }
  }

  lemma {:induction false} DeltasKeyedKeys(objects: seq<RawObject>, n: nat)
    requires n <= |objects| && DeltasKeyed(objects, n).Ok?
    ensures var d := DeltasKeyed(objects, n).value;
      && DictValid(d)
      && (forall key :: key in d.values <==> exists k :: 0 <= k < n && DeltaUnder(objects, k, key))
    decreases n
  {
    if n > 0 {
      DeltasKeyedKeys(objects, n - 1);
      var d := DeltasKeyed(objects, n).value;
      var prev := DeltasKeyed(objects, n - 1).value;
      forall key
        ensures key in d.values <==> exists k :: 0 <= k < n && DeltaUnder(objects, k, key)
      {
        if key in d.values && !DeltaUnder(objects, n - 1, key) {
          assert key in prev.values;
        }
        if key !in d.values {
          assert !DeltaUnder(objects, n - 1, key) && key !in prev.values;
        }
      }
    }
  }

  lemma {:induction false} DeltasKeyedLast(objects: seq<RawObject>, n: nat)
    requires n <= |objects| && DeltasKeyed(objects, n).Ok?
    ensures var d := DeltasKeyed(objects, n).value;
      forall key :: key in d.values ==>
        exists k :: 0 <= k < n && DeltaUnder(objects, k, key) && d.values[key] == objects[k]
          && forall j :: k < j < n ==> !DeltaUnder(objects, j, key)
    decreases n
  {
    if n > 0 {
      var d := DeltasKeyed(objects, n).value;
      var prev := DeltasKeyed(objects, n - 1).value;
      DeltasKeyedLast(objects, n - 1);
      var last := n - 1;
      forall key | key in d.values
        ensures exists k :: 0 <= k < n && DeltaUnder(objects, k, key) && d.values[key] == objects[k]
                  && forall j :: k < j < n ==> !DeltaUnder(objects, j, key)
      {
        KeyedStepAt(objects, n, key);
        if DeltaUnder(objects, last, key) {
          assert d.values[key] == objects[last];
        } else {
          var k :| 0 <= k < n - 1 && DeltaUnder(objects, k, key) && prev.values[key] == objects[k]
            && forall j :: k < j < n - 1 ==> !DeltaUnder(objects, j, key);
          assert forall j :: k < j < n ==> !DeltaUnder(objects, j, key);
        }
      }
    }
  }

  /** A key after object `n - 1` holds that object when it is a delta stored
      under the key, and what it held before otherwise. */
  lemma KeyedStepAt(objects: seq<RawObject>, n: nat, key: string)
    requires 0 < n <= |objects| && DeltasKeyed(objects, n).Ok? && key in DeltasKeyed(objects, n).value.values
    ensures DeltasKeyed(objects, n - 1).Ok?
    ensures DeltaUnder(objects, n - 1, key) ==> DeltasKeyed(objects, n).value.values[key] == objects[n - 1]
    ensures !DeltaUnder(objects, n - 1, key) ==>
      (key in DeltasKeyed(objects, n - 1).value.values
       && DeltasKeyed(objects, n).value.values[key] == DeltasKeyed(objects, n - 1).value.values[key])
  {
  }

  /** The `forEach` of `getParsedGitObjects`. */
  method KeyDeltas(objects: seq<RawObject>) returns (r: Result<Dict<RawObject>>)
    ensures r == DeltasKeyed(objects, |objects|)
  {
    var deltaObjects := Dict([], map[]);
    for n := 0 to |objects|
      invariant DeltasKeyed(objects, n) == Ok(deltaObjects)
    {
      var obj := objects[n];
      if obj.kind == Some("delta") {
        if obj.ref.None? {
          KeyingErrorSticks(objects, n + 1, |objects|);
          return Err(NO_REF);
        }
        deltaObjects := Put(deltaObjects, Hex(obj.ref.value), obj);
      }
    }
    return Ok(deltaObjects);
  }

  /** A failed keying stays failed. */
  lemma {:induction false} KeyingErrorSticks(objects: seq<RawObject>, i: nat, n: nat)
    requires i <= n <= |objects| && DeltasKeyed(objects, i).Err?
    ensures DeltasKeyed(objects, n) == DeltasKeyed(objects, i)
    decreases n
  {
    if i < n {
      KeyingErrorSticks(objects, i, n - 1);
    }
  }

  /** What `getParsedGitObjects` returns once the pack has arrived (the head
      comes from the network and is left out). */
  datatype ParsedPack = ParsedPack(gitObjects: map<string, ParsedObject>, deltaObjects: Dict<RawObject>, checkSum: string)

  function ParsedGitObjects(packFile: seq<byte>, inflate: Inflate, sha1: Sha1): Result<ParsedPack>
  {
    match RawGitObjects(packFile, inflate)
    case Err(e) => Err(e)
    case Ok(raw) =>
      match Collected(raw.objects, |raw.objects|, Parser(sha1))
      case Err(e) => Err(e)
      case Ok(gitObjects) =>
        match DeltasKeyed(raw.objects, |raw.objects|)
        case Err(e) => Err(e)
        case Ok(deltaObjects) => Ok(ParsedPack(gitObjects, deltaObjects, raw.checkSum))
  }

  /** `getParsedGitObjects(url)` once the pack has arrived. */
  method GetParsedGitObjects(packFile: seq<byte>, inflate: Inflate, sha1: Sha1) returns (r: Result<ParsedPack>)
    ensures r == ParsedGitObjects(packFile, inflate, sha1)
  {
    var raw := GetRawGitObjects(packFile, inflate);
    if raw.Err? {
      return Err(raw.error);
    }
    var gitObjects := ParseGitObjects(raw.value.objects, sha1);
    if gitObjects.Err? {
      return Err(gitObjects.error);
    }
    var deltaObjects := KeyDeltas(raw.value.objects);
    if deltaObjects.Err? {
      return Err(deltaObjects.error);
    }
    return Ok(ParsedPack(gitObjects.value, deltaObjects.value, raw.value.checkSum));
  }

  /** The objects of a pack that reads through are parsed and keyed unless a
      non-delta object has no parse function: the keying of the deltas never
      fails, since every delta the pack yields carries its base's hash. */
  lemma ParsedPackKeyed(packFile: seq<byte>, inflate: Inflate, sha1: Sha1)
    requires RawGitObjects(packFile, inflate).Ok?
    ensures var objs := RawGitObjects(packFile, inflate).value.objects;
      var parsed := ParsedGitObjects(packFile, inflate, sha1).Ok?;
      parsed <==> forall k :: 0 <= k < |objs| && objs[k].kind != Some("delta") ==> ParseGitObject(objs[k], sha1).Ok?
  {
    var body := packFile[20..];
    var read := ReaderOf(body, inflate);
    var objs := RawGitObjects(packFile, inflate).value.objects;
    PackReaderRefs(body, inflate);
    UnpackedRefs(read, ObjectCount(packFile));
    assert objs == Unpack(read, ObjectCount(packFile)).value.objects;
    assert objs[..|objs|] == objs;
    DeltasKeyedContents(objs, |objs|);
    CollectedKeys(objs, |objs|, Parser(sha1));
  }

  // ---------------------------------------------------------------------------
  // resolveDeltaObjects

  /** The body of the `try` for one delta, as a run on the tree: read the
      base, apply the delta to its content, frame the result under the base's
      kind and write it. A throw ends the run; what was written before it
      stays, and the `catch` carries on with the next delta. */
  function ResolveOne(nodes: Tree, delta: RawObject, basePath: Path, sha1: Sha1): Run
  {
    if delta.ref.None? then Run(nodes, Some(NO_REF))
    else
      match ReadGitObject(nodes, Hex(delta.ref.value), basePath)
      case Err(e) => Run(nodes, Some(e))
      case Ok(base) =>
        match DeltaResult(delta.content, base.content)
        case Err(e) => Run(nodes, Some(e))
        case Ok(content) =>
          match ParseGitObject(RawObject(Some(base.kind), content, None), sha1)
          case Err(e) => Run(nodes, Some(e))
          case Ok(p) => WriteObject(nodes, p.hash, p.parsed, basePath)
  }

  /** The tree after the loop has visited the first `n` keys, in order. */
  function Resolved(nodes: Tree, deltas: Dict<RawObject>, n: nat, basePath: Path, sha1: Sha1): Tree
    requires n <= |deltas.keys|
  {
    if n == 0 then nodes
    else
      var before := Resolved(nodes, deltas, n - 1, basePath, sha1);
      var key := deltas.keys[n - 1];
      if key in deltas.values then ResolveOne(before, deltas.values[key], basePath, sha1).nodes else before
  }

  /** `deltas[key].hash` is `undefined` (a delta has no `hash`), so every
      failure lands under this one key of `pending`. */
  const UNDEFINED := "undefined"

  /** One pass of the `try` on the file system; it returns what was caught. */
  method ResolveDelta(fs: FileSystem, delta: RawObject, basePath: Path, sha1: Sha1) returns (caught: Option<string>)
    modifies fs
    ensures Run(fs.nodes, caught) == ResolveOne(old(fs.nodes), delta, basePath, sha1)
  {
    if delta.ref.None? {
      return Some(NO_REF);
    }
    var hash := Hex(delta.ref.value);
    var instructions := delta.content;
    var base := ReadGitObject(fs.nodes, hash, basePath);
    if base.Err? {
      return Some(base.error);
    }
    var content := DecodeDelta(instructions, base.value.content);
    if content.Err? {
      return Some(content.error);
    }
    var decoded := ParseGitObject(RawObject(Some(base.value.kind), content.value, None), sha1);
    if decoded.Err? {
      return Some(decoded.error);
    }
    var name;
    name, caught := WriteGitObject(fs, decoded.value.hash, decoded.value.parsed, basePath);
  }

  /** `resolveDeltaObjects(deltas, basePath)`: one pass over the keys in
      order. The failures are collected in `pending`, but `pending.length` is
      `undefined`, so the second pass never runs, and the result is always
      empty. */
  method ResolveDeltaObjects(fs: FileSystem, deltas: Dict<RawObject>, basePath: Path, sha1: Sha1)
    returns (results: map<string, ParsedObject>)
    modifies fs
    ensures fs.nodes == Resolved(old(fs.nodes), deltas, |deltas.keys|, basePath, sha1)
    ensures results == map[]
  {
    results := map[];
    var pending: map<string, RawObject> := map[];
    for n := 0 to |deltas.keys|
      invariant fs.nodes == Resolved(old(fs.nodes), deltas, n, basePath, sha1)
    {
      var key := deltas.keys[n];
      if key in deltas.values {
        var caught := ResolveDelta(fs, deltas.values[key], basePath, sha1);
        if caught.Some? {
          pending := pending[UNDEFINED := deltas.values[key]];
        }
      }
    }
  }

  /** A delta whose base cannot be read changes nothing. */
  lemma MissingBase(nodes: Tree, delta: RawObject, basePath: Path, sha1: Sha1)
    requires delta.ref.Some? && ReadGitObject(nodes, Hex(delta.ref.value), basePath).Err?
    ensures ResolveOne(nodes, delta, basePath, sha1)
      == Run(nodes, Some(ReadGitObject(nodes, Hex(delta.ref.value), basePath).error))
  {
  }

  /** A delta that applies to its base and whose result has a parse function
      writes an object that reads back under the base's kind, holding the
      decoded content unless it is a tree (which is re-encoded); nothing else
      that was there changes. */
  lemma ResolvedReadsBack(nodes: Tree, delta: RawObject, basePath: Path, sha1: Sha1, base: GitObject, content: seq<byte>, p: ParsedObject)
    requires delta.ref.Some? && ReadGitObject(nodes, Hex(delta.ref.value), basePath) == Ok(base)
    requires DeltaResult(delta.content, base.content) == Ok(content)
    requires ParseGitObject(RawObject(Some(base.kind), content, None), sha1) == Ok(p) && IsHash(p.hash)
    ensures var r := ResolveOne(nodes, delta, basePath, sha1);
      && (forall q :: q in nodes && q != ObjectPath(basePath, p.hash) ==> q in r.nodes && r.nodes[q] == nodes[q])
      && (r.err.None? ==>
            && ReadGitObject(r.nodes, p.hash, basePath).Ok?
            && ReadGitObject(r.nodes, p.hash, basePath).value.kind == base.kind
            && (base.kind != "tree" ==> ReadGitObject(r.nodes, p.hash, basePath).value.content == content))
  {
    WriteObjectEffect(nodes, p.hash, p.parsed, basePath);
    ParsedReadsBack(RawObject(Some(base.kind), content, None), sha1);
  }

  /** The pass visits the keys in order: a key without a value is skipped,
      and a delta resolved earlier can be the base of a later one. */
  lemma ResolvedStep(nodes: Tree, deltas: Dict<RawObject>, n: nat, basePath: Path, sha1: Sha1)
    requires n < |deltas.keys| && deltas.keys[n] in deltas.values
    ensures Resolved(nodes, deltas, n + 1, basePath, sha1)
      == ResolveOne(Resolved(nodes, deltas, n, basePath, sha1), deltas.values[deltas.keys[n]], basePath, sha1).nodes
  {
  }

  // ---------------------------------------------------------------------------
  // findTreeToCheckout

  const NOT_A_COMMIT := "Not a commit"

  /** `findTreeToCheckout(hash, basePath)`: the second space-separated word
      of the first line of a commit, `undefined` when that line has no
      space. */
  function FindTreeToCheckout(nodes: Tree, hash: string, basePath: Path): (r: Result<Option<string>>)
    ensures r.Ok? <==> ReadGitObject(nodes, hash, basePath).Ok? && ReadGitObject(nodes, hash, basePath).value.kind == "commit"
    ensures ReadGitObject(nodes, hash, basePath).Ok? && ReadGitObject(nodes, hash, basePath).value.kind != "commit"
      ==> r == Err(NOT_A_COMMIT)
  {
    match ReadGitObject(nodes, hash, basePath)
    case Err(e) => Err(e)
    case Ok(obj) =>
      if obj.kind != "commit" then Err(NOT_A_COMMIT)
      else
        var commit := Split(Text(obj.content), '\n');
        var words := Split(commit[0], ' ');
        Ok(if |words| > 1 then Some(words[1]) else None)
  }

  /** The tree of a commit that `commitObject` stored is found again. */
  lemma TreeOfStoredCommit(nodes: Tree, hash: string, treeHash: string, commitHash: Option<string>, message: string,
                           seconds: string, utcOffset: string)
    requires IsHash(hash) && IsLatin1(treeHash) && ' ' !in treeHash && '\n' !in treeHash
    requires StoreCommit(nodes, hash, CommitObjectBytes(CommitBody(treeHash, commitHash, message, seconds, utcOffset))).err.None?
    ensures var stored := StoreCommit(nodes, hash, CommitObjectBytes(CommitBody(treeHash, commitHash, message, seconds, utcOffset)));
      FindTreeToCheckout(stored.nodes, hash, []) == Ok(Some(treeHash))
  {
    var body := CommitBody(treeHash, commitHash, message, seconds, utcOffset);
    var stored := StoreCommit(nodes, hash, CommitObjectBytes(body));
    StoredCommitReadsBack(nodes, hash, body);
    var first := "tree " + treeHash;
    var rest := body[|Line(first)|..];
    assert body == Line(first) + rest;
    TreeLine(first, rest, treeHash);
  }

  /** The first line of the text of a body that starts with the tree line. */
  lemma TreeLine(first: string, rest: string, treeHash: string)
    requires first == "tree " + treeHash && IsLatin1(treeHash) && ' ' !in treeHash && '\n' !in treeHash
    ensures var words := Split(Split(Text(Bytes(Line(first) + rest)), '\n')[0], ' ');
      |words| > 1 && words[1] == treeHash
  {
    TreeLineChars(first, treeHash);
    LineText(first, rest);
    SplitFirst(first, '\n', Text(Bytes(rest)));
    TreeWords(first, treeHash);
  }

  /** The tree line is Latin-1 text without a newline. */
  lemma TreeLineChars(first: string, treeHash: string)
    requires first == "tree " + treeHash && IsLatin1(treeHash) && '\n' !in treeHash
    ensures IsLatin1(first + "\n") && '\n' !in first
  {
    forall k | 0 <= k < |first|
      ensures first[k] as int < 256 && first[k] != '\n'
    {
      if k >= 5 {
        assert first[k] == treeHash[k - 5];
      }
    }
  }

  /** A Latin-1 line read back from its bytes, then the rest. */
  lemma LineText(first: string, rest: string)
    requires IsLatin1(first + "\n")
    ensures Text(Bytes(Line(first) + rest)) == first + "\n" + Text(Bytes(rest))
  {
    BytesAppend(Line(first), rest);
    TextAppend(Bytes(Line(first)), Bytes(rest));
    TextOfBytes(Line(first));
  }

  /** The words of the tree line. */
  lemma TreeWords(first: string, treeHash: string)
    requires first == "tree " + treeHash && ' ' !in treeHash
    ensures Split(first, ' ') == ["tree", treeHash]
  {
    assert first == "tree" + [' '] + treeHash;
    assert ' ' !in "tree";
    SplitFirst("tree", ' ', treeHash);
    SplitNone(treeHash, ' ');
  }

  // ---------------------------------------------------------------------------
  // getPackFileHash

  /** The hash and the ref name of the advertised head. */
  datatype Head = Head(packHash: string, ref: string)

  /** `head[1].trim()` on a line without a space. */
  const NO_REF_NAME := "TypeError: Cannot read properties of undefined (reading 'trim')"

  /** `s.includes(t)`. */
  predicate Includes(s: string, t: string)
  {
    exists i | 0 <= i <= |s| - |t| :: OccursAt(s, t, i)
  }

  /** `t` occurs in `s` at position `i`. */
  predicate OccursAt(s: string, t: string, i: int)
  {
    0 <= i && i + |t| <= |s| && s[i..i + |t|] == t
  }

  /** The white space and line terminators `trim` removes. */
  predicate IsSpace(c: char)
  {
    c == '\t' || c == '\n' || c == '\U{B}' || c == '\U{C}' || c == '\r' || c == ' ' || c == '\U{A0}'
    || c == '\U{1680}' || ('\U{2000}' <= c <= '\U{200A}') || c == '\U{2028}' || c == '\U{2029}'
    || c == '\U{202F}' || c == '\U{205F}' || c == '\U{3000}' || c == '\U{FEFF}'
  }

  function TrimStart(s: string): (r: string)
    ensures r == [] || !IsSpace(r[0])
  {
    if s != [] && IsSpace(s[0]) then TrimStart(s[1..]) else s
  }

  function TrimEnd(s: string): (r: string)
    ensures r <= s
    ensures r == [] || !IsSpace(r[|r| - 1])
  {
    if s != [] && IsSpace(s[|s| - 1]) then TrimEnd(s[..|s| - 1]) else s
  }

  /** `s.trim()`. */
  function Trim(s: string): (r: string)
    ensures r == [] || (!IsSpace(r[0]) && !IsSpace(r[|r| - 1]))
  {
    TrimEnd(TrimStart(s))
  }

  /** The lines the scan stops at. */
  predicate Wanted(line: string)
  {
    (Includes(line, "refs/heads/master") || Includes(line, "refs/heads/main")) && Includes(line, "003")
  }

  /** The head read off a wanted line: the first word without its four
      length digits, and the second word trimmed. */
  function HeadOf(line: string): Result<Head>
  {
    var head := Split(line, ' ');
    if |head| < 2 then Err(NO_REF_NAME) else Ok(Head(Drop(head[0], 4), Trim(head[1])))
  }

  /** The scan of `lines`: the head of the first wanted line, or two empty
      strings when there is none. */
  function ScanLines(lines: seq<string>): Result<Head>
  {
    if lines == [] then Ok(Head("", ""))
    else if Wanted(lines[0]) then HeadOf(lines[0])
    else ScanLines(lines[1..])
  }

  /** The line scan of `getPackFileHash`, on the text of the response. */
  function PackFileHash(data: string): Result<Head>
  {
    ScanLines(Split(data, '\n'))
  }

  /** The loop of `getPackFileHash`, stopping at the first wanted line. */
  method GetPackFileHash(data: string) returns (r: Result<Head>)
    ensures r == PackFileHash(data)
  {
    var hash := "";
    var ref := "";
    var lines := Split(data, '\n');
    for k := 0 to |lines|
      invariant ScanLines(lines[k..]) == PackFileHash(data)
    {
      var line := lines[k];
      assert lines[k..] == [line] + lines[k + 1..];
      if Wanted(line) {
        var head := Split(line, ' ');
        if |head| < 2 {
          return Err(NO_REF_NAME);
        }
        hash := Drop(head[0], 4);
        ref := Trim(head[1]);
        return Ok(Head(hash, ref));
      }
    }
    return Ok(Head(hash, ref));
  }

  /** The scan gives the head of the first wanted line. */
  lemma {:induction false} ScanFindsFirst(lines: seq<string>, k: nat)
    requires k < |lines| && Wanted(lines[k]) && forall j :: 0 <= j < k ==> !Wanted(lines[j])
    ensures ScanLines(lines) == HeadOf(lines[k])
    decreases k
  {
    if k > 0 {
      ScanFindsFirst(lines[1..], k - 1);
    }
  }

  /** Without a wanted line the hash and the ref stay empty. */
  lemma {:induction false} ScanFindsNone(lines: seq<string>)
    requires forall j :: 0 <= j < |lines| ==> !Wanted(lines[j])
    ensures ScanLines(lines) == Ok(Head("", ""))
    decreases |lines|
  {
    if lines != [] {
      ScanFindsNone(lines[1..]);
    }
  }

  /** A ref line of the advertisement, `"003f" + hash + " " + ref` for the
      master or main branch, is wanted and gives that hash and ref. */
  lemma AdvertisedLine(length: string, hash: string, ref: string)
    requires |length| == 4 && length[..3] == "003" && ' ' !in length
    requires ' ' !in hash && (ref == "refs/heads/master" || ref == "refs/heads/main")
    ensures Wanted(length + hash + " " + ref)
    ensures HeadOf(length + hash + " " + ref) == Ok(Head(hash, ref))
  {
    var line := length + hash + " " + ref;
    assert OccursAt(line, "003", 0);
    var at := |length| + |hash| + 1;
    assert OccursAt(line, ref, at);
    BranchName(ref);
    LineWords(length + hash, ref);
    assert Drop(length + hash, 4) == hash;
  }

  /** The two branch names hold no space and are their own trim. */
  lemma BranchName(ref: string)
    requires ref == "refs/heads/master" || ref == "refs/heads/main"
    ensures ' ' !in ref && Trim(ref) == ref
  {
    assert !IsSpace(ref[0]) && !IsSpace(ref[|ref| - 1]);
  }

  /** Two words around one space. */
  lemma LineWords(a: string, b: string)
    requires ' ' !in a && ' ' !in b
    ensures Split(a + " " + b, ' ') == [a, b]
  {
    SplitFirst(a, ' ', b);
    SplitNone(b, ' ');
  }
}
