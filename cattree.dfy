/**
 * `readTree(hash)` (app/modules/catTree.js): the names of a stored tree, one
 * per line.
 *
 * The object is read from `.git/objects/<2>/<38>` under the working
 * directory; the text after its first NUL is the payload. Each pass of the
 * loop cuts the payload after the next space (the mode), then takes the
 * text up to the next NUL as the name; a missing space or NUL ends the
 * list. An empty name is skipped WITHOUT moving past its NUL and hash, so
 * the next scan for a space runs over them. A name is followed by a
 * 20-character hash, which is dropped.
 */
module CatTree {
  import opened Results
  import opened Js
  import opened Fs
  import opened Objects

  const NO_OBJECT := "Object path does not exist"
  const NO_ENTRIES := "No valid entries found"

  /** The names the loop of `readTree` pushes, scanning `s` from its start.
      Every name is non-empty and holds no NUL. */
  function NamesFrom(s: string): (r: seq<string>)
    ensures forall k :: 0 <= k < |r| ==> r[k] != [] && '\0' !in r[k]
    decreases |s|, 0
  {
    if s == [] then []
    else
      var sp := IndexOf(s, ' ', 0);
      if sp == -1 then [] else NamesAfterSpace(s[sp + 1..])
  }

  /** The names from the text after a space on: the name runs to the next
      NUL, an empty one is passed over, and a name's 20-character hash is
      skipped. */
  function NamesAfterSpace(rest: string): (r: seq<string>)
    ensures forall k :: 0 <= k < |r| ==> r[k] != [] && '\0' !in r[k]
    decreases |rest|, 1
  {
    var nul := IndexOf(rest, '\0', 0);
    if nul == -1 then []
    else
      BeforeFirst(rest, '\0', nul);
      if rest[..nul] == [] then NamesFrom(rest)
      else [rest[..nul]] + NamesFrom(Drop(rest[nul + 1..], 20))
  }

  /** Nothing before the first occurrence of `x` is `x`. */
  lemma BeforeFirst<T>(s: seq<T>, x: T, first: nat)
    requires first == IndexOf(s, x, 0)
    ensures x !in s[..first]
  {
    IndexOfFirst(s, x, 0);
    assert forall j :: 0 <= j < first ==> s[..first][j] == s[j];
  }

  /** The text after the header: everything after the first NUL (all of it
      when there is none). */
  function Payload(data: seq<byte>): string
  {
    var text := Text(data);
    Slice(text, IndexOf(text, '\0', 0) + 1, |text|)
  }

  /** The output: the names joined by newlines, then a newline; an empty
      join is an error. */
  function Response(names: seq<string>): Result<string>
  {
    var response := Join(names, '\n');
    if response == [] then Err(NO_ENTRIES) else Ok(response + "\n")
  }

  /** `readTree(hash)` against the file system `nodes`: what it writes to
      standard output, or the error it throws. */
  function CatTree(nodes: Tree, hash: string): Result<string>
  {
    var objectPath := ObjectPath([], hash);
    if !Exists(nodes, objectPath) then Err(NO_OBJECT)
    else
      match ReadFile(nodes, objectPath)
      case Err(e) => Err(e)
      case Ok(data) => Response(NamesFrom(Payload(data)))
  }

  /** `readTree(hash)`, with its loop as written. */
  method ReadTree(fs: FileSystem, hash: string) returns (r: Result<string>)
    ensures r == CatTree(fs.nodes, hash)
  {
    var objectPath := ObjectPath([], hash);
    if !Exists(fs.nodes, objectPath) {
      return Err(NO_OBJECT);
    }
    var dataFromFile := ReadFile(fs.nodes, objectPath);
    if dataFromFile.Err? {
      return Err(dataFromFile.error);
    }
    var dataStr := Text(dataFromFile.value);
    var nullByteIndex := IndexOf(dataStr, '\0', 0);
    dataStr := Slice(dataStr, nullByteIndex + 1, |dataStr|);
    ghost var payload := dataStr;
    var entries: seq<string> := [];
    while |dataStr| > 0
      invariant entries + NamesFrom(dataStr) == NamesFrom(payload)
      decreases |dataStr|
    {
      ghost var before := dataStr;
      var spaceIndex := IndexOf(dataStr, ' ', 0);
      if spaceIndex == -1 {
        ScanStops(before, entries, payload);
        break;
      }
      dataStr := Slice(dataStr, spaceIndex + 1, |dataStr|);
      var nullIndex := IndexOf(dataStr, '\0', 0);
      if nullIndex == -1 {
        ScanStops(before, entries, payload);
        break;
      }
      var name := Slice(dataStr, 0, nullIndex);
      ScanStep(before, spaceIndex, dataStr, nullIndex, name);
      if name == [] {
        continue;
      }
      dataStr := Slice(dataStr, nullIndex + 1, |dataStr|);
      dataStr := Slice(dataStr, 20, |dataStr|);
      AppendAssoc(entries, [name], NamesFrom(dataStr));
      entries := entries + [name];
    }
    assert entries == NamesFrom(payload);
    r := Response(entries);
  }

  /** Where a scan finds nothing, the names found so far are all of them. */
  lemma ScanStops(s: string, entries: seq<string>, payload: string)
    requires entries + NamesFrom(s) == NamesFrom(payload)
    requires s != [] && (IndexOf(s, ' ', 0) == -1 || IndexOf(s[IndexOf(s, ' ', 0) + 1..], '\0', 0) == -1)
    ensures entries == NamesFrom(payload)
  {
    assert NamesFrom(s) == [];
    assert entries + [] == entries;
  }

  /** One pass of the loop: after the space at `sp` and the NUL at `nul` of
      the text that follows it, an empty name leaves the scan at that text,
      and a name is followed by the rest after its 20-character hash. */
  lemma ScanStep(s: string, sp: int, rest: string, nul: int, name: string)
    requires s != [] && sp == IndexOf(s, ' ', 0) && sp >= 0
    requires rest == Slice(s, sp + 1, |s|) && nul == IndexOf(rest, '\0', 0) && nul >= 0
    requires name == Slice(rest, 0, nul)
    ensures rest == s[sp + 1..] && name == rest[..nul]
    ensures name == [] ==> NamesFrom(s) == NamesFrom(rest)
    ensures name != [] ==> NamesFrom(s) == [name] + NamesFrom(Slice(Slice(rest, nul + 1, |rest|), 20, |rest| - nul - 1))
  {
    SkipHash(rest, nul);
    NamesStep(s, sp, nul);
  }

  /** The text after a hash: what is left past its 20 characters. */
  lemma SkipHash(rest: string, nul: nat)
    requires nul < |rest|
    ensures Slice(Slice(rest, nul + 1, |rest|), 20, |rest| - nul - 1) == Drop(rest[nul + 1..], 20)
  {
    var tail := rest[nul + 1..];
    assert Slice(rest, nul + 1, |rest|) == tail;
    if |tail| < 20 {
      assert Slice(tail, 20, |tail|) == [];
    } else {
      assert Slice(tail, 20, |tail|) == tail[20..];
    }
  }

  /** `NamesFrom` past one space and the NUL after it. */
  lemma NamesStep(s: string, sp: int, nul: int)
    requires s != [] && sp == IndexOf(s, ' ', 0) && sp >= 0
    requires nul == IndexOf(s[sp + 1..], '\0', 0) && nul >= 0
    ensures s[sp + 1..][..nul] == [] ==> NamesFrom(s) == NamesFrom(s[sp + 1..])
    ensures s[sp + 1..][..nul] != [] ==> NamesFrom(s) == [s[sp + 1..][..nul]] + NamesFrom(Drop(s[sp + 1..][nul + 1..], 20))
  {
    assert NamesFrom(s) == NamesAfterSpace(s[sp + 1..]);
  }

  // ---------------------------------------------------------------------------
  // What the output is

  /** The names of a list of entries, in order. */
  function Names(es: seq<TreeEntry>): (r: seq<string>)
    ensures |r| == |es|
  {
    if es == [] then [] else [es[0].name] + Names(es[1..])
  }

  /** Every entry has a non-empty name. */
  predicate Named(es: seq<TreeEntry>)
  {
    forall k :: 0 <= k < |es| ==> es[k].name != []
  }

  /** The text of a stored object: its header line, which holds no NUL, a
      NUL, then the text of its data. */
  lemma {:induction false} FramedText(kind: string, data: seq<byte>)
    requires IsKind(kind)
    ensures Text(Framed(kind, data)) == kind + " " + Decimal(|data|) + ['\0'] + Text(data)
    ensures '\0' !in kind + " " + Decimal(|data|)
  {
    var head := kind + " " + Decimal(|data|);
    HeaderLayout(kind, |data|);
    NoNulByte(head);
    assert Framed(kind, data) == Bytes(head) + ([0] + data);
    TextAppend(Bytes(head), [0] + data);
    TextAppend([0], data);
    TextOfBytes(head);
    assert Text([0]) == "\0";
  }

  /** A Latin-1 text whose bytes hold no 0 holds no NUL. */
  lemma NoNulByte(s: string)
    requires IsLatin1(s) && 0 !in Bytes(s)
    ensures '\0' !in s
  {
    forall k | 0 <= k < |s|
      ensures s[k] != '\0'
    {
      assert Bytes(s)[k] == s[k] as int;
    }
  }

  /** The text after the header of a stored object is its data. */
  lemma PayloadOfFramed(kind: string, data: seq<byte>)
    requires IsKind(kind)
    ensures Payload(Framed(kind, data)) == Text(data)
  {
    FramedText(kind, data);
    IndexOfAfter(kind + " " + Decimal(|data|), '\0', Text(data));
  }

  /** The text of one well-formed record: mode, space, name, NUL, then the 20
      characters of its hash. */
  lemma RecordText(e: TreeEntry) returns (hash: string)
    requires WellFormed(e)
    ensures |hash| == 20 && hash == Text(FromHex(e.hash))
    ensures Text(EntryBytes(e)) == e.mode + [' '] + (e.name + ['\0'] + hash)
  {
    var head := e.mode + " " + e.name + "\0";
    assert IsLatin1(head) by {
      forall k | 0 <= k < |head|
        ensures head[k] as int < 256
      {
        if k < |e.mode| {
          assert head[k] == e.mode[k];
        } else if |e.mode| < k < |e.mode| + 1 + |e.name| {
          assert head[k] == e.name[k - |e.mode| - 1];
        }
      }
    }
    TextAppend(Bytes(head), FromHex(e.hash));
    TextOfBytes(head);
    FromHexLength(e.hash);
    hash := Text(FromHex(e.hash));
  }

  /** A well-formed record with a name gives that name, and the scan goes on
      right after its hash. */
  lemma RecordNamed(e: TreeEntry, t: string)
    requires WellFormed(e) && e.name != []
    ensures NamesFrom(Text(EntryBytes(e)) + t) == [e.name] + NamesFrom(t)
  {
    var hash := RecordText(e);
    var rest := e.name + ['\0'] + (hash + t);
    assert Text(EntryBytes(e)) + t == e.mode + [' '] + rest;
    AfterSpace(e.mode, rest);
    NameThenHash(e.name, hash, t);
  }

  /** The scan passes the first space. */
  lemma AfterSpace(mode: string, rest: string)
    requires ' ' !in mode
    ensures NamesFrom(mode + [' '] + rest) == NamesAfterSpace(rest)
  {
    IndexOfAfter(mode, ' ', rest);
    assert (mode + [' '] + rest)[|mode| + 1..] == rest;
  }

  /** A name, its NUL and a 20-character hash give that name, and the scan
      goes on after the hash. */
  lemma NameThenHash(name: string, hash: string, t: string)
    requires name != [] && '\0' !in name && |hash| == 20
    ensures NamesAfterSpace(name + ['\0'] + (hash + t)) == [name] + NamesFrom(t)
  {
    var rest := name + ['\0'] + (hash + t);
    IndexOfAfter(name, '\0', hash + t);
    assert rest[..|name|] == name;
    assert rest[|name| + 1..] == hash + t;
    assert Drop(hash + t, 20) == t;
  }

  /** The payload of well-formed entries with names lists those names. */
  lemma {:induction false} NamesOfEncoded(es: seq<TreeEntry>)
    requires AllWellFormed(es) && Named(es)
    ensures NamesFrom(Text(EncodeEntries(es))) == Names(es)
    decreases |es|
  {
    if es != [] {
      var e, tail := es[0], es[1..];
      EncodeCons(es, e, tail);
      TextAppend(EntryBytes(e), EncodeEntries(tail));
      RecordNamed(e, Text(EncodeEntries(tail)));
      assert Named(tail) by {
        forall k | 0 <= k < |tail|
          ensures tail[k].name != []
        {
          assert tail[k] == es[k + 1];
        }
      }
      NamesOfEncoded(tail);
    }
  }

  /** A record with an empty name is skipped up to its NUL only: the next scan
      for a space starts at that NUL, and reads the hash as the start of the
      next mode. */
  lemma EmptyNameSkipped(mode: string, t: string)
    requires ' ' !in mode
    ensures NamesFrom(mode + [' '] + (['\0'] + t)) == NamesFrom(['\0'] + t)
  {
    var rest := ['\0'] + t;
    AfterSpace(mode, rest);
    assert rest[0] == '\0';
    assert rest[..0] == [];
  }

  /** Without a space nothing is listed. */
  lemma NoSpaceNoNames(s: string)
    requires ' ' !in s
    ensures NamesFrom(s) == []
  {
    IndexOfFirst(s, ' ', 0);
  }

  /** Texts that can be lines of the output: non-empty, without a newline. */
  predicate Lines(names: seq<string>)
  {
    forall k :: 0 <= k < |names| ==> names[k] != [] && '\n' !in names[k]
  }

  /** The output is an error exactly when no name was found; otherwise its
      lines are the names, then an empty line after the final newline. */
  lemma {:induction false} ResponseLines(names: seq<string>)
    requires Lines(names)
    ensures Response(names).Err? <==> names == []
    ensures Response(names).Err? ==> Response(names).error == NO_ENTRIES
    ensures names != [] ==> Split(Response(names).value, '\n') == names + [""]
  {
    if names != [] {
      JoinStarts(names, '\n');
      JoinTrailing(names, '\n');
      var all := names + [""];
      assert forall k :: 0 <= k < |all| ==> '\n' !in all[k] by {
        forall k | 0 <= k < |all|
          ensures '\n' !in all[k]
        {
          if k < |names| {
            assert all[k] == names[k];
          }
        }
      }
      SplitJoin(all, '\n');
    }
  }

  /** A join of several pieces starts with the first. */
  lemma JoinStarts(parts: seq<string>, sep: char)
    requires |parts| >= 1
    ensures parts[0] <= Join(parts, sep)
  {
  }

  /** A stored tree of well-formed, named entries lists its names, one per
      line, each line ended by a newline; an empty tree is an error. */
  lemma {:induction false} CatStoredTree(nodes: Tree, hash: string, es: seq<TreeEntry>)
    requires ObjectPath([], hash) in nodes && nodes[ObjectPath([], hash)] == File(Framed("tree", EncodeEntries(es)))
    requires AllWellFormed(es) && Named(es)
    requires forall k :: 0 <= k < |es| ==> '\n' !in es[k].name
    ensures es == [] ==> CatTree(nodes, hash) == Err(NO_ENTRIES)
    ensures es != [] ==> CatTree(nodes, hash).Ok? && Split(CatTree(nodes, hash).value, '\n') == Names(es) + [""]
  {
    CatStoredNames(nodes, hash, es);
    NamesLines(es);
    ResponseLines(Names(es));
  }

  /** A stored tree of well-formed, named entries is answered with its names. */
  lemma {:induction false} CatStoredNames(nodes: Tree, hash: string, es: seq<TreeEntry>)
    requires ObjectPath([], hash) in nodes && nodes[ObjectPath([], hash)] == File(Framed("tree", EncodeEntries(es)))
    requires AllWellFormed(es) && Named(es)
    ensures CatTree(nodes, hash) == Response(Names(es))
  {
    CatStored(nodes, hash, EncodeEntries(es));
    KnownKinds();
    PayloadOfFramed("tree", EncodeEntries(es));
    NamesOfEncoded(es);
  }

  /** What `readTree` prints for a stored object is the response to the names
      in its payload. */
  lemma CatStored(nodes: Tree, hash: string, data: seq<byte>)
    requires ObjectPath([], hash) in nodes && nodes[ObjectPath([], hash)] == File(Framed("tree", data))
    ensures CatTree(nodes, hash) == Response(NamesFrom(Payload(Framed("tree", data))))
  {
  }

  /** The names of named entries without newlines can be lines. */
  lemma {:induction false} NamesLines(es: seq<TreeEntry>)
    requires Named(es) && forall k :: 0 <= k < |es| ==> '\n' !in es[k].name
    ensures Lines(Names(es))
  {
    forall k | 0 <= k < |es|
      ensures Names(es)[k] != [] && '\n' !in Names(es)[k]
    {
      NameAt(es, k);
    }
  }

  lemma {:induction false} NameAt(es: seq<TreeEntry>, k: nat)
    requires k < |es|
    ensures Names(es)[k] == es[k].name
    decreases k
  {
    if k > 0 {
      NameAt(es[1..], k - 1);
    }
  }

  /** Without the object's file, `readTree` throws. */
  lemma CatMissing(nodes: Tree, hash: string)
    requires ObjectPath([], hash) !in nodes && ObjectPath([], hash) != []
    ensures CatTree(nodes, hash) == Err(NO_OBJECT)
  {
  }
}
