/**
 * Loose Git objects (app/modules/utils.js): the `"<kind> <len>\0"` header,
 * the tree-entry records `mode SP name NUL hash20`, the sharded object path
 * `.git/objects/<2 hex>/<38 hex>`, writing and reading an object, and turning
 * the objects of a pack into hashed loose objects.
 *
 * SHA-1 is a parameter. Objects are stored uncompressed: deflate on write and
 * unzip on read are left out as a pair of inverse library calls.
 */
module Objects {
  import opened Js
  import opened Results
  import opened Fs

  /** `sha1(data)`: the lower-case hex digest of some bytes. */
  type Sha1 = seq<byte> -> string

  /** The header `"<kind> <n>\0"`, as bytes. */
  function Header(kind: string, n: nat): seq<byte>
  {
    Bytes(kind + " " + Decimal(n) + "\0")
  }

  /** An object as stored: the header for `data`'s length, then `data`. */
  function Framed(kind: string, data: seq<byte>): seq<byte>
  {
    Header(kind, |data|) + data
  }

  /** A kind that can stand before the space of a header. */
  predicate IsKind(kind: string)
  {
    IsLatin1(kind) && ' ' !in kind && '\0' !in kind
  }

  /** The kinds the program writes. */
  lemma KnownKinds()
    ensures IsKind("blob") && IsKind("tree") && IsKind("commit")
  {
    assert forall k :: 0 <= k < 4 ==> "blob"[k] in "blob" && 'a' <= "blob"[k] <= 'z';
    assert forall k :: 0 <= k < 4 ==> 'a' <= "tree"[k] <= 'z';
    assert forall k :: 0 <= k < 6 ==> 'a' <= "commit"[k] <= 'z';
  }

  /** The three fields `readGitObject` returns; `length` is `undefined` when
      the header holds no space. */
  datatype GitObject = GitObject(kind: string, length: Option<string>, content: seq<byte>)

  /** `readGitObject`'s split of the stored bytes: the header is the text
      before the first NUL, cut at its spaces, and the content the bytes after
      that NUL. Without a NUL, `indexOf` gives -1: the header is then all of
      the text but its last character and the content is all of the bytes. */
  function SplitObject(data: seq<byte>): GitObject
  {
    var nul := IndexOf(data, 0, 0);
    var header := Split(Slice(Text(data), 0, nul), ' ');
    GitObject(header[0], if |header| > 1 then Some(header[1]) else None, Slice(data, nul + 1, |data|))
  }

  /** A header is the Latin-1 text `kind SP digits`, which holds no NUL,
      then one NUL byte. */
  lemma HeaderLayout(kind: string, n: nat)
    requires IsKind(kind)
    ensures IsLatin1(kind + " " + Decimal(n)) && 0 !in Bytes(kind + " " + Decimal(n))
    ensures Header(kind, n) == Bytes(kind + " " + Decimal(n)) + [0]
  {
    var digits := Decimal(n);
    var head := kind + " " + digits;
    assert forall k :: 0 <= k < |digits| ==> '0' <= digits[k] <= '9';
    assert forall k :: 0 <= k < |head| ==> head[k] != '\0' by {
      forall k | 0 <= k < |head|
        ensures head[k] != '\0'
      {
        if k < |kind| {
          assert head[k] == kind[k];
        } else if k > |kind| {
          assert head[k] == digits[k - |kind| - 1];
        }
      }
    }
    assert kind + " " + digits + "\0" == head + "\0";
    BytesAppend(head, "\0");
    BytesAvoid(head, '\0');
  }

  /** The bytes of a NUL-free text, a NUL, then the content: the first NUL is
      the one after the text, and the two slices give back text and content. */
  lemma FramedSplit(head: string, data: seq<byte>)
    requires IsLatin1(head) && 0 !in Bytes(head)
    ensures IndexOf(Bytes(head) + [0] + data, 0, 0) == |head|
    ensures Slice(Text(Bytes(head) + [0] + data), 0, |head|) == head
    ensures Slice(Bytes(head) + [0] + data, |head| + 1, |Bytes(head) + [0] + data|) == data
  {
    var all := Bytes(head) + [0] + data;
    assert forall k :: 0 <= k < |head| ==> all[k] == Bytes(head)[k];
    IndexOfAt(all, 0, 0, |head|);
    TextAppend(Bytes(head), [0] + data);
    assert all == Bytes(head) + ([0] + data);
    TextOfBytes(head);
    assert all[|head| + 1..] == data;
  }

  /** Splitting a framed object gives back its kind, the decimal length of the
      header and the data. The length in the header is whatever the header
      says: `n` need not be `|data|`, since the split never compares them. */
  lemma SplitFramed(kind: string, n: nat, data: seq<byte>)
    requires IsKind(kind)
    ensures SplitObject(Header(kind, n) + data) == GitObject(kind, Some(Decimal(n)), data)
  {
    var digits := Decimal(n);
    var head := kind + " " + digits;
    HeaderLayout(kind, n);
    FramedSplit(head, data);
    assert Header(kind, n) + data == Bytes(head) + [0] + data;
    assert forall k :: 0 <= k < |digits| ==> '0' <= digits[k] <= '9';
    SplitFirst(kind, ' ', digits);
    SplitNone(digits, ' ');
  }

  // ---------------------------------------------------------------------------
  // Blobs and commits
  // ---------------------------------------------------------------------------

  /** What the `create…Content` functions return: the hash of the framed
      object and the framed object. */
  datatype Hashed = Hashed(hash: string, content: seq<byte>)

  /** A framed object and its hash. */
  function Hash(kind: string, data: seq<byte>, sha1: Sha1): Hashed
  {
    var framed := Framed(kind, data);
    Hashed(sha1(framed), framed)
  }

  /** `createBlobContent(data)`: only a missing argument is refused (an empty
      Buffer is truthy). */
  function CreateBlobContent(data: Option<seq<byte>>, sha1: Sha1): (r: Result<Hashed>)
    ensures r.Ok? <==> data.Some?
    ensures r.Err? ==> r.error == "No data to be found"
    ensures r.Ok? ==> r.value.hash == sha1(r.value.content)
  {
    if data.None? then Err("No data to be found")
    else Ok(Hash("blob", data.value, sha1))
  }

  /** A blob reads back as its data, under a header giving its byte length. */
  lemma BlobReadsBack(data: seq<byte>, sha1: Sha1)
    ensures SplitObject(CreateBlobContent(Some(data), sha1).value.content) == GitObject("blob", Some(Decimal(|data|)), data)
  {
    assert CreateBlobContent(Some(data), sha1).value.content == Header("blob", |data|) + data;
    KnownKinds();
    SplitFramed("blob", |data|, data);
  }

  /** `createCommitContent(commit)`, the same framing under kind "commit". */
  function CreateCommitContent(commit: Option<seq<byte>>, sha1: Sha1): (r: Result<Hashed>)
    ensures r.Ok? <==> commit.Some?
    ensures r.Err? ==> r.error == "No commit to be found"
    ensures r.Ok? ==> r.value.hash == sha1(r.value.content)
  {
    if commit.None? then Err("No commit to be found")
    else Ok(Hash("commit", commit.value, sha1))
  }

  /** A commit reads back as its body, under a header giving its byte length. */
  lemma CommitReadsBack(commit: seq<byte>, sha1: Sha1)
    ensures SplitObject(CreateCommitContent(Some(commit), sha1).value.content) == GitObject("commit", Some(Decimal(|commit|)), commit)
  {
    assert CreateCommitContent(Some(commit), sha1).value.content == Header("commit", |commit|) + commit;
    KnownKinds();
    SplitFramed("commit", |commit|, commit);
  }

  // ---------------------------------------------------------------------------
  // Trees
  // ---------------------------------------------------------------------------

  datatype TreeEntry = TreeEntry(mode: string, name: string, hash: string)

  /** One record of a tree payload: `mode SP name NUL` and the hash as 20
      raw bytes (`Buffer.from(hash, "hex")`). */
  function EntryBytes(e: TreeEntry): seq<byte>
  {
    Bytes(e.mode + " " + e.name + "\0") + FromHex(e.hash)
  }

  /** The tree payload: the records one after another (the `reduce` of
      `createTreeContent`). */
  function EncodeEntries(es: seq<TreeEntry>): seq<byte>
  {
    if es == [] then [] else EntryBytes(es[0]) + EncodeEntries(es[1..])
  }

  /** An entry that its record carries intact: a mode without a space, a name
      without a NUL, both one byte per character, and a 40-digit lower-case
      hash. */
  predicate WellFormed(e: TreeEntry)
  {
    && IsLatin1(e.mode) && ' ' !in e.mode
    && IsLatin1(e.name) && '\0' !in e.name
    && |e.hash| == 40 && IsLowerHex(e.hash)
  }

  predicate AllWellFormed(es: seq<TreeEntry>)
  {
    es == [] || (WellFormed(es[0]) && AllWellFormed(es[1..]))
  }

  /** The entry whose mode starts at `start`, whose space is at `sp` and whose
      NUL is at `nul`: the hash is the hex of the (up to) 20 bytes after the
      NUL, fewer when the data ends sooner. */
  function EntryOf(data: seq<byte>, start: nat, sp: nat, nul: nat): TreeEntry
    requires start <= sp < nul < |data|
  {
    var hashStart := nul + 1;
    var hashEnd := hashStart + 20;
    TreeEntry(Text(Sub(data, start, sp)), Text(Sub(data, sp + 1, nul)), Hex(Sub(data, hashStart, if hashEnd <= |data| then hashEnd else |data|)))
  }

  /** The entries `parseTreeEntries` finds from `start` on: the mode runs to
      the next space and the name to the next NUL after it; a missing space or
      NUL ends the list. */
  function TreeEntriesFrom(data: seq<byte>, start: nat): seq<TreeEntry>
    decreases |data| - start
  {
    if start >= |data| then []
    else
      var sp := IndexOf(data, 32, start);
      if sp == -1 then []
      else
        var nul := IndexOf(data, 0, sp + 1);
        if nul == -1 then []
        else [EntryOf(data, start, sp, nul)] + TreeEntriesFrom(data, nul + 21)
  }

  /** `parseTreeEntries(data)`. */
  method ParseTreeEntries(data: seq<byte>) returns (result: seq<TreeEntry>)
    ensures result == TreeEntriesFrom(data, 0)
  {
    result := [];
    var startIndex: nat := 0;
    while startIndex < |data|
      invariant result + TreeEntriesFrom(data, startIndex) == TreeEntriesFrom(data, 0)
      decreases |data| - startIndex
    {
      var modeEndIndex := IndexOf(data, 32, startIndex);
      if modeEndIndex == -1 {
        NoMoreEntries(data, result, startIndex, modeEndIndex);
        break;
      }
      var mode := Text(Sub(data, startIndex, modeEndIndex));
      var fileNameStartIndex := modeEndIndex + 1;
      var nullByteIndex := IndexOf(data, 0, fileNameStartIndex);
      if nullByteIndex == -1 {
        NoMoreEntries(data, result, startIndex, modeEndIndex);
        break;
      }
      var name := Text(Sub(data, fileNameStartIndex, nullByteIndex));
      var hashStartIndex := nullByteIndex + 1;
      var hashEndIndex := hashStartIndex + 20;
      var hash := Hex(Sub(data, hashStartIndex, if hashEndIndex <= |data| then hashEndIndex else |data|));
      var entry := TreeEntry(mode, name, hash);
      assert result + [entry] + TreeEntriesFrom(data, hashEndIndex) == TreeEntriesFrom(data, 0) by {
        ParseStep(data, result, startIndex, modeEndIndex, nullByteIndex, mode, name, hash, hashEndIndex);
      }
      result := result + [entry];
      startIndex := hashEndIndex;
    }
  }

  /** A missing space or NUL ends the list: what was parsed so far is all of it. */
  lemma NoMoreEntries(data: seq<byte>, result: seq<TreeEntry>, start: nat, sp: int)
    requires start < |data| && result + TreeEntriesFrom(data, start) == TreeEntriesFrom(data, 0)
    requires IndexOf(data, 32, start) == sp && (sp == -1 || IndexOf(data, 0, sp + 1) == -1)
    ensures result == TreeEntriesFrom(data, 0)
  {
    assert TreeEntriesFrom(data, start) == [];
    assert result + [] == result;
  }

  /** One step of the parse, once the space and the NUL are found: the entry
      between them, then the entries after its hash. */
  lemma TreeStep(data: seq<byte>, start: nat, sp: nat, nul: nat, entry: TreeEntry, next: nat)
    requires start < |data| && IndexOf(data, 32, start) == sp && sp >= 0
    requires IndexOf(data, 0, sp + 1) == nul && nul >= 0
    requires start <= sp < nul < |data| && entry == EntryOf(data, start, sp, nul) && next == nul + 21
    ensures TreeEntriesFrom(data, start) == [entry] + TreeEntriesFrom(data, next)
  {
  }

  /** The fields the loop reads make up `EntryOf`. */
  lemma EntryFields(data: seq<byte>, start: nat, sp: nat, nameStart: nat, nul: nat, hashStart: nat, hashEnd: nat,
                    mode: string, name: string, hash: string)
    requires start <= sp < nul < |data| && nameStart == sp + 1 && hashStart == nul + 1 && hashEnd == hashStart + 20
    requires mode == Text(Sub(data, start, sp)) && name == Text(Sub(data, nameStart, nul))
    requires hash == Hex(Sub(data, hashStart, if hashEnd <= |data| then hashEnd else |data|))
    ensures TreeEntry(mode, name, hash) == EntryOf(data, start, sp, nul)
  {
  }

  /** The loop's step: appending the entry found keeps the entries still to
      be found in place. */
  lemma ParseStep(data: seq<byte>, result: seq<TreeEntry>, start: nat, sp: nat, nul: nat,
                  mode: string, name: string, hash: string, next: nat)
    requires start < |data| && IndexOf(data, 32, start) == sp && sp >= 0
    requires IndexOf(data, 0, sp + 1) == nul && nul >= 0
    requires start <= sp < nul < |data| && next == nul + 21
    requires mode == Text(Sub(data, start, sp)) && name == Text(Sub(data, sp + 1, nul))
    requires hash == Hex(Sub(data, nul + 1, if next <= |data| then next else |data|))
    requires result + TreeEntriesFrom(data, start) == TreeEntriesFrom(data, 0)
    ensures result + [TreeEntry(mode, name, hash)] + TreeEntriesFrom(data, next) == TreeEntriesFrom(data, 0)
  {
    var entry := TreeEntry(mode, name, hash);
    EntryFields(data, start, sp, sp + 1, nul, nul + 1, next, mode, name, hash);
    TreeStep(data, start, sp, nul, entry, next);
    AppendAssoc(result, [entry], TreeEntriesFrom(data, next));
  }

  /** The bytes of a record, field by field. */
  lemma EntryLayout(e: TreeEntry)
    ensures EntryBytes(e) == Bytes(e.mode) + [32] + Bytes(e.name) + [0] + FromHex(e.hash)
  {
    BytesAppend(e.mode + " " + e.name, "\0");
    BytesAppend(e.mode + " ", e.name);
    BytesAppend(e.mode, " ");
  }

  /** Positions `i .. i + |s|` of `data` hold the bytes of `s`, which lack `c`,
      and `c` follows: the scan for `c` stops there and the field reads as `s`. */
  lemma FieldAt(data: seq<byte>, i: nat, s: string, c: char, b: byte)
    requires IsLatin1(s) && b == c as int && c !in s
    requires i + |s| < |data| && data[i + |s|] == b
    requires forall k :: 0 <= k < |s| ==> data[i + k] == Bytes(s)[k]
    ensures IndexOf(data, b, i) == i + |s|
    ensures Text(Sub(data, i, i + |s|)) == s
  {
    BytesAvoid(s, c);
    forall k | i <= k < i + |s|
      ensures data[k] != c as int
    {
      assert data[i + (k - i)] == Bytes(s)[k - i];
    }
    IndexOfAt(data, b, i, i + |s|);
    assert Sub(data, i, i + |s|) == Bytes(s);
    TextOfBytes(s);
  }

  /** The 20 bytes at `h` hold the hash: the field reads as its hex. */
  lemma HashAt(data: seq<byte>, h: nat, hash: string)
    requires |hash| == 40 && IsLowerHex(hash) && |FromHex(hash)| == 20
    requires h + 20 <= |data|
    requires forall k :: 0 <= k < 20 ==> data[h + k] == FromHex(hash)[k]
    ensures Hex(Sub(data, h, h + 20)) == hash
  {
    assert Sub(data, h, h + 20) == FromHex(hash);
    HexOfFromHex(hash);
  }

  /** The record of `e` lies at positions `i ..` of `data`. */
  predicate RecordAt(data: seq<byte>, i: nat, e: TreeEntry)
  {
    var eb := EntryBytes(e);
    i + |eb| <= |data| && forall k :: 0 <= k < |eb| ==> data[i + k] == eb[k]
  }

  /** The bytes of a well-formed record at `i`, field by field. */
  lemma RecordParts(data: seq<byte>, i: nat, e: TreeEntry)
    requires WellFormed(e) && RecordAt(data, i, e)
    ensures var sp, nul := i + |e.mode|, i + |e.mode| + 1 + |e.name|;
      && |FromHex(e.hash)| == 20
      && i + |EntryBytes(e)| == nul + 21
      && data[sp] == 32 && data[nul] == 0
      && (forall k :: 0 <= k < |e.mode| ==> data[i + k] == Bytes(e.mode)[k])
      && (forall k :: 0 <= k < |e.name| ==> data[sp + 1 + k] == Bytes(e.name)[k])
      && (forall k :: 0 <= k < 20 ==> data[nul + 1 + k] == FromHex(e.hash)[k])
  {
    var m, n := |e.mode|, |e.name|;
    var mode, name, raw := Bytes(e.mode), Bytes(e.name), FromHex(e.hash);
    var eb := EntryBytes(e);
    FromHexLength(e.hash);
    EntryLayout(e);
    var sp := i + m;
    var nul := sp + 1 + n;
    forall k | 0 <= k < m
      ensures data[i + k] == mode[k]
    {
      assert data[i + k] == eb[k];
    }
    assert data[sp] == eb[m] == 32;
    forall k | 0 <= k < n
      ensures data[sp + 1 + k] == name[k]
    {
      assert data[sp + 1 + k] == eb[m + 1 + k];
    }
    assert data[nul] == eb[m + 1 + n] == 0;
    forall k | 0 <= k < 20
      ensures data[nul + 1 + k] == raw[k]
    {
      assert data[nul + 1 + k] == eb[m + n + 2 + k];
    }
  }

  /** The parse finds the delimiters of a well-formed record at `i` and reads
      its entry back. */
  lemma RecordParsed(data: seq<byte>, i: nat, e: TreeEntry, sp: nat, nul: nat)
    requires WellFormed(e) && RecordAt(data, i, e)
    requires sp == i + |e.mode| && nul == sp + 1 + |e.name|
    ensures nul < |data| && i + |EntryBytes(e)| == nul + 21
    ensures IndexOf(data, 32, i) == sp && IndexOf(data, 0, sp + 1) == nul
    ensures EntryOf(data, i, sp, nul) == e
  {
    RecordParts(data, i, e);
    ModeParsed(data, i, e, sp);
    NameParsed(data, i, e, sp, nul);
    HashParsed(data, i, e, nul);
  }

  lemma ModeParsed(data: seq<byte>, i: nat, e: TreeEntry, sp: nat)
    requires WellFormed(e) && RecordAt(data, i, e) && sp == i + |e.mode|
    ensures sp < |data| && IndexOf(data, 32, i) == sp && Text(Sub(data, i, sp)) == e.mode
  {
    RecordParts(data, i, e);
    FieldAt(data, i, e.mode, ' ', 32);
  }

  lemma NameParsed(data: seq<byte>, i: nat, e: TreeEntry, sp: nat, nul: nat)
    requires WellFormed(e) && RecordAt(data, i, e) && sp == i + |e.mode| && nul == sp + 1 + |e.name|
    ensures nul < |data| && IndexOf(data, 0, sp + 1) == nul && Text(Sub(data, sp + 1, nul)) == e.name
  {
    RecordParts(data, i, e);
    FieldAt(data, sp + 1, e.name, '\0', 0);
  }

  lemma HashParsed(data: seq<byte>, i: nat, e: TreeEntry, nul: nat)
    requires WellFormed(e) && RecordAt(data, i, e) && nul == i + |e.mode| + 1 + |e.name|
    ensures nul + 21 <= |data| && Hex(Sub(data, nul + 1, nul + 21)) == e.hash
  {
    RecordParts(data, i, e);
    HashAt(data, nul + 1, e.hash);
  }

  /** A record at the head of a suffix lies there position by position. */
  lemma HeadRecord(data: seq<byte>, i: nat, e: TreeEntry, rest: seq<byte>)
    requires i <= |data| && data[i..] == EntryBytes(e) + rest
    ensures RecordAt(data, i, e) && data[i + |EntryBytes(e)|..] == rest
  {
    var eb := EntryBytes(e);
    SplitSuffix(data, i, eb, rest);
    forall k | 0 <= k < |eb|
      ensures data[i + k] == eb[k]
    {
      assert data[i..i + |eb|][k] == data[i + k];
    }
  }

  /** A well-formed record at the head of `data[i..]` is parsed back to its
      entry, and parsing goes on right after it, where the rest begins. */
  lemma EntryAt(data: seq<byte>, i: nat, e: TreeEntry, rest: seq<byte>, next: nat)
    requires WellFormed(e) && i <= |data| && data[i..] == EntryBytes(e) + rest
    requires next == i + |EntryBytes(e)|
    ensures data[next..] == rest
    ensures TreeEntriesFrom(data, i) == [e] + TreeEntriesFrom(data, next)
  {
    HeadRecord(data, i, e, rest);
    RecordStep(data, i, e, next);
  }

  /** A well-formed record at `i` is parsed back to its entry. */
  lemma RecordStep(data: seq<byte>, i: nat, e: TreeEntry, next: nat)
    requires WellFormed(e) && RecordAt(data, i, e) && next == i + |EntryBytes(e)|
    ensures TreeEntriesFrom(data, i) == [e] + TreeEntriesFrom(data, next)
  {
    var sp, nul := i + |e.mode|, i + |e.mode| + 1 + |e.name|;
    RecordParsed(data, i, e, sp, nul);
    TreeStep(data, i, sp, nul, e, next);
  }

  /** Parsing an encoded list of well-formed entries gives the list back. */
  lemma {:induction false} TreeEntriesOfEncoded(data: seq<byte>, i: nat, es: seq<TreeEntry>)
    requires AllWellFormed(es)
    requires i <= |data| && data[i..] == EncodeEntries(es)
    ensures TreeEntriesFrom(data, i) == es
    decreases |es|
  {
    if es != [] {
      var e, tail := es[0], es[1..];
      EncodeCons(es, e, tail);
      var next := i + |EntryBytes(e)|;
      EntryAt(data, i, e, EncodeEntries(tail), next);
      TreeEntriesOfEncoded(data, next, tail);
    }
  }

  /** A non-empty list is its head and its tail, encoded one after the other. */
  lemma EncodeCons(es: seq<TreeEntry>, e: TreeEntry, tail: seq<TreeEntry>)
    requires es != [] && AllWellFormed(es) && e == es[0] && tail == es[1..]
    ensures es == [e] + tail && WellFormed(e) && AllWellFormed(tail)
    ensures EncodeEntries(es) == EntryBytes(e) + EncodeEntries(tail)
  {
  }

  /** The parse is the inverse of the encoder on well-formed entries. */
  lemma ParseEncoded(es: seq<TreeEntry>)
    ensures AllWellFormed(es) ==> TreeEntriesFrom(EncodeEntries(es), 0) == es
  {
    if AllWellFormed(es) {
      TreeEntriesOfEncoded(EncodeEntries(es), 0, es);
    }
  }

  /** The argument of `createTreeContent`: a payload to re-parse (`entries`
      false) or a list of entries to encode. */
  datatype TreeSource = Payload(data: seq<byte>) | Listed(entries: seq<TreeEntry>)

  function SourceEntries(source: TreeSource): seq<TreeEntry>
  {
    match source
    case Payload(data) => TreeEntriesFrom(data, 0)
    case Listed(entries) => entries
  }

  /** `createTreeContent(tree, entries)`: the entries are re-encoded and framed
      as a "tree" object. */
  function CreateTreeContent(source: TreeSource, sha1: Sha1): (r: Hashed)
    ensures r.hash == sha1(r.content)
  {
    Hash("tree", EncodeEntries(SourceEntries(source)), sha1)
  }

  /** Read back, a tree object has the byte length of its records in its
      header, and well-formed entries come back from its content in the same
      order. */
  lemma TreeReadsBack(source: TreeSource, sha1: Sha1)
    ensures var obj := SplitObject(CreateTreeContent(source, sha1).content);
      && obj.kind == "tree"
      && obj.length == Some(Decimal(|obj.content|))
      && (AllWellFormed(SourceEntries(source)) ==> TreeEntriesFrom(obj.content, 0) == SourceEntries(source))
  {
    var payload := EncodeEntries(SourceEntries(source));
    KnownKinds();
    SplitFramed("tree", |payload|, payload);
    ParseEncoded(SourceEntries(source));
  }

  /** In re-parse mode a well-formed payload is reproduced after the header. */
  lemma TreeRoundTrip(es: seq<TreeEntry>, sha1: Sha1)
    requires AllWellFormed(es)
    ensures CreateTreeContent(Payload(EncodeEntries(es)), sha1).content == Framed("tree", EncodeEntries(es))
  {
    ParseEncoded(es);
  }

  // ---------------------------------------------------------------------------
  // Object paths, writing and reading
  // ---------------------------------------------------------------------------

  /** A SHA-1 in hex: 40 lower-case hex digits. */
  predicate IsHash(hash: string)
  {
    |hash| == 40 && IsLowerHex(hash)
  }

  /** `resolveGitObjectPath(hash, basePath)`: `.git/objects/` under the base,
      then the first two characters of the hash as a directory and the rest
      as the file name. */
  function ObjectPath(basePath: Path, hash: string): (p: Path)
    ensures IsHash(hash) ==> p == basePath + [".git", "objects", hash[..2], hash[2..]]
    ensures IsHash(hash) ==> p[|p| - 2] + p[|p| - 1] == hash
  {
    var p := PathJoin(basePath, [".git", "objects", Slice(hash, 0, 2), Slice(hash, 2, |hash|)]);
    if IsHash(hash) then
      ObjectPartsPlain(hash);
      PathJoinAll(basePath, [".git", "objects", hash[..2], hash[2..]]);
      assert hash[..2] + hash[2..] == hash;
      p
    else p
  }

  /** The directory an object goes in. */
  function ObjectFolder(basePath: Path, hash: string): Path
  {
    PathJoin(basePath, [".git", "objects", Slice(hash, 0, 2)])
  }

  const OBJECT_EXISTS := "Git object already exist"

  /** `writeGitObject(hash, content, basePath)` on a tree: write into an
      existing shard directory; otherwise refuse when `objects/<name>` exists,
      and else create the shard directory (recursively) and write. */
  function WriteObject(nodes: Tree, hash: string, content: seq<byte>, basePath: Path): Run
  {
    var folder := ObjectFolder(basePath, hash);
    var file := ObjectPath(basePath, hash);
    if Exists(nodes, folder) then WriteFile(nodes, file, content)
    else if Exists(nodes, PathJoin(basePath, [".git", "objects", Slice(hash, 2, |hash|)])) then Run(nodes, Some(OBJECT_EXISTS))
    else
      var made := MkdirAll(nodes, folder);
      if made.err.Some? then made else WriteFile(made.nodes, file, content)
  }

  lemma FolderOfPath(basePath: Path, hash: string)
    requires IsHash(hash)
    ensures ObjectFolder(basePath, hash) == Parent(ObjectPath(basePath, hash))
    ensures ObjectPath(basePath, hash) != ObjectFolder(basePath, hash)
  {
    ObjectPartsPlain(hash);
    PathJoinAll(basePath, [".git", "objects", hash[..2]]);
  }

  /** The components of an object's path are plain names, so joining them
      only appends. */
  lemma ObjectPartsPlain(hash: string)
    requires IsHash(hash)
    ensures Plain(".git") && Plain("objects") && Plain(hash[..2]) && Plain(hash[2..])
  {
    assert forall k :: 0 <= k < 4 ==> ".git"[k] != '/';
    assert forall k :: 0 <= k < 7 ==> "objects"[k] != '/';
    assert ".git"[1] != '.' && "objects"[0] != '.';
    HexPlain(hash[..2]);
    HexPlain(hash[2..]);
  }

  /** A non-empty run of hex digits is a plain name. */
  lemma HexPlain(s: string)
    requires s != [] && IsLowerHex(s)
    ensures Plain(s)
  {
    assert s[0] != '.';
    assert forall k :: 0 <= k < |s| ==> s[k] != '/';
  }

  /** A successful write stores the content at the object's path; the only
      other new entries are directories on that path, and no existing entry
      other than the object changes. */
  lemma WriteObjectEffect(nodes: Tree, hash: string, content: seq<byte>, basePath: Path)
    requires IsHash(hash)
    ensures var r := WriteObject(nodes, hash, content, basePath);
      var p := ObjectPath(basePath, hash);
      && (r.err.None? ==> ReadFile(r.nodes, p) == Ok(content))
      && (forall q :: q in nodes && q != p ==> q in r.nodes && r.nodes[q] == nodes[q])
      && (forall q :: q in r.nodes && q !in nodes && q != p ==> q < p && r.nodes[q] == Dir)
  {
    var folder := ObjectFolder(basePath, hash);
    var p := ObjectPath(basePath, hash);
    FolderOfPath(basePath, hash);
    if !Exists(nodes, folder) && !Exists(nodes, PathJoin(basePath, [".git", "objects", Slice(hash, 2, |hash|)])) {
      MkdirAllEffect(nodes, folder);
      var made := MkdirAll(nodes, folder);
      WriteFileEffect(made.nodes, p, content);
    } else if Exists(nodes, folder) {
      WriteFileEffect(nodes, p, content);
    }
  }

  /** Writing the same object twice leaves the tree of a single write. */
  lemma WriteObjectTwice(nodes: Tree, hash: string, content: seq<byte>, basePath: Path)
    requires IsHash(hash)
    ensures var once := WriteObject(nodes, hash, content, basePath);
      once.err.None? ==> WriteObject(once.nodes, hash, content, basePath) == once
  {
    var folder := ObjectFolder(basePath, hash);
    var p := ObjectPath(basePath, hash);
    FolderOfPath(basePath, hash);
    var once := WriteObject(nodes, hash, content, basePath);
    if once.err.None? {
      if Exists(nodes, folder) {
        WriteFileTwice(nodes, p, content);
      } else {
        var made := MkdirAll(nodes, folder);
        MkdirAllEffect(nodes, folder);
        WriteFileTwice(made.nodes, p, content);
      }
    }
  }

  /** `readGitObject(sha, basePath)`: read the object's file and split it. */
  function ReadGitObject(nodes: Tree, sha: string, basePath: Path): (r: Result<GitObject>)
    ensures r.Ok? <==> ReadFile(nodes, ObjectPath(basePath, sha)).Ok?
  {
    match ReadFile(nodes, ObjectPath(basePath, sha))
    case Err(e) => Err(e)
    case Ok(data) => Ok(SplitObject(data))
  }

  /** An object written framed reads back as its kind, length and data. */
  lemma ReadWritten(nodes: Tree, hash: string, kind: string, data: seq<byte>, basePath: Path)
    requires IsHash(hash) && IsKind(kind)
    ensures var r := WriteObject(nodes, hash, Framed(kind, data), basePath);
      r.err.None? ==> ReadGitObject(r.nodes, hash, basePath) == Ok(GitObject(kind, Some(Decimal(|data|)), data))
  {
    WriteObjectEffect(nodes, hash, Framed(kind, data), basePath);
    SplitFramed(kind, |data|, data);
  }

  /** `writeGitObject` on the file system; it returns the object's file name. */
  method WriteGitObject(fs: FileSystem, hash: string, content: seq<byte>, basePath: Path)
    returns (name: string, err: Option<string>)
    modifies fs
    ensures Run(fs.nodes, err) == WriteObject(old(fs.nodes), hash, content, basePath)
    ensures err.None? ==> name == Slice(hash, 2, |hash|)
  {
    var objectFolder := Slice(hash, 0, 2);
    var objectName := Slice(hash, 2, |hash|);
    if Exists(fs.nodes, PathJoin(basePath, [".git", "objects", objectFolder])) {
      err := fs.WriteFileSync(PathJoin(basePath, [".git", "objects", objectFolder, objectName]), content);
      name := objectName;
      return;
    } else if Exists(fs.nodes, PathJoin(basePath, [".git", "objects", objectName])) {
      name, err := "", Some(OBJECT_EXISTS);
      return;
    }
    err := fs.MkdirSync(PathJoin(basePath, [".git", "objects", objectFolder]), true);
    if err.Some? {
      name := "";
      return;
    }
    err := fs.WriteFileSync(PathJoin(basePath, [".git", "objects", objectFolder, objectName]), content);
    name := objectName;
  }

  // ---------------------------------------------------------------------------
  // Objects of a pack
  // ---------------------------------------------------------------------------

  /** An object taken from a pack: its kind ("commit", "tree", "blob",
      "delta" or `undefined`), its inflated data and, for a delta, the 20-byte
      hash of its base. */
  datatype RawObject = RawObject(kind: Option<string>, content: seq<byte>, ref: Option<seq<byte>>)

  /** What `parseGitObject` returns: the hash and kind, the framed object
      (`parsed`) and the data it came from (`raw`). */
  datatype ParsedObject = ParsedObject(hash: string, kind: string, parsed: seq<byte>, raw: seq<byte>)

  const DELTA_REFUSED := "Refer to resovle delta function"
  /** Looking up a kind missing from `PARSE_FUNCTIONS` and calling it. */
  const NOT_A_FUNCTION := "TypeError: PARSE_FUNCTIONS[type] is not a function"

  /** The kinds `PARSE_FUNCTIONS` knows. */
  predicate Parsable(kind: Option<string>)
  {
    kind == Some("tree") || kind == Some("blob") || kind == Some("commit")
  }

  /** `PARSE_FUNCTIONS[kind](content)`. */
  function Create(kind: string, content: seq<byte>, sha1: Sha1): Result<Hashed>
  {
    if kind == "tree" then Ok(CreateTreeContent(Payload(content), sha1))
    else if kind == "blob" then CreateBlobContent(Some(content), sha1)
    else if kind == "commit" then CreateCommitContent(Some(content), sha1)
    else Err(NOT_A_FUNCTION)
  }

  /** `parseGitObject(object)`: a delta is refused, a kind without a parse
      function throws, and any other object is framed under its own kind and
      hashed. */
  function ParseGitObject(obj: RawObject, sha1: Sha1): (r: Result<ParsedObject>)
    ensures r.Ok? <==> Parsable(obj.kind)
    ensures obj.kind == Some("delta") ==> r == Err(DELTA_REFUSED)
    ensures r.Ok? ==> && r.value.kind == obj.kind.value
                      && r.value.raw == obj.content
                      && r.value.hash == sha1(r.value.parsed)
  {
    if obj.kind == Some("delta") then Err(DELTA_REFUSED)
    else if obj.kind.None? then Err(NOT_A_FUNCTION)
    else
      match Create(obj.kind.value, obj.content, sha1)
      case Err(e) => Err(e)
      case Ok(h) => Ok(ParsedObject(h.hash, obj.kind.value, h.content, obj.content))
  }

  /** A parsed object reads back under its own kind; a blob or a commit reads
      back as the data it came from. */
  lemma ParsedReadsBack(obj: RawObject, sha1: Sha1)
    requires ParseGitObject(obj, sha1).Ok?
    ensures var p := ParseGitObject(obj, sha1).value;
      && SplitObject(p.parsed).kind == p.kind
      && (p.kind != "tree" ==> SplitObject(p.parsed).content == p.raw)
  {
    var kind := obj.kind.value;
    var p := ParseGitObject(obj, sha1).value;
    if kind == "tree" {
      assert p.parsed == CreateTreeContent(Payload(obj.content), sha1).content;
      TreeReadsBack(Payload(obj.content), sha1);
    } else if kind == "blob" {
      assert p.parsed == CreateBlobContent(Some(obj.content), sha1).value.content;
      BlobReadsBack(obj.content, sha1);
    } else {
      assert p.parsed == CreateCommitContent(Some(obj.content), sha1).value.content;
      CommitReadsBack(obj.content, sha1);
    }
  }

  /** The dictionary `parseGitObjects` has built from the first `n` objects,
      with `parse` standing for `parseGitObject`: deltas are skipped, the
      first error is thrown, and each object is stored under its hash,
      replacing an earlier one with the same hash. */
  function Collected(objects: seq<RawObject>, n: nat, parse: RawObject -> Result<ParsedObject>): Result<map<string, ParsedObject>>
    requires n <= |objects|
  {
    if n == 0 then Ok(map[])
    else
      match Collected(objects, n - 1, parse)
      case Err(e) => Err(e)
      case Ok(m) =>
        if objects[n - 1].kind == Some("delta") then Ok(m)
        else
          match parse(objects[n - 1])
          case Err(e) => Err(e)
          case Ok(p) => Ok(m[p.hash := p])
  }

  /** The first error is the one thrown: later objects do not change it. */
  lemma {:induction false} ErrorSticks(objects: seq<RawObject>, i: nat, n: nat, parse: RawObject -> Result<ParsedObject>)
    requires i <= n <= |objects| && Collected(objects, i, parse).Err?
    ensures Collected(objects, n, parse) == Collected(objects, i, parse)
    decreases n
  {
    if i < n {
      ErrorSticks(objects, i, n - 1, parse);
    }
  }

  /** The fold's step over an object that is not a delta. */
  lemma CollectStep(objects: seq<RawObject>, i: nat, parse: RawObject -> Result<ParsedObject>, m: map<string, ParsedObject>)
    requires i < |objects| && Collected(objects, i, parse) == Ok(m) && objects[i].kind != Some("delta")
    ensures parse(objects[i]).Err? ==> Collected(objects, i + 1, parse) == Err(parse(objects[i]).error)
    ensures parse(objects[i]).Ok? ==> Collected(objects, i + 1, parse) == Ok(m[parse(objects[i]).value.hash := parse(objects[i]).value])
  {
  }

  /** `parseGitObject` as a function value. */
  function Parser(sha1: Sha1): RawObject -> Result<ParsedObject>
  {
    o => ParseGitObject(o, sha1)
  }

  /** `parseGitObjects(objects)`: a thrown parse error is returned. */
  method ParseGitObjects(objects: seq<RawObject>, sha1: Sha1) returns (r: Result<map<string, ParsedObject>>)
    ensures r == Collected(objects, |objects|, Parser(sha1))
  {
    var parse := Parser(sha1);
    var gitObjects: map<string, ParsedObject> := map[];
    for i := 0 to |objects|
      invariant Collected(objects, i, parse) == Ok(gitObjects)
    {
      if objects[i].kind != Some("delta") {
        CollectStep(objects, i, parse, gitObjects);
        match parse(objects[i])
        case Err(e) =>
          ErrorSticks(objects, i + 1, |objects|, parse);
          return Err(e);
        case Ok(p) =>
          gitObjects := gitObjects[p.hash := p];
      }
    }
    return Ok(gitObjects);
  }

  /** Whether object `k` is stored under `h`: it is not a delta and it parses
      to an object with hash `h`. */
  predicate StoredAs(objects: seq<RawObject>, k: nat, h: string, parse: RawObject -> Result<ParsedObject>)
    requires k < |objects|
  {
    objects[k].kind != Some("delta") && parse(objects[k]).Ok? && parse(objects[k]).value.hash == h
  }

  /** `p` is the parse of the last of the first `n` objects stored under `h`. */
  predicate LastStored(objects: seq<RawObject>, n: nat, h: string, p: ParsedObject, parse: RawObject -> Result<ParsedObject>)
    requires n <= |objects|
  {
    exists k :: 0 <= k < n && StoredAs(objects, k, h, parse) && p == parse(objects[k]).value
      && forall j :: k < j < n ==> !StoredAs(objects, j, h, parse)
  }

  /** The dictionary is built exactly when every object but the deltas
      parses; then its keys are the hashes of those objects, and the entry
      under a hash is the last object with that hash, so identical objects
      collapse into one entry. */
  lemma {:induction false} CollectedKeys(objects: seq<RawObject>, n: nat, parse: RawObject -> Result<ParsedObject>)
    requires n <= |objects|
    ensures Collected(objects, n, parse).Ok?
      <==> forall k :: 0 <= k < n && objects[k].kind != Some("delta") ==> parse(objects[k]).Ok?
    ensures Collected(objects, n, parse).Ok? ==>
      var m := Collected(objects, n, parse).value;
      && (forall k :: 0 <= k < n && objects[k].kind != Some("delta") ==> parse(objects[k]).value.hash in m)
      && (forall h :: h in m ==> LastStored(objects, n, h, m[h], parse))
    decreases n
  {
    if n > 0 {
      CollectedKeys(objects, n - 1, parse);
      var last := n - 1;
      if Collected(objects, n - 1, parse).Err? {
        ErrorSticks(objects, n - 1, n, parse);
      }
      if Collected(objects, n, parse).Ok? {
        var m := Collected(objects, n, parse).value;
        var prev := Collected(objects, n - 1, parse).value;
        forall h | h in m
          ensures LastStored(objects, n, h, m[h], parse)
        {
          if StoredAs(objects, last, h, parse) {
            assert m[h] == parse(objects[last]).value;
          } else {
            assert h in prev && m[h] == prev[h];
            var k :| 0 <= k < n - 1 && StoredAs(objects, k, h, parse)
              && prev[h] == parse(objects[k]).value
              && forall j :: k < j < n - 1 ==> !StoredAs(objects, j, h, parse);
            assert forall j :: k < j < n ==> !StoredAs(objects, j, h, parse);
          }
        }
      }
    }
  }
}
