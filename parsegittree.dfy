/**
 * `parseTreeObject(decompressedData)` (app/modules/parseGitTree.js): the
 * entries of a tree payload as `{mode, filename, hash}`.
 *
 * As written, the loop does not check the result of either `indexOf`: a
 * missing space or NUL makes the cursor `-1 + 1 = 0`, and the scan starts
 * over from the beginning of the payload. On such a payload the loop is not
 * guaranteed to end: `StuckPayload` never ends, while other payloads end
 * after pushing garbage entries. `ParseTreeObject` is the loop as written,
 * for the payloads on which every scan finds its delimiter;
 * `ParseTreeObjectGuarded` stops at a missing delimiter, as
 * `parseTreeEntries` does, and is defined on every payload.
 */
module ParseGitTree {
  import opened Js
  import opened Objects

  /** One entry as `parseTreeObject` pushes it. */
  datatype ObjectEntry = ObjectEntry(mode: string, filename: string, hash: string)

  function Rename(e: TreeEntry): ObjectEntry
  {
    ObjectEntry(e.mode, e.name, e.hash)
  }

  /** The entries of `parseTreeEntries`, with `name` called `filename`. */
  function Renamed(es: seq<TreeEntry>): (r: seq<ObjectEntry>)
    ensures |r| == |es|
  {
    if es == [] then [] else [Rename(es[0])] + Renamed(es[1..])
  }

  lemma RenamedCons(e: TreeEntry, rest: seq<TreeEntry>)
    ensures Renamed([e] + rest) == [Rename(e)] + Renamed(rest)
  {
    assert ([e] + rest)[1..] == rest;
  }

  /** Renaming keeps every entry in its place. */
  lemma {:induction false} RenamedAt(es: seq<TreeEntry>, k: nat)
    requires k < |es|
    ensures Renamed(es)[k] == Rename(es[k])
    decreases k
  {
    if k > 0 {
      RenamedAt(es[1..], k - 1);
    }
  }

  /** From cursor `i` on, every scan for a space and then for a NUL finds one,
      up to the end of the payload. */
  predicate Delimited(data: seq<byte>, i: nat)
    decreases |data| - i
  {
    i >= |data| ||
      var sp := IndexOf(data, 32, i);
      sp >= 0 &&
        var nul := IndexOf(data, 0, sp + 1);
        nul >= 0 && Delimited(data, nul + 21)
  }

  /** The loop of `parseTreeObject` as written, on a payload whose delimiters
      are all there: the entries of `parseTreeEntries`, renamed. On an empty
      payload there are none. */
  method ParseTreeObject(decompressedData: seq<byte>) returns (entries: seq<ObjectEntry>)
    requires Delimited(decompressedData, 0)
    ensures entries == Renamed(TreeEntriesFrom(decompressedData, 0))
    ensures decompressedData == [] ==> entries == []
  {
    var data := decompressedData;
    var i: int := 0;
    entries := [];
    while i < |data|
      invariant 0 <= i && Delimited(data, i)
      invariant entries + Renamed(TreeEntriesFrom(data, i)) == Renamed(TreeEntriesFrom(data, 0))
      decreases |data| - i
    {
      ghost var start: nat := i;
      var spaceIndex := IndexOf(data, 32, i);
      var mode := Text(Slice(data, i, spaceIndex));
      i := spaceIndex + 1;
      var nullIndex := IndexOf(data, 0, i);
      var filename := Text(Slice(data, i, nullIndex));
      i := nullIndex + 1;
      var hash := Slice(data, i, i + 20);
      i := i + 20;
      var entry := ObjectEntry(mode, filename, Hex(hash));
      Advance(data, start, entries, spaceIndex, nullIndex, entry);
      entries := entries + [entry];
    }
    NoMore(data, i, entries);
  }

  /** The fields the loop slices out are those of `EntryOf`. */
  lemma {:induction false} SliceFields(data: seq<byte>, start: nat, sp: nat, nul: nat)
    requires start <= sp < nul < |data|
    ensures Rename(EntryOf(data, start, sp, nul))
      == ObjectEntry(Text(Slice(data, start, sp)), Text(Slice(data, sp + 1, nul)), Hex(Slice(data, nul + 1, nul + 1 + 20)))
  {
    EntryFieldsSliced(data, start, sp, nul);
  }

  lemma {:induction false} EntryFieldsSliced(data: seq<byte>, start: nat, sp: nat, nul: nat)
    requires start <= sp < nul < |data|
    ensures EntryOf(data, start, sp, nul).mode == Text(Slice(data, start, sp))
    ensures EntryOf(data, start, sp, nul).name == Text(Slice(data, sp + 1, nul))
    ensures EntryOf(data, start, sp, nul).hash == Hex(Slice(data, nul + 1, nul + 1 + 20))
  {
    SubSlice(data, start, sp);
    SubSlice(data, sp + 1, nul);
    HashSliced(data, nul + 1);
  }

  /** The hash field: up to 20 bytes, fewer where the data ends. */
  lemma {:induction false} HashSliced(data: seq<byte>, h: nat)
    requires h <= |data|
    ensures Sub(data, h, if h + 20 <= |data| then h + 20 else |data|) == Slice(data, h, h + 20)
  {
    if h + 20 <= |data| {
      SubSlice(data, h, h + 20);
    } else {
      SubSlice(data, h, |data|);
      assert data[h..|data|] == data[h..];
    }
  }

  /** Where the delimiters are all there, the scans from `start` find them and
      the rest of the payload keeps them. */
  lemma DelimitedStep(data: seq<byte>, start: nat, sp: int, nul: int)
    requires start < |data| && Delimited(data, start)
    requires sp == IndexOf(data, 32, start) && nul == IndexOf(data, 0, sp + 1)
    ensures start <= sp < nul < |data| && Delimited(data, nul + 21)
  {
  }

  /** One pass of the loop as written, on a delimited payload: the entry
      pushed is the next one of `parseTreeEntries`, and the cursor moves past
      its hash to where the delimiters are still all there. */
  lemma Advance(data: seq<byte>, start: nat, entries: seq<ObjectEntry>, sp: int, nul: int, entry: ObjectEntry)
    requires start < |data| && Delimited(data, start)
    requires sp == IndexOf(data, 32, start) && nul == IndexOf(data, 0, sp + 1)
    requires entry == ObjectEntry(Text(Slice(data, start, sp)), Text(Slice(data, sp + 1, nul)), Hex(Slice(data, nul + 1, nul + 1 + 20)))
    ensures start <= sp < nul < |data| && Delimited(data, nul + 21)
    ensures entries + [entry] + Renamed(TreeEntriesFrom(data, nul + 21)) == entries + Renamed(TreeEntriesFrom(data, start))
  {
    DelimitedStep(data, start, sp, nul);
    Found(data, start, entries, sp, nul, entry);
  }

  /** Once the space and the NUL are found, the entry sliced out is the next
      one of `parseTreeEntries`, and the entries after it start past its hash. */
  lemma Found(data: seq<byte>, start: nat, entries: seq<ObjectEntry>, sp: int, nul: int, entry: ObjectEntry)
    requires start < |data| && sp == IndexOf(data, 32, start) && nul == IndexOf(data, 0, sp + 1)
    requires sp >= 0 && nul >= 0
    requires entry == ObjectEntry(Text(Slice(data, start, sp)), Text(Slice(data, sp + 1, nul)), Hex(Slice(data, nul + 1, nul + 1 + 20)))
    ensures start <= sp < nul < |data|
    ensures entries + [entry] + Renamed(TreeEntriesFrom(data, nul + 21)) == entries + Renamed(TreeEntriesFrom(data, start))
  {
    SliceFields(data, start, sp, nul);
    NextEntry(data, entries, start, sp, nul, entry);
  }

  /** The loop's step: the entry found, then the entries after its hash. */
  lemma NextEntry(data: seq<byte>, entries: seq<ObjectEntry>, start: nat, sp: nat, nul: nat, entry: ObjectEntry)
    requires start < |data| && IndexOf(data, 32, start) == sp && sp >= 0
    requires IndexOf(data, 0, sp + 1) == nul && nul >= 0
    requires start <= sp < nul < |data| && entry == Rename(EntryOf(data, start, sp, nul))
    ensures entries + [entry] + Renamed(TreeEntriesFrom(data, nul + 21)) == entries + Renamed(TreeEntriesFrom(data, start))
  {
    RenamedStep(data, start, sp, nul, EntryOf(data, start, sp, nul), nul + 21);
    AppendAssoc(entries, [entry], Renamed(TreeEntriesFrom(data, nul + 21)));
  }

  /** The scans from `start` find the space at `sp` and then the NUL at `nul`. */
  predicate FoundFrom(data: seq<byte>, start: nat, sp: int, nul: int)
  {
    start < |data| && IndexOf(data, 32, start) == sp && IndexOf(data, 0, sp + 1) == nul && start <= sp < nul < |data|
  }

  /** Renamed, the entries from `start` are the one found there, then those
      past its hash. */
  lemma RenamedStep(data: seq<byte>, start: nat, sp: nat, nul: nat, e: TreeEntry, next: nat)
    requires FoundFrom(data, start, sp, nul)
    requires e == EntryOf(data, start, sp, nul) && next == nul + 21
    ensures Renamed(TreeEntriesFrom(data, start)) == [Rename(e)] + Renamed(TreeEntriesFrom(data, next))
  {
    TreeStep(data, start, sp, nul, e, next);
    RenamedCons(e, TreeEntriesFrom(data, next));
  }

  /** A payload of well-formed records has all its delimiters. */
  lemma {:induction false} EncodedDelimited(data: seq<byte>, i: nat, es: seq<TreeEntry>)
    requires AllWellFormed(es) && i <= |data| && data[i..] == EncodeEntries(es)
    ensures Delimited(data, i)
    decreases |es|
  {
    if es != [] {
      var e, tail := es[0], es[1..];
      EncodeCons(es, e, tail);
      var next := HeadDelimiters(data, i, e, EncodeEntries(tail));
      EncodedDelimited(data, next, tail);
    }
  }

  /** The delimiters of a well-formed record at the head of `data[i..]` are
      found where it puts them, and the rest starts after its hash. */
  lemma HeadDelimiters(data: seq<byte>, i: nat, e: TreeEntry, rest: seq<byte>) returns (next: nat)
    requires WellFormed(e) && i <= |data| && data[i..] == EntryBytes(e) + rest
    ensures next <= |data| && data[next..] == rest
    ensures Delimited(data, next) ==> Delimited(data, i)
  {
    var sp, nul := i + |e.mode|, i + |e.mode| + 1 + |e.name|;
    RecordDelimiters(data, i, e, rest, sp, nul);
    next := nul + 21;
    if Delimited(data, next) {
      DelimitedBack(data, i, sp, nul);
    }
  }

  /** Where a well-formed record heads `data[i..]` its space and NUL are the
      first ones found, and the rest starts 21 bytes past the NUL. */
  lemma RecordDelimiters(data: seq<byte>, i: nat, e: TreeEntry, rest: seq<byte>, sp: nat, nul: nat)
    requires WellFormed(e) && i <= |data| && data[i..] == EntryBytes(e) + rest
    requires sp == i + |e.mode| && nul == sp + 1 + |e.name|
    ensures IndexOf(data, 32, i) == sp && IndexOf(data, 0, sp + 1) == nul
    ensures nul + 21 <= |data| && data[nul + 21..] == rest
  {
    HeadRecord(data, i, e, rest);
    RecordParsed(data, i, e, sp, nul);
  }

  /** Both delimiters found from `i`, and all of them from past the hash on,
      make all of them from `i` on. */
  lemma DelimitedBack(data: seq<byte>, i: nat, sp: nat, nul: nat)
    requires IndexOf(data, 32, i) == sp && IndexOf(data, 0, sp + 1) == nul
    requires Delimited(data, nul + 21)
    ensures Delimited(data, i)
  {
  }

  /** On the payload of well-formed entries the loop as written ends and gives
      the entries back, renamed. */
  lemma TreeObjectOfEncoded(es: seq<TreeEntry>)
    requires AllWellFormed(es)
    ensures Delimited(EncodeEntries(es), 0)
    ensures Renamed(TreeEntriesFrom(EncodeEntries(es), 0)) == Renamed(es)
  {
    EncodedDelimited(EncodeEntries(es), 0, es);
    ParseEncoded(es);
  }

  // ---------------------------------------------------------------------------
  // The missing delimiter

  /** One pass of the loop body as written from cursor `i`, whatever `indexOf`
      returns: the entry pushed and the new cursor. */
  function Step(data: seq<byte>, i: nat): (r: (ObjectEntry, nat))
    ensures IndexOf(data, 32, i) >= 0 && IndexOf(data, 0, IndexOf(data, 32, i) + 1) >= 0 ==>
      r.1 == IndexOf(data, 0, IndexOf(data, 32, i) + 1) + 21
    ensures IndexOf(data, 32, i) == -1 && IndexOf(data, 0, 0) >= 0 ==> r.1 == IndexOf(data, 0, 0) + 21
  {
    var spaceIndex := IndexOf(data, 32, i);
    var afterSpace := spaceIndex + 1;
    var nullIndex := IndexOf(data, 0, afterSpace);
    var afterNul := nullIndex + 1;
    (ObjectEntry(Text(Slice(data, i, spaceIndex)), Text(Slice(data, afterSpace, nullIndex)), Hex(Slice(data, afterNul, afterNul + 20))),
     afterNul + 20)
  }

  /** The cursor after `n` passes of the loop, as long as it stays inside the
      payload. */
  function CursorAfter(data: seq<byte>, n: nat): nat
  {
    if n == 0 then 0
    else
      var c := CursorAfter(data, n - 1);
      if c >= |data| then c else Step(data, c).1
  }

  /** "1 a", NUL, a 20-byte hash of zeros, then a stray "x": one record and a
      trailing byte without a space. */
  function StuckPayload(): seq<byte>
  {
    [49, 32, 97, 0] + seq(20, _ => 0) + [120]
  }

  /** On `StuckPayload` the loop as written never ends: after the record the
      cursor is at the stray byte, the scan for a space fails, the cursor
      goes back to 0, the scan for a NUL finds the record's NUL again, and
      the cursor comes back to the stray byte, inside the payload. */
  lemma {:induction false} StuckForever(n: nat)
    requires n >= 1
    ensures CursorAfter(StuckPayload(), n) == 24 < |StuckPayload()|
  {
    var data := StuckPayload();
    assert |data| == 25 && data[24] == 120;
    assert data[0] == 49 && data[1] == 32 && data[2] == 97 && data[3] == 0;
    IndexOfAt(data, 32, 0, 1);
    IndexOfAt(data, 0, 2, 3);
    IndexOfAt(data, 0, 0, 3);
    IndexOfFirst(data, 32, 24);
    if n > 1 {
      StuckForever(n - 1);
    }
  }

  /** `StuckPayload` is missing a delimiter. */
  lemma StuckNotDelimited()
    ensures !Delimited(StuckPayload(), 0)
  {
    var data := StuckPayload();
    assert |data| == 25 && data[24] == 120;
    assert data[0] == 49 && data[1] == 32 && data[2] == 97 && data[3] == 0;
    IndexOfAt(data, 32, 0, 1);
    IndexOfAt(data, 0, 2, 3);
    IndexOfFirst(data, 32, 24);
  }

  // ---------------------------------------------------------------------------
  // With the delimiters checked

  /** `parseTreeObject` with the checks of `parseTreeEntries`: a missing space
      or NUL ends the list. It ends on every payload. */
  method ParseTreeObjectGuarded(decompressedData: seq<byte>) returns (entries: seq<ObjectEntry>)
    ensures entries == Renamed(TreeEntriesFrom(decompressedData, 0))
  {
    var data := decompressedData;
    var i: nat := 0;
    entries := [];
    while i < |data|
      invariant entries + Renamed(TreeEntriesFrom(data, i)) == Renamed(TreeEntriesFrom(data, 0))
      decreases |data| - i
    {
      var spaceIndex := IndexOf(data, 32, i);
      if spaceIndex == -1 {
        break;
      }
      var mode := Text(Sub(data, i, spaceIndex));
      var nameStart := spaceIndex + 1;
      var nullIndex := IndexOf(data, 0, nameStart);
      if nullIndex == -1 {
        break;
      }
      var filename := Text(Sub(data, nameStart, nullIndex));
      var hashStart := nullIndex + 1;
      var hashEnd := hashStart + 20;
      // the bytes that are there, where the source reads past the end
      var hash := Hex(Sub(data, hashStart, if hashEnd <= |data| then hashEnd else |data|));
      EntryFields(data, i, spaceIndex, nameStart, nullIndex, hashStart, hashEnd, mode, filename, hash);
      Kept(data, i, entries, spaceIndex, nullIndex, TreeEntry(mode, filename, hash), hashEnd);
      entries := entries + [ObjectEntry(mode, filename, hash)];
      i := hashEnd;
    }
  }

  /** One pass of the checked loop keeps its account of the entries. */
  lemma Kept(data: seq<byte>, start: nat, entries: seq<ObjectEntry>, sp: nat, nul: nat, e: TreeEntry, next: nat)
    requires start < |data| && IndexOf(data, 32, start) == sp && sp >= 0
    requires IndexOf(data, 0, sp + 1) == nul && nul >= 0
    requires start <= sp < nul < |data| && e == EntryOf(data, start, sp, nul) && next == nul + 21
    requires entries + Renamed(TreeEntriesFrom(data, start)) == Renamed(TreeEntriesFrom(data, 0))
    ensures entries + [Rename(e)] + Renamed(TreeEntriesFrom(data, next)) == Renamed(TreeEntriesFrom(data, 0))
  {
    RenamedStep(data, start, sp, nul, e, next);
    AppendAssoc(entries, [Rename(e)], Renamed(TreeEntriesFrom(data, next)));
  }

  /** Where the scan stops, no entries are left to add. */
  lemma NoMore(data: seq<byte>, i: nat, entries: seq<ObjectEntry>)
    requires i >= |data| || IndexOf(data, 32, i) == -1 || IndexOf(data, 0, IndexOf(data, 32, i) + 1) == -1
    ensures entries + Renamed(TreeEntriesFrom(data, i)) == entries
    ensures entries + Renamed(TreeEntriesFrom(data, i)) == Renamed(TreeEntriesFrom(data, 0)) ==> entries == Renamed(TreeEntriesFrom(data, 0))
  {
    assert TreeEntriesFrom(data, i) == [];
    assert entries + [] == entries;
  }
}
