/**
 * `commit-tree`: the UTC offset of the author line and the layout of a
 * commit object, framed, hashed and written under `.git/objects`.
 *
 * The clock is a parameter: the offset in minutes east of UTC (the negated
 * `getTimezoneOffset()`) and the text of the seconds since the epoch.
 */
module Commit {
  import opened Js
  import opened Results
  import opened Fs
  import opened Objects

  // ---------------------------------------------------------------------------
  // getFormattedUtcOffset

  function Abs(x: int): nat
  {
    if x < 0 then -x else x
  }

  /** `s.padStart(n, c)`. */
  function PadStart(s: string, n: nat, c: char): (r: string)
    ensures |r| == if |s| < n then n else |s|
    ensures r[|r| - |s|..] == s
    decreases n - |s|
  {
    if |s| < n then PadStart([c] + s, n, c) else s
  }

  /** `getFormattedUtcOffset()` for an offset of `m` minutes: the sign, then
      `|floor(m / 60)|` and `|m| % 60`, each padded to two digits. Dafny's
      division by a positive number rounds down, as `Math.floor` does. */
  function FormattedUtcOffset(m: int): string
  {
    var offsetHours := Abs(m / 60);
    var offsetMinutesRemainder := Abs(m) % 60;
    var sign := if m < 0 then "-" else "+";
    sign + PadStart(Decimal(offsetHours), 2, '0') + PadStart(Decimal(offsetMinutesRemainder), 2, '0')
  }

  /** A number below 100 padded to two digits: its tens, then its units. */
  lemma TwoDigits(n: nat)
    requires n < 100
    ensures PadStart(Decimal(n), 2, '0') == [DigitChar(n / 10), DigitChar(n % 10)]
  {
    if n >= 10 {
      assert Decimal(n / 10) == [DigitChar(n / 10)];
    }
  }

  /** Reads a `±hhmm` offset back as minutes. */
  function OffsetValue(s: string): int
    requires |s| == 5 && IsDigits(s[1..])
  {
    var hours := (s[1] as int - '0' as int) * 10 + (s[2] as int - '0' as int);
    var minutes := (s[3] as int - '0' as int) * 10 + (s[4] as int - '0' as int);
    if s[0] == '-' then -(hours * 60 + minutes) else hours * 60 + minutes
  }

  /** The offset text is `-` exactly for a negative offset, and its minutes
      field is below 60. With fewer than 100 hours it is five characters long
      and reads back as the offset, except that a negative offset that is not
      a whole number of hours reads back one hour further west: the hours are
      rounded down before the sign is taken off (-330 minutes gives "-0630"). */
  lemma OffsetReadsBack(m: int)
    ensures var r := FormattedUtcOffset(m);
      && (r[0] == '-' <==> m < 0)
      && (Abs(m / 60) < 100 ==>
            && |r| == 5 && IsDigits(r[1..])
            && (r[3] as int - '0' as int) * 10 + (r[4] as int - '0' as int) < 60
            && (m >= 0 || m % 60 == 0 ==> OffsetValue(r) == m)
            && (m < 0 && m % 60 != 0 ==> OffsetValue(r) == m - 60))
  {
    var r := FormattedUtcOffset(m);
    var h, mm := Abs(m / 60), Abs(m) % 60;
    var sign := if m < 0 then "-" else "+";
    assert r == sign + PadStart(Decimal(h), 2, '0') + PadStart(Decimal(mm), 2, '0');
    if h < 100 {
      OffsetDigits(m, h, mm);
      OffsetLayout(sign, h, mm);
      FieldsValue(sign, h, mm);
      OffsetCombine(OffsetValue(r), m, h, mm);
    }
  }

  /** Two fields below 100, padded, are four digits after the sign. */
  lemma OffsetLayout(sign: string, h: nat, mm: nat)
    requires h < 100 && mm < 100
    ensures sign + PadStart(Decimal(h), 2, '0') + PadStart(Decimal(mm), 2, '0')
      == sign + [DigitChar(h / 10), DigitChar(h % 10), DigitChar(mm / 10), DigitChar(mm % 10)]
  {
    TwoDigits(h);
    TwoDigits(mm);
    Pairs(DigitChar(h / 10), DigitChar(h % 10), DigitChar(mm / 10), DigitChar(mm % 10));
    AppendAssoc(sign, PadStart(Decimal(h), 2, '0'), PadStart(Decimal(mm), 2, '0'));
  }

  lemma Pairs<T>(a: T, b: T, c: T, d: T)
    ensures [a, b] + [c, d] == [a, b, c, d]
  {
  }

  /** A sign and four digits read back as the signed sum of the fields. */
  lemma FieldsValue(sign: string, h: nat, mm: nat)
    requires (sign == "-" || sign == "+") && h < 100 && mm < 100
    ensures var r := sign + [DigitChar(h / 10), DigitChar(h % 10), DigitChar(mm / 10), DigitChar(mm % 10)];
      && |r| == 5 && IsDigits(r[1..])
      && (r[3] as int - '0' as int) * 10 + (r[4] as int - '0' as int) == mm
      && OffsetValue(r) == if sign == "-" then -(h * 60 + mm) else h * 60 + mm
  {
    var h1, h0, m1, m0 := h / 10, h % 10, mm / 10, mm % 10;
    var digits := [DigitChar(h1), DigitChar(h0), DigitChar(m1), DigitChar(m0)];
    var r := sign + digits;
    assert r[1..] == digits;
    assert IsDigits(digits) by {
      forall k | 0 <= k < 4
        ensures '0' <= digits[k] <= '9'
      {
        assert k == 0 || k == 1 || k == 2 || k == 3;
      }
    }
    DigitValue(r[1], h1);
    DigitValue(r[2], h0);
    DigitValue(r[3], m1);
    DigitValue(r[4], m0);
    OffsetFields(r, sign == "-", h, mm);
  }

  /** `OffsetValue` from the sign and the two fields. */
  lemma OffsetFields(r: string, neg: bool, hours: nat, minutes: nat)
    requires |r| == 5 && IsDigits(r[1..]) && r[0] == (if neg then '-' else '+')
    requires (r[1] as int - '0' as int) * 10 + (r[2] as int - '0' as int) == hours
    requires (r[3] as int - '0' as int) * 10 + (r[4] as int - '0' as int) == minutes
    ensures OffsetValue(r) == if neg then -(hours * 60 + minutes) else hours * 60 + minutes
  {
  }

  /** The two cases of `OffsetDigits`, for the value read back. */
  lemma OffsetCombine(v: int, m: int, h: nat, mm: nat)
    requires v == if m < 0 then -(h * 60 + mm) else h * 60 + mm
    requires m >= 0 ==> h * 60 + mm == m
    requires m < 0 && m % 60 == 0 ==> -(h * 60 + mm) == m
    requires m < 0 && m % 60 != 0 ==> -(h * 60 + mm) == m - 60
    ensures m >= 0 || m % 60 == 0 ==> v == m
    ensures m < 0 && m % 60 != 0 ==> v == m - 60
  {
  }

  lemma DigitValue(c: char, d: nat)
    requires d < 10 && c == DigitChar(d)
    ensures c as int - '0' as int == d
  {
  }

  /** The arithmetic of `OffsetReadsBack`: the two fields give back the
      offset, or the offset less an hour. */
  lemma OffsetDigits(m: int, h: nat, mm: nat)
    requires h == Abs(m / 60) && mm == Abs(m) % 60 && h < 100
    ensures h / 10 * 10 + h % 10 == h && mm / 10 * 10 + mm % 10 == mm && mm < 60
    ensures m >= 0 ==> h * 60 + mm == m
    ensures m < 0 && m % 60 == 0 ==> -(h * 60 + mm) == m
    ensures m < 0 && m % 60 != 0 ==> -(h * 60 + mm) == m - 60
  {
    if m < 0 {
      var q := m / 60;
      assert -m == -q * 60 - m % 60;
      if m % 60 != 0 {
        assert (-m) / 60 == -q - 1 && (-m) % 60 == 60 - m % 60;
      } else {
        assert (-m) % 60 == 0;
      }
    }
  }

  /** The quirk at a concrete offset: -210 minutes (3 h 30 min west) is
      written as four and a half hours west. */
  lemma NewfoundlandOffset()
    ensures FormattedUtcOffset(-210) == "-0430"
  {
    assert Abs(-210 / 60) == 4 && Abs(-210) % 60 == 30;
    TwoDigits(4);
    TwoDigits(30);
  }

  // ---------------------------------------------------------------------------
  // commitObject

  const AUTHOR := "harshit <harshit_chaudhary@mail.com> "

  /** `if (commit_hash)`: given and not empty. */
  predicate HasParent(commitHash: Option<string>)
  {
    commitHash.Some? && commitHash.value != ""
  }

  /** The identity, time and offset shared by the author and committer lines. */
  function Signature(seconds: string, utcOffset: string): string
  {
    AUTHOR + seconds + " " + utcOffset
  }

  /** `"parent " + commit_hash + "\n"` when there is a parent, else nothing. */
  function ParentLine(commitHash: Option<string>): string
  {
    if HasParent(commitHash) then "parent " + commitHash.value + "\n" else ""
  }

  /** A line closed by a newline. */
  function Line(s: string): string
  {
    s + "\n"
  }

  /** The text of `contents`: the buffers `commitObject` concatenates, in
      order. */
  function CommitBody(treeHash: string, commitHash: Option<string>, message: string, seconds: string, utcOffset: string): string
  {
    var sig := Signature(seconds, utcOffset);
    Line("tree " + treeHash) + (ParentLine(commitHash) + (Line("author " + sig) + (Line("committer " + sig)
      + (Line("") + Line(message)))))
  }

  /** The fixed identity holds no newline. */
  lemma SignatureLine(seconds: string, utcOffset: string)
    requires '\n' !in seconds && '\n' !in utcOffset
    ensures '\n' !in Signature(seconds, utcOffset)
  {
    assert forall k :: 0 <= k < |AUTHOR| ==> AUTHOR[k] != '\n';
  }

  /** The parent line, as a list of lines. */
  function ParentLines(commitHash: Option<string>): seq<string>
  {
    if HasParent(commitHash) then ["parent " + commitHash.value] else []
  }

  /** Read line by line, a commit body is the tree line, the parent line
      exactly when a parent was given, the author and committer lines with
      the same signature, an empty line, then the lines of the message. */
  lemma CommitLines(treeHash: string, commitHash: Option<string>, message: string, seconds: string, utcOffset: string)
    requires '\n' !in treeHash && '\n' !in seconds && '\n' !in utcOffset
    requires commitHash.Some? ==> '\n' !in commitHash.value
    ensures var sig := Signature(seconds, utcOffset);
      Split(CommitBody(treeHash, commitHash, message, seconds, utcOffset), '\n')
      == ["tree " + treeHash] + (ParentLines(commitHash) + (["author " + sig] + (["committer " + sig]
         + ([""] + Split(Line(message), '\n')))))
  {
    var sig := Signature(seconds, utcOffset);
    SignatureLine(seconds, utcOffset);
    var signed := Line("author " + sig) + (Line("committer " + sig) + (Line("") + Line(message)));
    SignedLines(sig, message);
    ParentThen(commitHash, signed);
    KeywordsOneLine();
    LineFirst("tree " + treeHash, ParentLine(commitHash) + signed);
  }

  /** The keywords that open the tree and parent lines hold no newline. */
  lemma KeywordsOneLine()
    ensures '\n' !in "tree " && '\n' !in "parent "
  {
    assert forall k :: 0 <= k < 5 ==> "tree "[k] != '\n';
    assert forall k :: 0 <= k < 7 ==> "parent "[k] != '\n';
  }

  /** A line followed by more text splits into that line, then the rest. */
  lemma LineFirst(a: string, b: string)
    requires '\n' !in a
    ensures Split(Line(a) + b, '\n') == [a] + Split(b, '\n')
  {
    SplitFirst(a, '\n', b);
  }

  /** The parent line, when there is one, is the first line of what follows
      the tree line. */
  lemma ParentThen(commitHash: Option<string>, rest: string)
    requires commitHash.Some? ==> '\n' !in commitHash.value
    ensures Split(ParentLine(commitHash) + rest, '\n') == ParentLines(commitHash) + Split(rest, '\n')
  {
    if HasParent(commitHash) {
      KeywordsOneLine();
      LineFirst("parent " + commitHash.value, rest);
    } else {
      assert ParentLine(commitHash) + rest == rest;
    }
  }

  /** The author and committer lines, the empty line and the message. */
  lemma SignedLines(sig: string, message: string)
    requires '\n' !in sig
    ensures Split(Line("author " + sig) + (Line("committer " + sig) + (Line("") + Line(message))), '\n')
      == ["author " + sig] + (["committer " + sig] + ([""] + Split(Line(message), '\n')))
  {
    var blank := Line("") + Line(message);
    LineFirst("", Line(message));
    var committer := Line("committer " + sig) + blank;
    LineFirst("committer " + sig, blank);
    LineFirst("author " + sig, committer);
  }

  /** `finalContent`: the body framed as a commit. */
  function CommitObjectBytes(body: string): seq<byte>
  {
    Framed("commit", Bytes(body))
  }

  /** What `commitObject` leaves in the tree: the shard directory made
      recursively, then the object written, with no check for an existing
      object. */
  function StoreCommit(nodes: Tree, hash: string, content: seq<byte>): Run
  {
    var made := MkdirAll(nodes, ObjectFolder([], hash));
    if made.err.Some? then made else WriteFile(made.nodes, ObjectPath([], hash), content)
  }

  lemma AppendSix<T>(t: seq<T>, p: seq<T>, a: seq<T>, c: seq<T>, n: seq<T>, m: seq<T>)
    ensures t + (p + (a + (c + (n + m)))) == t + p + a + c + n + m
  {
  }

  /** The buffers `commitObject` concatenates are the bytes of its body. */
  lemma BodyBytes(treeHash: string, commitHash: Option<string>, message: string, seconds: string, utcOffset: string)
    ensures var sig := Signature(seconds, utcOffset);
      Bytes(CommitBody(treeHash, commitHash, message, seconds, utcOffset))
      == Bytes(Line("tree " + treeHash)) + Bytes(ParentLine(commitHash)) + Bytes(Line("author " + sig))
         + Bytes(Line("committer " + sig)) + Bytes(Line("")) + Bytes(Line(message))
  {
    var sig := Signature(seconds, utcOffset);
    var t, p, a, c, n, m := Line("tree " + treeHash), ParentLine(commitHash), Line("author " + sig),
      Line("committer " + sig), Line(""), Line(message);
    BytesAppend(n, m);
    BytesAppend(c, n + m);
    BytesAppend(a, c + (n + m));
    BytesAppend(p, a + (c + (n + m)));
    BytesAppend(t, p + (a + (c + (n + m))));
    AppendSix(Bytes(t), Bytes(p), Bytes(a), Bytes(c), Bytes(n), Bytes(m));
  }

  /** The header `commitObject` writes is the header of a commit object. */
  lemma CommitHeader(n: nat)
    ensures Bytes("commit " + Decimal(n) + "\0") == Header("commit", n)
  {
    assert "commit " + Decimal(n) + "\0" == "commit" + " " + Decimal(n) + "\0";
  }

  /** The concatenations of `contents` in `commitObject`: they give the bytes
      of the body. */
  method CommitContents(treeHash: string, commitHash: Option<string>, message: string, seconds: string, utcOffset: string)
    returns (contents: seq<byte>)
    ensures contents == Bytes(CommitBody(treeHash, commitHash, message, seconds, utcOffset))
  {
    contents := Bytes(Line("tree " + treeHash));
    if HasParent(commitHash) {
      contents := contents + Bytes(Line("parent " + commitHash.value));
    }
    assert contents == Bytes(Line("tree " + treeHash)) + Bytes(ParentLine(commitHash));
    var sig := Signature(seconds, utcOffset);
    contents := contents + Bytes(Line("author " + sig)) + Bytes(Line("committer " + sig))
      + Bytes(Line("")) + Bytes(Line(message));
    BodyBytes(treeHash, commitHash, message, seconds, utcOffset);
  }

  /** `commitObject(tree_hash, commit_hash, message)` with the clock given;
      it returns the new object's hash (which the program prints). */
  method CommitObject(fs: FileSystem, treeHash: string, commitHash: Option<string>, message: string,
                      seconds: string, offsetMinutes: int, sha1: Sha1)
    returns (hash: string, err: Option<string>)
    modifies fs
    ensures var body := CommitBody(treeHash, commitHash, message, seconds, FormattedUtcOffset(offsetMinutes));
      && hash == sha1(CommitObjectBytes(body))
      && Run(fs.nodes, err) == StoreCommit(old(fs.nodes), hash, CommitObjectBytes(body))
  {
    var utcOffset := FormattedUtcOffset(offsetMinutes);
    var contents := CommitContents(treeHash, commitHash, message, seconds, utcOffset);
    CommitHeader(|contents|);
    var finalContent := Bytes("commit " + Decimal(|contents|) + "\0") + contents;
    hash := sha1(finalContent);
    err := fs.MkdirSync(PathJoin([], [".git", "objects", Slice(hash, 0, 2)]), true);
    if err.None? {
      err := fs.WriteFileSync(PathJoin([], [".git", "objects", Slice(hash, 0, 2), Slice(hash, 2, |hash|)]), finalContent);
    }
  }

  /** A commit that was stored reads back as a commit of the body's length
      holding the body; no entry other than the object file changes, and
      the only new entries besides it are directories above it. */
  lemma StoredCommitReadsBack(nodes: Tree, hash: string, body: string)
    requires IsHash(hash)
    ensures var r := StoreCommit(nodes, hash, CommitObjectBytes(body));
      var p := ObjectPath([], hash);
      && (r.err.None? ==> ReadGitObject(r.nodes, hash, []) == Ok(GitObject("commit", Some(Decimal(|body|)), Bytes(body))))
      && (forall q :: q in nodes && q != p ==> q in r.nodes && r.nodes[q] == nodes[q])
      && (forall q :: q in r.nodes && q !in nodes && q != p ==> q < p && r.nodes[q] == Dir)
  {
    var folder := ObjectFolder([], hash);
    var p := ObjectPath([], hash);
    FolderOfPath([], hash);
    MkdirAllEffect(nodes, folder);
    var made := MkdirAll(nodes, folder);
    WriteFileEffect(made.nodes, p, CommitObjectBytes(body));
    KnownKinds();
    SplitFramed("commit", |Bytes(body)|, Bytes(body));
  }
}
