/** Option and Result, for the program's `undefined` values and thrown errors. */
module Results {
  datatype Option<T> = None | Some(value: T)

  /** `Err` carries the message of the error the program throws. */
  datatype Result<T> = Ok(value: T) | Err(error: string)
}

/**
 * The JavaScript string, Buffer and number primitives the program relies on,
 * with the edge cases it runs into: reading past the end of a Buffer,
 * negative `slice` indices, `indexOf` returning -1, `split`/`join`, hex and
 * decimal conversions and the 32-bit `<<` operator.
 */
module Js {
  type byte = b: int | 0 <= b < 256

  /** `buf[k]`. Past either end this is `undefined`, which every use in the
      program (`& m`, `>= 128`, `> 127`, `<< n`) treats exactly like 0. */
  function At(buf: seq<byte>, k: int): byte
  {
    if 0 <= k < |buf| then buf[k] else 0
  }

  /** How `slice` turns an argument into an index: negative counts from the end. */
  function RelIndex(len: nat, x: int): (r: nat)
    ensures r <= len
    ensures 0 <= x <= len ==> r == x
  {
    if x < 0 then (if len + x < 0 then 0 else len + x)
    else if x > len then len
    else x
  }

  /** `s.slice(start, end)` on a Buffer or a string. */
  function Slice<T>(s: seq<T>, start: int, end: int): (r: seq<T>)
    ensures |r| <= |s|
    ensures 0 <= start <= end <= |s| ==> r == s[start..end]
    ensures 0 <= start <= |s| <= end ==> r == s[start..]
  {
    var a := RelIndex(|s|, start);
    var b := RelIndex(|s|, end);
    if a < b then s[a..b] else []
  }

  /** `s.slice(a, b)` for indices inside `s`. */
  function Sub<T>(s: seq<T>, a: nat, b: nat): seq<T>
    requires a <= b <= |s|
  {
    s[a..b]
  }

  lemma SubSlice<T>(s: seq<T>, a: nat, b: nat)
    requires a <= b <= |s|
    ensures Sub(s, a, b) == s[a..b]
  {
  }

  /** `s.slice(0, n)` for n >= 0. */
  function Take<T>(s: seq<T>, n: nat): (r: seq<T>)
    ensures |r| == if n <= |s| then n else |s|
    ensures r <= s
  {
    if n <= |s| then s[..n] else s
  }

  /** `s.slice(n)` for n >= 0. */
  function Drop<T>(s: seq<T>, n: nat): (r: seq<T>)
    ensures n <= |s| ==> r == s[n..]
    ensures n > |s| ==> r == []
  {
    if n <= |s| then s[n..] else []
  }

  /** `s.indexOf(x, from)`: the first position at or after `from` holding `x`, or -1. */
  function IndexOf<T(==)>(s: seq<T>, x: T, from: nat): (r: int)
    ensures r == -1 || (from <= r < |s| && s[r] == x)
    decreases |s| - from
  {
    if from >= |s| then -1
    else if s[from] == x then from
    else IndexOf(s, x, from + 1)
  }

  /** `indexOf` gives the first occurrence, and -1 only when there is none. */
  lemma {:induction false} IndexOfFirst<T>(s: seq<T>, x: T, from: nat)
    ensures IndexOf(s, x, from) == -1 ==> forall k :: from <= k < |s| ==> s[k] != x
    ensures IndexOf(s, x, from) >= 0 ==> forall k :: from <= k < IndexOf(s, x, from) ==> s[k] != x
    decreases |s| - from
  {
    if from < |s| && s[from] != x {
      IndexOfFirst(s, x, from + 1);
    }
  }

  /** `indexOf` finds the first occurrence: a position holding `x` with no
      `x` between `from` and it. */
  lemma {:induction false} IndexOfAt<T>(s: seq<T>, x: T, from: nat, j: nat)
    requires from <= j < |s| && s[j] == x
    requires forall k :: from <= k < j ==> s[k] != x
    ensures IndexOf(s, x, from) == j
    decreases j - from
  {
    if from < j {
      IndexOfAt(s, x, from + 1, j);
    }
  }

  /** A suffix that is a concatenation splits where its first part ends. */
  lemma SplitSuffix<T>(data: seq<T>, i: nat, a: seq<T>, b: seq<T>)
    requires i <= |data| && data[i..] == a + b
    ensures i + |a| <= |data| && data[i..i + |a|] == a && data[i + |a|..] == b
  {
    assert data[i..i + |a|] == data[i..][..|a|];
    assert data[i + |a|..] == data[i..][|a|..];
  }

  lemma AppendAssoc<T>(a: seq<T>, b: seq<T>, c: seq<T>)
    ensures a + b + c == a + (b + c)
  {
  }

  /** `s.split(sep)`: always at least one piece; empty pieces are kept. */
  function Split<T(==)>(s: seq<T>, sep: T): (r: seq<seq<T>>)
    ensures |r| >= 1
    ensures forall k :: 0 <= k < |r| ==> sep !in r[k]
    decreases |s|
  {
    var k := IndexOf(s, sep, 0);
    IndexOfFirst(s, sep, 0);
    if k < 0 then [s] else [s[..k]] + Split(s[k + 1..], sep)
  }

  /** `parts.join(sep)`. */
  function Join<T>(parts: seq<seq<T>>, sep: T): seq<T>
  {
    if |parts| == 0 then []
    else if |parts| == 1 then parts[0]
    else parts[0] + [sep] + Join(parts[1..], sep)
  }

  /** Joining the pieces of a split gives back the string. */
  lemma {:induction false} JoinSplit<T>(s: seq<T>, sep: T)
    ensures Join(Split(s, sep), sep) == s
    decreases |s|
  {
    var k := IndexOf(s, sep, 0);
    if k >= 0 {
      JoinSplit(s[k + 1..], sep);
      assert s == s[..k] + [sep] + s[k + 1..];
    }
  }

  /** The first `x` after a prefix without one is the one right after it. */
  lemma IndexOfAfter<T>(a: seq<T>, x: T, b: seq<T>)
    requires x !in a
    ensures IndexOf(a + [x] + b, x, 0) == |a|
  {
    var s := a + [x] + b;
    assert s[|a|] == x;
    assert forall j :: 0 <= j < |a| ==> s[j] != x;
    IndexOfAt(s, x, 0, |a|);
  }

  /** Splitting at the first separator: what precedes it is the first piece. */
  lemma SplitFirst<T>(a: seq<T>, sep: T, b: seq<T>)
    requires sep !in a
    ensures Split(a + [sep] + b, sep) == [a] + Split(b, sep)
  {
    var s := a + [sep] + b;
    assert s[|a|] == sep;
    assert forall j :: 0 <= j < |a| ==> s[j] != sep;
    IndexOfAt(s, sep, 0, |a|);
    var k := IndexOf(s, sep, 0);
    assert s[..k] == a && s[k + 1..] == b;
  }

  /** A string without the separator is its own single piece. */
  lemma SplitNone<T>(a: seq<T>, sep: T)
    requires sep !in a
    ensures Split(a, sep) == [a]
  {
    assert forall j :: 0 <= j < |a| ==> a[j] != sep;
  }

  /** Splitting pieces joined with a separator none of them holds gives the
      pieces back. */
  lemma {:induction false} SplitJoin<T>(parts: seq<seq<T>>, sep: T)
    requires |parts| >= 1 && forall k :: 0 <= k < |parts| ==> sep !in parts[k]
    ensures Split(Join(parts, sep), sep) == parts
    decreases |parts|
  {
    if |parts| == 1 {
      SplitNone(parts[0], sep);
    } else {
      SplitJoin(parts[1..], sep);
      SplitFirst(parts[0], sep, Join(parts[1..], sep));
    }
  }

  /** Joining with an empty last piece ends the text with the separator. */
  lemma {:induction false} JoinTrailing<T>(parts: seq<seq<T>>, sep: T)
    requires |parts| >= 1
    ensures Join(parts + [[]], sep) == Join(parts, sep) + [sep]
    decreases |parts|
  {
    var all := parts + [[]];
    assert all[1..] == parts[1..] + [[]];
    if |parts| > 1 {
      JoinTrailing(parts[1..], sep);
    }
  }

  /** `buffer.toString()` (and `toString("binary")`): one character per byte. */
  function Text(b: seq<byte>): (s: string)
    ensures |s| == |b|
    ensures forall k :: 0 <= k < |b| ==> s[k] as int == b[k]
  {
    seq(|b|, k requires 0 <= k < |b| => b[k] as char)
  }

  /** `Buffer.from(s)`: one byte per character. */
  function Bytes(s: string): (b: seq<byte>)
    ensures |b| == |s|
    ensures forall k :: 0 <= k < |s| ==> b[k] == s[k] as int % 256
  {
    seq(|s|, k requires 0 <= k < |s| => s[k] as int % 256)
  }

  /** Every character fits in one byte. */
  predicate IsLatin1(s: string)
  {
    forall k :: 0 <= k < |s| ==> s[k] as int < 256
  }

  lemma BytesOfText(b: seq<byte>)
    ensures Bytes(Text(b)) == b
  {
  }

  lemma TextOfBytes(s: string)
    requires IsLatin1(s)
    ensures Text(Bytes(s)) == s
  {
  }

  lemma BytesAppend(s: string, t: string)
    ensures Bytes(s + t) == Bytes(s) + Bytes(t)
  {
  }

  lemma TextAppend(a: seq<byte>, b: seq<byte>)
    ensures Text(a + b) == Text(a) + Text(b)
  {
  }

  /** A Latin-1 string without character `c` gives bytes without byte `c`. */
  lemma BytesAvoid(s: string, c: char)
    requires IsLatin1(s) && c as int < 256 && c !in s
    ensures c as int !in Bytes(s)
  {
    assert forall k :: 0 <= k < |s| ==> s[k] != c;
    assert forall k :: 0 <= k < |s| ==> Bytes(s)[k] != c as int;
  }

  // ---------------------------------------------------------------------------
  // Decimal and hexadecimal text

  function DigitChar(d: nat): (c: char)
    requires d < 10
    ensures '0' <= c <= '9'
  {
    ('0' as int + d) as char
  }

  predicate IsDigits(s: string)
  {
    forall k :: 0 <= k < |s| ==> '0' <= s[k] <= '9'
  }

  /** `n.toString()` for a non-negative integer. */
  function Decimal(n: nat): (s: string)
    ensures |s| >= 1 && IsDigits(s)
    decreases n
  {
    if n < 10 then [DigitChar(n)] else Decimal(n / 10) + [DigitChar(n % 10)]
  }

  /** Reads a run of decimal digits back as a number. */
  function ParseDecimal(s: string): nat
    requires IsDigits(s)
    decreases |s|
  {
    if s == [] then 0
    else ParseDecimal(s[..|s| - 1]) * 10 + (s[|s| - 1] as int - '0' as int)
  }

  /** The decimal text of a number reads back as that number. */
  lemma {:induction false} DecimalRoundTrip(n: nat)
    ensures ParseDecimal(Decimal(n)) == n
    decreases n
  {
    if n >= 10 {
      DecimalRoundTrip(n / 10);
      var s := Decimal(n);
      assert s[..|s| - 1] == Decimal(n / 10);
    }
  }

  function HexDigit(d: nat): (c: char)
    requires d < 16
  {
    if d < 10 then ('0' as int + d) as char else ('a' as int + d - 10) as char
  }

  /** The value of a hexadecimal digit of either case, or -1. */
  function HexValue(c: char): (v: int)
    ensures -1 <= v < 16
  {
    if '0' <= c <= '9' then c as int - '0' as int
    else if 'a' <= c <= 'f' then c as int - 'a' as int + 10
    else if 'A' <= c <= 'F' then c as int - 'A' as int + 10
    else -1
  }

  predicate IsLowerHex(s: string)
  {
    forall k :: 0 <= k < |s| ==> '0' <= s[k] <= '9' || 'a' <= s[k] <= 'f'
  }

  /** `buf.toString("hex")`: two lower-case digits per byte. */
  function Hex(b: seq<byte>): (s: string)
    ensures |s| == 2 * |b|
    ensures IsLowerHex(s)
  {
    if b == [] then [] else [HexDigit(b[0] / 16), HexDigit(b[0] % 16)] + Hex(b[1..])
  }

  /** `Buffer.from(s, "hex")`: decodes digit pairs up to the first pair that is
      not hexadecimal; an odd last digit is dropped. */
  function FromHex(s: string): (b: seq<byte>)
    ensures |b| <= |s| / 2
  {
    if |s| < 2 || HexValue(s[0]) < 0 || HexValue(s[1]) < 0 then []
    else [HexValue(s[0]) * 16 + HexValue(s[1])] + FromHex(s[2..])
  }

  /** Decoding the hex text of bytes gives the bytes back. */
  lemma {:induction false} FromHexOfHex(b: seq<byte>)
    ensures FromHex(Hex(b)) == b
  {
    if b != [] {
      var s := Hex(b);
      HexDigitValue(b[0] / 16);
      HexDigitValue(b[0] % 16);
      assert s[2..] == Hex(b[1..]);
      FromHexOfHex(b[1..]);
      assert FromHex(s) == [b[0]] + FromHex(s[2..]);
      assert b == [b[0]] + b[1..];
    }
  }

  lemma HexDigitValue(d: nat)
    requires d < 16
    ensures HexValue(HexDigit(d)) == d
  {
  }

  /** Encoding the bytes of even-length lower-case hex text gives the text back. */
  lemma {:induction false} HexOfFromHex(s: string)
    requires |s| % 2 == 0 && IsLowerHex(s)
    ensures Hex(FromHex(s)) == s
  {
    if |s| >= 2 {
      HexFirstPair(s);
      LowerHexTail(s);
      HexOfFromHex(s[2..]);
      PairTail(s);
    }
  }

  /** The first pair of lower-case digits is decoded and written back as
      itself, ahead of the rest. */
  lemma HexFirstPair(s: string)
    requires |s| >= 2 && IsLowerHex(s)
    ensures Hex(FromHex(s)) == [s[0], s[1]] + Hex(FromHex(s[2..]))
  {
    FromHexCons(s);
    PairBack(s, FromHex(s[2..]));
  }

  /** A byte read from two lower-case digits is written back as them. */
  lemma PairBack(s: string, rest: seq<byte>)
    requires |s| >= 2 && IsLowerHex(s)
    ensures 0 <= HexValue(s[0]) * 16 + HexValue(s[1]) < 256
    ensures Hex([HexValue(s[0]) * 16 + HexValue(s[1])] + rest) == [s[0], s[1]] + Hex(rest)
  {
    HexPair(s[0], s[1]);
    HexCons(HexValue(s[0]) * 16 + HexValue(s[1]), rest);
  }

  /** A leading pair of lower-case digits decodes to one byte. */
  lemma FromHexCons(s: string)
    requires |s| >= 2 && IsLowerHex(s)
    ensures FromHex(s) == [HexValue(s[0]) * 16 + HexValue(s[1])] + FromHex(s[2..])
  {
  }

  lemma PairTail<T>(s: seq<T>)
    requires |s| >= 2
    ensures [s[0], s[1]] + s[2..] == s
  {
  }

  /** Even-length lower-case hex text decodes to half as many bytes. */
  lemma FromHexLength(s: string)
    requires |s| % 2 == 0 && IsLowerHex(s)
    ensures |FromHex(s)| == |s| / 2
  {
    HexOfFromHex(s);
  }

  lemma LowerHexTail(s: string)
    requires |s| >= 2 && IsLowerHex(s)
    ensures IsLowerHex(s[2..])
  {
    forall k | 0 <= k < |s[2..]|
      ensures '0' <= s[2..][k] <= '9' || 'a' <= s[2..][k] <= 'f'
    {
      assert s[2..][k] == s[k + 2];
    }
  }

  lemma HexCons(v: byte, rest: seq<byte>)
    ensures Hex([v] + rest) == [HexDigit(v / 16), HexDigit(v % 16)] + Hex(rest)
  {
    assert ([v] + rest)[1..] == rest;
  }

  /** A pair of lower-case digits read as a byte is written back as itself. */
  lemma HexPair(c0: char, c1: char)
    requires '0' <= c0 <= '9' || 'a' <= c0 <= 'f'
    requires '0' <= c1 <= '9' || 'a' <= c1 <= 'f'
    ensures var v := HexValue(c0) * 16 + HexValue(c1);
      0 <= v < 256 && HexDigit(v / 16) == c0 && HexDigit(v % 16) == c1
  {
    var v := HexValue(c0) * 16 + HexValue(c1);
    assert v / 16 == HexValue(c0) && v % 16 == HexValue(c1);
  }

  // ---------------------------------------------------------------------------
  // 32-bit integer operators

  const TWO_31: int := 0x8000_0000
  const TWO_32: int := 0x1_0000_0000

  function Pow2(n: nat): (r: nat)
    ensures r >= 1
  {
    if n == 0 then 1 else 2 * Pow2(n - 1)
  }

  lemma Pow2Add(a: nat, b: nat)
    ensures Pow2(a + b) == Pow2(a) * Pow2(b)
    decreases a
  {
    if a > 0 {
      Pow2Add(a - 1, b);
    }
  }

  lemma Pow2Monotone(a: nat, b: nat)
    requires a <= b
    ensures Pow2(a) <= Pow2(b)
    decreases b
  {
    if a < b {
      Pow2Monotone(a, b - 1);
    }
  }

  /** ECMAScript ToInt32: wrap to a signed 32-bit value. */
  function ToInt32(v: int): (r: int)
    ensures -TWO_31 <= r < TWO_31
    ensures (v - r) % TWO_32 == 0
    ensures 0 <= v < TWO_31 ==> r == v
  {
    var m := v % TWO_32;
    if m >= TWO_31 then m - TWO_32 else m
  }

  /** An unsigned 32-bit value read as a signed one (two's complement). */
  function Signed32(u: nat): (r: int)
    requires u < TWO_32
    ensures -TWO_31 <= r < TWO_31
    ensures r < 0 <==> u >= TWO_31
  {
    if u < TWO_31 then u else u - TWO_32
  }

  /** On 32-bit unsigned values, the int32 wrap is the signed reading. */
  lemma ToInt32Signed(u: nat)
    requires u < TWO_32
    ensures ToInt32(u) == Signed32(u)
  {
    assert u % TWO_32 == u;
  }

  /** `x << n`: the shift count is taken modulo 32 and the result wraps to int32. */
  function Shl(x: int, n: nat): int
  {
    ToInt32(x * Pow2(n % 32))
  }

  /** A shift that stays below 2^31 is an exact multiplication. */
  lemma ShlExact(x: nat, n: nat)
    requires n < 32 && x * Pow2(n) < TWO_31
    ensures Shl(x, n) == x * Pow2(n)
  {
    assert n % 32 == n;
    var v := x * Pow2(n);
    assert 0 <= v < TWO_31;
  }

  /** `buf.readUInt32BE(0)`. */
  function BigEndian32(b: seq<byte>): (r: nat)
    requires |b| == 4
    ensures r < TWO_32
  {
    b[0] as int * 0x100_0000 + b[1] as int * 0x1_0000 + b[2] as int * 0x100 + b[3] as int
  }
}
