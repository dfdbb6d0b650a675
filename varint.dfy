/**
 * The base-128 variable-length integers of the pack format: a run of bytes
 * whose top bit says "another byte follows", each contributing its low seven
 * bits at a shift seven larger than the previous one. The program reads two
 * flavours (app/modules/clone.js): the pack object header, whose continuation
 * bytes start at shift 4, and the delta size header, which starts at shift 0.
 * Both use JavaScript's 32-bit `<<`, modelled exactly by `Js.Shl`.
 */
module Varint {
  import opened Js

  /** The number of bytes from `from` up to and including the first byte below
      128. A byte read past the end counts as 0, so the run always ends. */
  function VarintLen(buf: seq<byte>, from: nat): (n: nat)
    ensures n >= 1
    decreases |buf| - from
  {
    if At(buf, from) >= 128 then 1 + VarintLen(buf, from + 1) else 1
  }

  /** A byte with the top bit set continues the run. */
  lemma VarintLenStep(buf: seq<byte>, from: nat)
    requires At(buf, from) >= 128
    ensures VarintLen(buf, from) == 1 + VarintLen(buf, from + 1)
  {
  }

  /** The run ends at the first byte below 128 and every byte before it has
      the top bit set; it stays within the buffer unless it is the single
      byte read past its end. */
  lemma {:induction false} VarintLenRun(buf: seq<byte>, from: nat)
    ensures var n := VarintLen(buf, from);
      && At(buf, from + n - 1) < 128
      && (forall k :: from <= k < from + n - 1 ==> At(buf, k) >= 128)
      && (from + n <= |buf| + 1 || n == 1)
    decreases |buf| - from
  {
    if At(buf, from) >= 128 {
      VarintLenRun(buf, from + 1);
    }
  }

  /** What the decoding loops accumulate: over the `n` bytes at `from`,
      the sum of `(byte & 127) << (shift + 7k)`, with JavaScript's `<<`. */
  function GroupSum(buf: seq<byte>, from: nat, n: nat, shift: nat): int
    decreases n
  {
    if n == 0 then 0
    else GroupSum(buf, from, n - 1, shift) + Shl(At(buf, from + n - 1) % 128, shift + 7 * (n - 1))
  }

  /** One more group: the byte at `pos`, the `n`-th after `from`, at shift
      `sh`, seven bits per group above `shift`. */
  lemma GroupSumNext(buf: seq<byte>, from: nat, n: nat, shift: nat, pos: nat, sh: nat, m: nat)
    requires pos == from + n && sh == shift + 7 * n && m == n + 1
    ensures GroupSum(buf, from, m, shift) == GroupSum(buf, from, n, shift) + Shl(At(buf, pos) % 128, sh)
  {
  }

  /** The same groups read as an unbounded little-endian base-128 number. */
  function GroupValue(buf: seq<byte>, from: nat, n: nat): nat
    decreases n
  {
    if n == 0 then 0 else At(buf, from) % 128 + 128 * GroupValue(buf, from + 1, n - 1)
  }

  /** Peeling the first group off the sum. */
  lemma {:induction false} GroupSumFirst(buf: seq<byte>, from: nat, n: nat, shift: nat)
    requires n >= 1
    ensures GroupSum(buf, from, n, shift)
         == Shl(At(buf, from) % 128, shift) + GroupSum(buf, from + 1, n - 1, shift + 7)
    decreases n
  {
    if n > 1 {
      GroupSumFirst(buf, from, n - 1, shift);
      var k, s := from + n - 1, shift + 7 * (n - 1);
      assert k == (from + 1) + (n - 1) - 1 && s == (shift + 7) + 7 * (n - 2);
    }
  }

  /** While every shift stays below bit 31 nothing wraps: the 32-bit sum is
      the mathematical value of the groups, scaled by the starting shift. */
  lemma {:induction false} GroupSumExact(buf: seq<byte>, from: nat, n: nat, shift: nat)
    requires shift + 7 * n <= 31
    ensures GroupSum(buf, from, n, shift) == GroupValue(buf, from, n) * Pow2(shift)
    decreases n
  {
    if n > 0 {
      var b: nat := At(buf, from) % 128;
      var rest := GroupValue(buf, from + 1, n - 1);
      var p := Pow2(shift);
      Pow2Step7(shift);
      GroupExact(b, shift);
      GroupSumFirst(buf, from, n, shift);
      GroupSumExact(buf, from + 1, n - 1, shift + 7);
      Regroup(Shl(b, shift), GroupSum(buf, from + 1, n - 1, shift + 7), b, rest, p, Pow2(shift + 7));
    }
  }

  /** The sum is exact whenever the value of the groups, scaled by the
      starting shift, stays below 2^31: then every group does, and a group
      shifted to bit 32 or beyond can only be 0. */
  lemma {:induction false} GroupSumBelow(buf: seq<byte>, from: nat, n: nat, shift: nat)
    requires GroupValue(buf, from, n) * Pow2(shift) < TWO_31
    ensures GroupSum(buf, from, n, shift) == GroupValue(buf, from, n) * Pow2(shift)
    decreases n
  {
    if n > 0 {
      var b: nat := At(buf, from) % 128;
      var rest := GroupValue(buf, from + 1, n - 1);
      var p := Pow2(shift);
      Pow2Step7(shift);
      Split2(b, rest, p, Pow2(shift + 7));
      ShlBelow(b, shift);
      GroupSumFirst(buf, from, n, shift);
      GroupSumBelow(buf, from + 1, n - 1, shift + 7);
      Regroup(Shl(b, shift), GroupSum(buf, from + 1, n - 1, shift + 7), b, rest, p, Pow2(shift + 7));
    }
  }

  /** Both parts of a sum of non-negative terms below 2^31 are below it. */
  lemma Split2(b: nat, rest: nat, p: nat, q: nat)
    requires (b + 128 * rest) * p < TWO_31 && q == 128 * p
    ensures b * p < TWO_31 && rest * q < TWO_31
  {
    assert (b + 128 * rest) * p == b * p + rest * q;
  }

  /** A shift whose exact product stays below 2^31 does not wrap, whatever
      the shift count. */
  lemma ShlBelow(x: nat, n: nat)
    requires x * Pow2(n) < TWO_31
    ensures Shl(x, n) == x * Pow2(n)
  {
    if n < 32 {
      ShlExact(x, n);
    } else {
      ShlHigh(x, n);
      assert x * Pow2(n) == 0;
    }
  }

  /** At a shift of 32 or more only 0 keeps the product below 2^31. */
  lemma ShlHigh(x: nat, n: nat)
    requires n >= 32 && x * Pow2(n) < TWO_31
    ensures x == 0 && Shl(x, n) == 0 && x * Pow2(n) == 0
  {
    Pow2Monotone(31, n);
    Pow2Value31();
    ZeroFactor(x, Pow2(n));
    ShlZero(n);
    MulZero(Pow2(n));
  }

  lemma MulZero(p: int)
    ensures 0 * p == 0
  {
  }

  lemma ZeroFactor(x: nat, p: nat)
    requires p >= TWO_31 && x * p < TWO_31
    ensures x == 0
  {
    AtLeastFactor(x, p);
  }

  /** A non-zero natural factor does not make a product smaller. */
  lemma AtLeastFactor(x: nat, p: nat)
    ensures x == 0 || x * p >= p
  {
    if x > 0 {
      MulBelow(1, x + 1, p);
    }
  }

  lemma ShlZero(n: nat)
    ensures Shl(0, n) == 0
  {
    assert 0 * Pow2(n % 32) == 0;
  }

  /** One group below bit 31 shifts without wrapping. */
  lemma GroupExact(b: nat, shift: nat)
    requires b < 128 && shift + 7 <= 31
    ensures Shl(b, shift) == b * Pow2(shift)
  {
    GroupBound(b, shift);
    ShlExact(b, shift);
  }

  lemma GroupBound(b: nat, shift: nat)
    requires b < 128 && shift + 7 <= 31
    ensures b * Pow2(shift) < TWO_31
  {
    Pow2Step7(shift);
    Pow2Monotone(shift + 7, 31);
    Pow2Value31();
    MulBelow(b, 128, Pow2(shift));
  }

  lemma Pow2Step7(shift: nat)
    ensures Pow2(shift + 7) == 128 * Pow2(shift)
  {
    Pow2Add(shift, 7);
    assert Pow2(7) == 128;
  }

  lemma MulBelow(b: nat, c: nat, p: nat)
    requires b < c
    ensures b * p <= c * p
    ensures p >= 1 ==> b * p < c * p
  {
  }

  /** The first group at weight p plus the rest at weight 128p. */
  lemma Regroup(first: int, others: int, b: int, rest: int, p: int, q: int)
    requires first == b * p && others == rest * q && q == 128 * p
    ensures first + others == (b + 128 * rest) * p
  {
    calc {
      first + others;
      b * p + rest * (128 * p);
      b * p + (128 * rest) * p;
      (b + 128 * rest) * p;
    }
  }

  lemma Pow2Value31()
    ensures Pow2(31) == TWO_31
  {
    assert Pow2(8) == 256;
    Pow2Add(8, 8);
    Pow2Add(16, 8);
    Pow2Add(24, 7);
    assert Pow2(7) == 128;
  }

  /** The reference encoder: the low seven bits first, the top bit marking
      that more bytes follow. */
  function Leb128(m: nat): (r: seq<byte>)
    ensures |r| >= 1
    decreases m
  {
    if m < 128 then [m] else [128 + m % 128] + Leb128(m / 128)
  }

  /** An encoded number is read back with exactly its own length: every byte
      but its last has the top bit set. */
  lemma {:induction false} Leb128Len(buf: seq<byte>, from: nat, m: nat)
    requires from + |Leb128(m)| <= |buf| && buf[from..from + |Leb128(m)|] == Leb128(m)
    ensures VarintLen(buf, from) == |Leb128(m)|
    decreases m
  {
    var e := Leb128(m);
    assert buf[from] == e[0];
    if m >= 128 {
      assert buf[from + 1..from + 1 + |Leb128(m / 128)|] == e[1..];
      Leb128Len(buf, from + 1, m / 128);
    }
  }

  /** The groups of an encoded number are that number, base 128. */
  lemma {:induction false} Leb128Value(buf: seq<byte>, from: nat, m: nat)
    requires from + |Leb128(m)| <= |buf| && buf[from..from + |Leb128(m)|] == Leb128(m)
    ensures GroupValue(buf, from, |Leb128(m)|) == m
    decreases m
  {
    var e := Leb128(m);
    assert buf[from] == e[0];
    if m >= 128 {
      assert buf[from + 1..from + 1 + |Leb128(m / 128)|] == e[1..];
      Leb128Value(buf, from + 1, m / 128);
    }
  }

  /** A number below 2^(7k) takes at most k bytes. */
  lemma {:induction false} Leb128Short(m: nat, k: nat)
    requires k >= 1 && m < Pow2(7 * k)
    ensures |Leb128(m)| <= k
    decreases m
  {
    assert Pow2(7) == 128;
    if m >= 128 {
      assert k >= 2;
      Pow2Step7(7 * (k - 1));
      assert m / 128 < Pow2(7 * (k - 1));
      Leb128Short(m / 128, k - 1);
    }
  }

  /** An encoded number decodes to itself times 2^shift as long as that
      product stays below 2^31. */
  lemma Leb128Sum(buf: seq<byte>, from: nat, m: nat, shift: nat)
    requires from + |Leb128(m)| <= |buf| && buf[from..from + |Leb128(m)|] == Leb128(m)
    requires m * Pow2(shift) < TWO_31
    ensures GroupSum(buf, from, |Leb128(m)|, shift) == m * Pow2(shift)
  {
    Leb128Value(buf, from, m);
    GroupSumBelow(buf, from, |Leb128(m)|, shift);
  }
}
