module DeltaEncode {
  import opened Js
  import opened Results
  import opened Varint
  import opened Delta

  // ---------------------------------------------------------------------------
  // A reference encoder and the round trip

  /** A delta instruction: a literal of at most 127 bytes, or a copy of
      `size` base bytes starting at `offset`. */
  datatype DeltaOp = Ins(literal: seq<byte>) | Cp(offset: nat, size: nat)

  predicate ValidOp(op: DeltaOp, base: seq<byte>)
  {
    match op
    case Ins(literal) => |literal| <= 127
    case Cp(offset, size) => offset < TWO_31 && size < 0x100_0000 && offset + size <= |base|
  }

  /** Every instruction of the list is valid against `base`. */
  predicate AllValid(ops: seq<DeltaOp>, base: seq<byte>)
    decreases |ops|
  {
    ops == [] || (ValidOp(ops[0], base) && AllValid(ops[1..], base))
  }

  /** The bytes one instruction contributes to the target. */
  function OpOutput(op: DeltaOp, base: seq<byte>): seq<byte>
    requires ValidOp(op, base)
  {
    match op
    case Ins(literal) => literal
    case Cp(offset, size) => base[offset..offset + size]
  }

  /** The target a list of instructions describes. */
  function Apply(ops: seq<DeltaOp>, base: seq<byte>): seq<byte>
    requires AllValid(ops, base)
  {
    if ops == [] then [] else OpOutput(ops[0], base) + Apply(ops[1..], base)
  }

  /** Little-endian bytes of `v`, `n` of them. */
  function LittleEndian(v: nat, n: nat): (r: seq<byte>)
    ensures |r| == n
  {
    if n == 0 then [] else [v % 256] + LittleEndian(v / 256, n - 1)
  }

  /** The number the bytes spell, least significant first. */
  function LittleEndianValue(b: seq<byte>): nat
  {
    if b == [] then 0 else b[0] + 256 * LittleEndianValue(b[1..])
  }

  /** The seven operand bytes of a copy: four of offset, then three of size,
      least significant first. */
  function CopyBytes(offset: nat, size: nat): (b: seq<byte>)
    ensures |b| == 7
  {
    LittleEndian(offset, 4) + LittleEndian(size, 3)
  }

  /** The flag bits for the operand bytes from k on: bit j says that byte
      k + j is non-zero and is sent. */
  function MaskFrom(b: seq<byte>, k: nat): (m: nat)
    ensures k <= |b| ==> m < Pow2(|b| - k)
    decreases |b| - k
  {
    if k >= |b| then 0 else (if b[k] != 0 then 1 else 0) + 2 * MaskFrom(b, k + 1)
  }

  /** The operand bytes from k on that are sent: the non-zero ones. */
  function NonZero(b: seq<byte>, k: nat): seq<byte>
    decreases |b| - k
  {
    if k >= |b| then [] else (if b[k] != 0 then [b[k]] else []) + NonZero(b, k + 1)
  }

  /** A copy's opcode: bit 7 marks a copy, bits 0-6 the operand bytes sent. */
  function CopyOpcode(offset: nat, size: nat): (c: byte)
    ensures c > 127
  {
    assert Pow2(7) == 128;
    128 + MaskFrom(CopyBytes(offset, size), 0)
  }

  /** One instruction's bytes: a literal after its length, or a copy's opcode
      followed by only the non-zero operand bytes, as git writes it. */
  function EncodeOp(op: DeltaOp): (r: seq<byte>)
    requires op.Ins? ==> |op.literal| <= 127
    ensures |r| >= 1
  {
    match op
    case Ins(literal) => [|literal|] + literal
    case Cp(offset, size) => [CopyOpcode(offset, size)] + NonZero(CopyBytes(offset, size), 0)
  }

  function EncodeOps(ops: seq<DeltaOp>, base: seq<byte>): seq<byte>
    requires AllValid(ops, base)
  {
    if ops == [] then [] else EncodeOp(ops[0]) + EncodeOps(ops[1..], base)
  }

  /** The full delta: base size, target size, then the instructions. */
  function EncodeDelta(ops: seq<DeltaOp>, base: seq<byte>): seq<byte>
    requires AllValid(ops, base)
  {
    Leb128(|base|) + Leb128(|Apply(ops, base)|) + EncodeOps(ops, base)
  }

  /** Whether an operand byte is sent, as a bit. */
  function Sent(x: byte): nat
  {
    if x != 0 then 1 else 0
  }

  /** Halving a mask drops its lowest bit, which is the remainder. */
  lemma Halve(top: nat, b: seq<byte>, k: nat)
    requires k < |b|
    ensures (2 * top + MaskFrom(b, k)) / 2 == top + MaskFrom(b, k + 1)
    ensures (2 * top + MaskFrom(b, k)) % 2 == Sent(b[k])
  {
  }

  /** The opcode shifted right by k is bit 7 shifted along, over the mask of
      the operand bytes from k on. */
  lemma OpcodeShift(b: seq<byte>, c: nat)
    requires |b| == 7 && c == 128 + MaskFrom(b, 0)
    ensures c / 2 == 64 + MaskFrom(b, 1) && c / 4 == 32 + MaskFrom(b, 2)
    ensures c / 8 == 16 + MaskFrom(b, 3)
    ensures c / 16 == 8 + MaskFrom(b, 4) && c / 32 == 4 + MaskFrom(b, 5)
    ensures c / 64 == 2 + MaskFrom(b, 6)
  {
    Halve(64, b, 0);
    Halve(32, b, 1);
    Halve(16, b, 2);
    Quarter(c);
    assert c / 8 == 16 + MaskFrom(b, 3);
    ShiftOn(b, c / 8);
    Quarter(c / 8);
  }

  /** The same three steps further up, from a mask shifted by three. */
  lemma ShiftOn(b: seq<byte>, d: nat)
    requires |b| == 7 && d == 16 + MaskFrom(b, 3)
    ensures d / 2 == 8 + MaskFrom(b, 4) && d / 4 == 4 + MaskFrom(b, 5) && d / 8 == 2 + MaskFrom(b, 6)
  {
    Halve(8, b, 3);
    Halve(4, b, 4);
    Halve(2, b, 5);
    Quarter(d);
  }

  lemma Quarter(x: nat)
    ensures x / 4 == (x / 2) / 2 && x / 8 == (x / 4) / 2
    ensures (x / 8) / 2 == x / 16 && (x / 8) / 4 == x / 32 && (x / 8) / 8 == x / 64
  {
  }

  /** Bit k of the opcode is whether operand byte k is sent. */
  lemma OpcodeBits(b: seq<byte>, c: nat)
    requires |b| == 7 && c == 128 + MaskFrom(b, 0)
    ensures c % 2 == Sent(b[0]) && (c / 2) % 2 == Sent(b[1]) && (c / 4) % 2 == Sent(b[2])
    ensures (c / 8) % 2 == Sent(b[3]) && (c / 16) % 2 == Sent(b[4])
    ensures (c / 32) % 2 == Sent(b[5]) && (c / 64) % 2 == Sent(b[6])
  {
    OpcodeShift(b, c);
    Halve(64, b, 0);
    Halve(32, b, 1);
    Halve(16, b, 2);
    Halve(8, b, 3);
    Halve(4, b, 4);
    Halve(2, b, 5);
    Halve(1, b, 6);
  }

  /** The flags of a copy's opcode say which of its operand bytes are
      non-zero. */
  lemma OpcodeFlags7(offset: nat, size: nat)
    ensures var b := CopyBytes(offset, size);
      forall k :: 0 <= k < 7 ==> Flags(CopyOpcode(offset, size))[k] == (b[k] != 0)
  {
    var b := CopyBytes(offset, size);
    var c: nat := CopyOpcode(offset, size);
    var f := Flags(CopyOpcode(offset, size));
    OpcodeBits(b, c);
    Pow2Small();
    assert f[0] == (b[0] != 0) && f[1] == (b[1] != 0) && f[2] == (b[2] != 0);
    assert f[3] == (b[3] != 0) && f[4] == (b[4] != 0);
    assert f[5] == (b[5] != 0) && f[6] == (b[6] != 0);
  }

  /** With the flags saying which bytes are non-zero, and the non-zero bytes at
      `pos`, the operands are the bytes themselves. */
  lemma {:induction false} OperandsSent(data: seq<byte>, pos: nat, b: seq<byte>, flags: seq<bool>, k: nat)
    requires |flags| == |b| && forall j :: 0 <= j < |b| ==> flags[j] == (b[j] != 0)
    requires k <= |b| && pos + |NonZero(b, k)| <= |data| && data[pos..pos + |NonZero(b, k)|] == NonZero(b, k)
    ensures Operands(data, pos, flags, k) == b[k..]
    ensures SetBits(flags, k) == |NonZero(b, k)|
    decreases |b| - k
  {
    if k < |b| {
      var rest := NonZero(b, k + 1);
      if b[k] != 0 {
        assert NonZero(b, k) == [b[k]] + rest;
        assert data[pos + 1..pos + 1 + |rest|] == data[pos..pos + |NonZero(b, k)|][1..];
        OperandsSent(data, pos + 1, b, flags, k + 1);
        assert At(data, pos) == data[pos..pos + |NonZero(b, k)|][0];
      } else {
        assert NonZero(b, k) == rest;
        OperandsSent(data, pos, b, flags, k + 1);
      }
      assert b[k..] == [b[k]] + b[k + 1..];
    }
  }

  /** Four bytes, least significant first, form `Word`. */
  lemma WordValue(b: seq<byte>)
    requires |b| == 4
    ensures Word(b[0], b[1], b[2], b[3]) == LittleEndianValue(b)
  {
    Word3Value(b[1..]);
  }

  /** Three bytes, least significant first, form `Word3`. */
  lemma Word3Value(b: seq<byte>)
    requires |b| == 3
    ensures Word3(b[0], b[1], b[2]) == LittleEndianValue(b)
  {
    var t := b[1..][1..];
    assert t[1..] == [];
    assert LittleEndianValue(t) == t[0];
  }

  /** Bytes written little-endian read back as the number, when it fits. */
  lemma {:induction false} LittleEndianRoundTrip(v: nat, n: nat)
    requires v < Pow2(8 * n)
    ensures LittleEndianValue(LittleEndian(v, n)) == v
  {
    if n > 0 {
      var q := v / 256;
      assert q < Pow2(8 * (n - 1)) by {
        Pow2Add(8, 8 * (n - 1));
        assert Pow2(8) == 256;
        DivBelow(v, Pow2(8 * (n - 1)));
      }
      LittleEndianRoundTrip(q, n - 1);
      LittleEndianCons(v, n);
      assert v == v % 256 + 256 * q;
    }
  }

  lemma DivBelow(v: nat, p: nat)
    requires v < 256 * p
    ensures v / 256 < p
  {
  }

  lemma LittleEndianCons(v: nat, n: nat)
    requires n > 0
    ensures LittleEndianValue(LittleEndian(v, n)) == v % 256 + 256 * LittleEndianValue(LittleEndian(v / 256, n - 1))
  {
    assert LittleEndian(v, n)[1..] == LittleEndian(v / 256, n - 1);
  }

  /** A copy instruction decodes to its own offset and size, and is exactly
      as long as its encoding. */
  lemma CopyRoundTrip(data: seq<byte>, i: nat, offset: nat, size: nat)
    requires offset < TWO_31 && size < 0x100_0000
    requires var e := EncodeOp(Cp(offset, size)); i + |e| <= |data| && data[i..i + |e|] == e
    ensures CopyAt(data, i) == Copy(|EncodeOp(Cp(offset, size))|, offset, size)
  {
    var e := EncodeOp(Cp(offset, size));
    var b := CopyBytes(offset, size);
    var sent := NonZero(b, 0);
    assert At(data, i) == e[0] == CopyOpcode(offset, size);
    OpcodeFlags7(offset, size);
    assert data[i + 1..i + 1 + |sent|] == e[1..] == sent;
    OperandsSent(data, i + 1, b, Flags(At(data, i)), 0);
    var ops := Operands(data, i + 1, Flags(At(data, i)), 0);
    assert ops == b;
    Pow2Bytes();
    Pow2Add(24, 8);
    assert Pow2(32) == TWO_32;
    LittleEndianRoundTrip(offset, 4);
    LittleEndianRoundTrip(size, 3);
    assert ops[..4] == LittleEndian(offset, 4) && ops[4..] == LittleEndian(size, 3);
    WordValue(ops[..4]);
    Word3Value(ops[4..]);
  }

  /** An encoded literal is appended and skipped. */
  lemma InsertEncoded(data: seq<byte>, base: seq<byte>, i: nat, literal: seq<byte>, acc: seq<byte>)
    requires |literal| <= 127
    requires i + 1 + |literal| <= |data| && data[i..i + 1 + |literal|] == EncodeOp(Ins(literal))
    ensures DeltaOutput(data, base, i, acc) == DeltaOutput(data, base, i + 1 + |literal|, acc + literal)
  {
    var e := EncodeOp(Ins(literal));
    assert data[i] == e[0] == |literal|;
    assert data[i + 1..i + 1 + |literal|] == e[1..] == literal;
    InsertStep(data, base, i, acc);
  }

  /** An encoded copy appends its slice of the base and skips its encoding. */
  lemma CopyEncoded(data: seq<byte>, base: seq<byte>, i: nat, offset: nat, size: nat, acc: seq<byte>)
    requires ValidOp(Cp(offset, size), base)
    requires var e := EncodeOp(Cp(offset, size)); i + |e| <= |data| && data[i..i + |e|] == e
    ensures DeltaOutput(data, base, i, acc)
      == DeltaOutput(data, base, i + |EncodeOp(Cp(offset, size))|, acc + base[offset..offset + size])
  {
    var e := EncodeOp(Cp(offset, size));
    assert data[i] == e[0] > 127;
    CopyRoundTrip(data, i, offset, size);
    CopyStep(data, base, i, acc);
  }

  /** `data` holds the encodings of `ops` back to back from `i` to its end. */
  predicate EncodedAt(data: seq<byte>, i: nat, ops: seq<DeltaOp>, base: seq<byte>)
    requires AllValid(ops, base)
    decreases |ops|
  {
    if ops == [] then i == |data|
    else
      var n := |EncodeOp(ops[0])|;
      && i + n <= |data|
      && data[i..i + n] == EncodeOp(ops[0])
      && EncodedAt(data, i + n, ops[1..], base)
  }

  /** A suffix equal to the concatenated encodings holds them back to back. */
  lemma {:induction false} EncodedAtSuffix(data: seq<byte>, i: nat, ops: seq<DeltaOp>, base: seq<byte>)
    requires AllValid(ops, base)
    requires i <= |data| && data[i..] == EncodeOps(ops, base)
    ensures EncodedAt(data, i, ops, base)
    decreases |ops|
  {
    if ops != [] {
      var e := EncodeOp(ops[0]);
      assert EncodeOps(ops, base) == e + EncodeOps(ops[1..], base);
      SplitSuffix(data, i, e, EncodeOps(ops[1..], base));
      EncodedAtSuffix(data, i + |e|, ops[1..], base);
    }
  }

  /** The first encoded instruction appends its output and is skipped. */
  lemma FirstEncoded(data: seq<byte>, base: seq<byte>, i: nat, op: DeltaOp, acc: seq<byte>)
    requires ValidOp(op, base)
    requires i + |EncodeOp(op)| <= |data| && data[i..i + |EncodeOp(op)|] == EncodeOp(op)
    ensures DeltaOutput(data, base, i, acc) == DeltaOutput(data, base, i + |EncodeOp(op)|, acc + OpOutput(op, base))
  {
    match op
    case Ins(literal) =>
      InsertEncoded(data, base, i, literal, acc);
    case Cp(offset, size) =>
      CopyEncoded(data, base, i, offset, size, acc);
  }

  /** The instruction loop reproduces the target from encoded instructions. */
  lemma {:induction false} OutputOfEncoded(data: seq<byte>, base: seq<byte>, i: nat, ops: seq<DeltaOp>, acc: seq<byte>)
    requires AllValid(ops, base)
    requires EncodedAt(data, i, ops, base)
    ensures DeltaOutput(data, base, i, acc) == acc + Apply(ops, base)
    decreases |ops|
  {
    if ops != [] {
      var piece := OpOutput(ops[0], base);
      var rest := Apply(ops[1..], base);
      var next := i + |EncodeOp(ops[0])|;
      FirstEncoded(data, base, i, ops[0], acc);
      OutputOfEncoded(data, base, next, ops[1..], acc + piece);
      AppendAssoc(acc, piece, rest);
    }
  }

  /** The two size fields of an encoded delta: instructions start right after
      them, and the target size reads back as the target's length. */
  lemma HeaderOfEncoded(ops: seq<DeltaOp>, base: seq<byte>)
    requires AllValid(ops, base)
    requires |Apply(ops, base)| < TWO_31
    ensures var d := EncodeDelta(ops, base);
      var start := |Leb128(|base|)| + |Leb128(|Apply(ops, base)|)|;
      && InstructionsStart(d) == start
      && TargetSize(d) == |Apply(ops, base)|
      && d[start..] == EncodeOps(ops, base)
  {
    var target := Apply(ops, base);
    var d := EncodeDelta(ops, base);
    var h1 := Leb128(|base|);
    var h2 := Leb128(|target|);
    assert d[..|h1|] == h1;
    Leb128Len(d, 0, |base|);
    assert d[|h1|..|h1| + |h2|] == h2;
    SizeField(d, |h1|, |target|);
    assert d[|h1| + |h2|..] == EncodeOps(ops, base);
  }

  /** A size below 2^31, encoded at `from`, is read back with its length and
      value at shift 0. */
  lemma SizeField(d: seq<byte>, from: nat, m: nat)
    requires m < TWO_31
    requires from + |Leb128(m)| <= |d| && d[from..from + |Leb128(m)|] == Leb128(m)
    ensures VarintLen(d, from) == |Leb128(m)| && GroupSum(d, from, |Leb128(m)|, 0) == m
  {
    Leb128Len(d, from, m);
    assert Pow2(0) == 1;
    Leb128Sum(d, from, m, 0);
  }

  /** Decoding an encoded delta against its base gives the target back, for
      every target below 2^31: a longer target's size field would wrap in
      JavaScript's 32-bit `<<`. */
  lemma DecodeEncoded(ops: seq<DeltaOp>, base: seq<byte>)
    requires AllValid(ops, base)
    requires |Apply(ops, base)| < TWO_31
    ensures DeltaResult(EncodeDelta(ops, base), base) == Ok(Apply(ops, base))
  {
    var d := EncodeDelta(ops, base);
    HeaderOfEncoded(ops, base);
    EncodedAtSuffix(d, InstructionsStart(d), ops, base);
    OutputOfEncoded(d, base, InstructionsStart(d), ops, []);
    assert DeltaTarget(d, base) == Apply(ops, base);
  }

  /** The declared base size is never checked: a delta whose base-size field
      says 0 still applies to a three-byte base. */
  lemma BaseSizeIgnored()
    ensures DeltaResult([0, 2, 0x91, 1, 2], [7, 8, 9]) == Ok([8, 9])
  {
    var d: seq<byte> := [0, 2, 0x91, 1, 2];
    var base: seq<byte> := [7, 8, 9];
    ExampleHeader(d);
    ExampleCopy(d);
    CopyStep(d, base, 2, []);
    assert Slice(base, 1, 3) == [8, 9];
    assert DeltaOutput(d, base, 5, [8, 9]) == [8, 9];
    assert DeltaTarget(d, base) == [8, 9];
  }

  lemma ExampleHeader(d: seq<byte>)
    requires d == [0, 2, 0x91, 1, 2]
    ensures InstructionsStart(d) == 2 && TargetSize(d) == 2
  {
    assert VarintLen(d, 0) == 1 && VarintLen(d, 1) == 1;
    ShlExact(2, 0);
  }

  /** The opcode 0x91 copies one offset byte (1) and one size byte (2). */
  lemma ExampleCopy(d: seq<byte>)
    requires d == [0, 2, 0x91, 1, 2]
    ensures CopyAt(d, 2) == Copy(3, 1, 2)
  {
    OpcodeFlags();
    var flags := Flags(0x91);
    assert At(d, 2) == 0x91;
    assert Operands(d, 5, flags, 5) == [0, 0];
    assert Operands(d, 4, flags, 4) == [2, 0, 0];
    assert Operands(d, 4, flags, 1) == [0, 0, 0, 2, 0, 0];
    assert Operands(d, 3, flags, 0) == [1, 0, 0, 0, 2, 0, 0];
    assert SetBits(flags, 4) == 1;
    assert SetBits(flags, 0) == 2;
  }

  /** The opcode 0x91 selects offset byte 0 and size byte 0. */
  lemma OpcodeFlags()
    ensures Flags(0x91) == [true, false, false, false, true, false, false]
  {
    Pow2Small();
  }
}
