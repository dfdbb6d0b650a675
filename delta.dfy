/**
 * The ref-delta instruction stream of the pack format, as decoded by
 * `decodeDelta` (app/modules/clone.js): two leading sizes (base, target),
 * then insert opcodes (top bit clear: the opcode is a literal length) and copy
 * opcodes (top bit set: bits 0-3 select offset bytes, bits 4-6 size bytes).
 */
module Delta {
  import opened Js
  import opened Results
  import opened Varint

  // ---------------------------------------------------------------------------
  // parseSize

  /** `parseSize(data, i)`: a size whose groups start at shift 0. */
  method ParseSize(data: seq<byte>, i: nat) returns (parsedBytes: nat, size: int)
    ensures parsedBytes == VarintLen(data, i)
    ensures size == GroupSum(data, i, parsedBytes, 0)
  {
    ShlExact(At(data, i) % 128, 0);
    size := At(data, i) % 128;
    parsedBytes := 1;
    var offset := 7;
    var cur := i;
    while At(data, cur) > 127
      invariant cur == i + parsedBytes - 1
      invariant offset == 7 * parsedBytes
      invariant size == GroupSum(data, i, parsedBytes, 0)
      invariant VarintLen(data, i) == cur - i + VarintLen(data, cur)
      decreases |data| - cur
    {
      cur := cur + 1;
      size := size + Shl(At(data, cur) % 128, offset);
      parsedBytes := parsedBytes + 1;
      offset := offset + 7;
    }
  }

  // ---------------------------------------------------------------------------
  // parseInsert

  datatype Insert = Insert(parsedBytes: nat, insertContent: seq<byte>)

  /** `parseInsert(data, i)`: the opcode is the literal's length; the literal
      follows it, cut short at the end of the data. */
  function ParseInsert(data: seq<byte>, i: nat): (r: Insert)
    ensures r.parsedBytes == 1 + At(data, i)
    ensures i + r.parsedBytes <= |data| ==> r.insertContent == data[i + 1..i + r.parsedBytes]
    ensures |r.insertContent| <= At(data, i)
  {
    var size := At(data, i);
    Insert(1 + size, Slice(data, i + 1, i + 1 + size))
  }

  // ---------------------------------------------------------------------------
  // parseCopy

  /** For k in 0..6, whether `mask & (1 << k)` is non-zero: bits 0-3 select
      offset bytes, bits 4-6 size bytes. */
  function Flags(mask: byte): (f: seq<bool>)
    ensures |f| == 7
  {
    seq(7, k requires 0 <= k < 7 => (mask / Pow2(k)) % 2 == 1)
  }

  lemma Pow2Small()
    ensures Pow2(0) == 1 && Pow2(1) == 2 && Pow2(2) == 4 && Pow2(3) == 8
    ensures Pow2(4) == 16 && Pow2(5) == 32 && Pow2(6) == 64
  {
  }

  /** The number of set flags from index k on. */
  function SetBits(flags: seq<bool>, k: nat): (n: nat)
    ensures k <= |flags| ==> n <= |flags| - k
    decreases |flags| - k
  {
    if k >= |flags| then 0 else (if flags[k] then 1 else 0) + SetBits(flags, k + 1)
  }

  /** The operand values for flags k.., reading from `pos`: the next byte of
      `data` for a set flag, 0 for a clear one. */
  function Operands(data: seq<byte>, pos: nat, flags: seq<bool>, k: nat): (r: seq<byte>)
    ensures k <= |flags| ==> |r| == |flags| - k
    decreases |flags| - k
  {
    if k >= |flags| then []
    else if flags[k] then [At(data, pos)] + Operands(data, pos + 1, flags, k + 1)
    else [0] + Operands(data, pos, flags, k + 1)
  }

  /** `sum of b[j] << (8 * j)`, with JavaScript's 32-bit `<<`. */
  function Assemble(b: seq<byte>): int
    decreases |b|
  {
    if |b| == 0 then 0 else Assemble(b[..|b| - 1]) + Shl(b[|b| - 1], 8 * (|b| - 1))
  }

  datatype Copy = Copy(parsedBytes: nat, offset: int, size: int)

  /** What `parseCopy(data, i)` returns. */
  function CopyAt(data: seq<byte>, i: nat): Copy
  {
    var flags := Flags(At(data, i));
    var ops := Operands(data, i + 1, flags, 0);
    WordBounds(ops[0], ops[1], ops[2], ops[3]);
    Copy(1 + SetBits(flags, 0), Signed32(Word(ops[0], ops[1], ops[2], ops[3])), Word3(ops[4], ops[5], ops[6]))
  }

  /** Four bytes read little-endian, unsigned. */
  function Word(b0: byte, b1: byte, b2: byte, b3: byte): nat
  {
    b0 + 0x100 * b1 + 0x1_0000 * b2 + 0x100_0000 * b3
  }

  /** Three bytes read little-endian. */
  function Word3(b0: byte, b1: byte, b2: byte): nat
  {
    b0 + 0x100 * b1 + 0x1_0000 * b2
  }

  lemma WordBounds(b0: byte, b1: byte, b2: byte, b3: byte)
    ensures Word(b0, b1, b2, b3) < TWO_32
    ensures Word(b0, b1, b2, b3) >= TWO_31 <==> b3 >= 128
    ensures Word3(b0, b1, b2) < 0x100_0000
    ensures Word(b0, b1, b2, b3) == Word3(b0, b1, b2) + 0x100_0000 * b3
  {
  }

  /** `parseCopy(data, i)`: collects the selected offset and size bytes, then
      assembles each little-endian. */
  method ParseCopy(data: seq<byte>, i: nat) returns (parsedBytes: nat, offset: int, size: int)
    ensures Copy(parsedBytes, offset, size) == CopyAt(data, i)
  {
    var offSetBytes: seq<byte> := [];
    var sizeBytes: seq<byte> := [];
    var mask := At(data, i);
    var flags := Flags(mask);
    ghost var ops := Operands(data, i + 1, flags, 0);
    parsedBytes := 1;
    var cur: nat := i + 1;
    // The source also tests `mask === 0x10000` here, which a byte never is.
    for k := 0 to 7
      invariant k <= 4 ==> offSetBytes == ops[..k] && sizeBytes == []
      invariant k > 4 ==> offSetBytes == ops[..4] && sizeBytes == ops[4..k]
      invariant Operands(data, cur, flags, k) == ops[k..]
      invariant parsedBytes + SetBits(flags, k) == 1 + SetBits(flags, 0)
    {
      OperandsNext(data, cur, flags, k, ops);
      if k < 4 {
        if flags[k] {
          offSetBytes := offSetBytes + [At(data, cur)];
          cur := cur + 1;
          parsedBytes := parsedBytes + 1;
        } else {
          offSetBytes := offSetBytes + [0];
        }
        Grow(ops, 0, k);
      } else {
        if flags[k] {
          sizeBytes := sizeBytes + [At(data, cur)];
          cur := cur + 1;
          parsedBytes := parsedBytes + 1;
        } else {
          sizeBytes := sizeBytes + [0];
        }
        Grow(ops, 4, k);
      }
    }
    offset := AssembleBytes(offSetBytes);
    size := AssembleBytes(sizeBytes);
  }

  lemma Grow(ops: seq<byte>, lo: nat, k: nat)
    requires lo <= k < |ops|
    ensures ops[lo..k] + [ops[k]] == ops[lo..k + 1]
  {
  }

  /** One step of the operand walk: flag k yields the byte at `cur` when set
      and 0 when clear, and only a set flag moves the read position. */
  lemma OperandsNext(data: seq<byte>, cur: nat, flags: seq<bool>, k: nat, ops: seq<byte>)
    requires k < |flags| && |ops| == |flags|
    requires Operands(data, cur, flags, k) == ops[k..]
    ensures ops[k] == if flags[k] then At(data, cur) else 0
    ensures Operands(data, if flags[k] then cur + 1 else cur, flags, k + 1) == ops[k + 1..]
    ensures SetBits(flags, k) == (if flags[k] then 1 else 0) + SetBits(flags, k + 1)
  {
    assert ops[k..][0] == ops[k];
    assert ops[k..][1..] == ops[k + 1..];
  }

  /** The loop `parseCopy` runs over the offset bytes and again over the size
      bytes: `value << (index * 8)` summed over the entries. */
  method AssembleBytes(bytes: seq<byte>) returns (v: int)
    ensures v == Assemble(bytes)
    ensures |bytes| == 3 ==> v == Word3(bytes[0], bytes[1], bytes[2])
    ensures |bytes| == 4 ==> v == Signed32(Word(bytes[0], bytes[1], bytes[2], bytes[3]))
  {
    v := 0;
    for index := 0 to |bytes|
      invariant v == Assemble(bytes[..index])
    {
      assert bytes[..index + 1][..index] == bytes[..index];
      v := v + Shl(bytes[index], index * 8);
    }
    assert bytes[..|bytes|] == bytes;
    if |bytes| == 3 {
      Assemble3(bytes);
    } else if |bytes| == 4 {
      Assemble4(bytes);
    }
  }

  lemma Pow2Bytes()
    ensures Pow2(0) == 1 && Pow2(8) == 0x100 && Pow2(16) == 0x1_0000 && Pow2(24) == 0x100_0000
  {
    assert Pow2(8) == 0x100;
    Pow2Add(8, 8);
    Pow2Add(16, 8);
  }

  /** The shifts `parseCopy` uses below bit 24 are exact multiplications. */
  lemma ByteShifts(x: byte)
    ensures Shl(x, 0) == x
    ensures Shl(x, 8) == x * 0x100
    ensures Shl(x, 16) == x * 0x1_0000
  {
    Pow2Bytes();
    ShlExact(x, 0);
    ShlExact(x, 8);
    ShlExact(x, 16);
  }

  /** The shift by 24 wraps to a signed 32-bit value. */
  lemma TopByteShift(x: byte)
    ensures Shl(x, 24) == Signed32(x * 0x100_0000)
  {
    Pow2Bytes();
    assert 24 % 32 == 24;
    ToInt32Signed(x * 0x100_0000);
  }

  /** Three operand bytes assemble without wrapping. */
  lemma Assemble3(s: seq<byte>)
    requires |s| == 3
    ensures Assemble(s) == Word3(s[0], s[1], s[2])
  {
    var p1 := s[..1];
    var p2 := s[..2];
    assert p1[..0] == [];
    assert Assemble(p1) == Assemble([]) + Shl(s[0], 0);
    ByteShifts(s[0]);
    assert p2[..1] == p1;
    assert Assemble(p2) == Assemble(p1) + Shl(s[1], 8);
    ByteShifts(s[1]);
    assert s[..2] == p2;
    assert Assemble(s) == Assemble(p2) + Shl(s[2], 16);
    ByteShifts(s[2]);
  }

  /** Four operand bytes assemble to the signed 32-bit reading: the top
      byte's shift by 24 wraps. */
  lemma Assemble4(o: seq<byte>)
    requires |o| == 4
    ensures Assemble(o) == Signed32(Word(o[0], o[1], o[2], o[3]))
  {
    var low := o[..3];
    Assemble3(low);
    assert Assemble(o) == Assemble(low) + Shl(o[3], 24);
    TopByteShift(o[3]);
    var h := o[3] as int * 0x100_0000;
    var l := Word3(o[0], o[1], o[2]);
    WordBounds(o[0], o[1], o[2], o[3]);
    assert h < TWO_31 <==> h + l < TWO_31 by {
      if o[3] >= 128 {
        assert h >= 128 * 0x100_0000;
      } else {
        assert h <= 127 * 0x100_0000;
      }
    }
  }

  /** parseCopy's results: the offset is a signed 32-bit value, negative
      exactly when the fourth offset byte is 128 or more; the size is below
      2^24, and a size of zero stays zero. */
  lemma CopyAtBounds(data: seq<byte>, i: nat)
    ensures -TWO_31 <= CopyAt(data, i).offset < TWO_31
    ensures CopyAt(data, i).offset < 0 <==> Operands(data, i + 1, Flags(At(data, i)), 0)[3] >= 128
    ensures 0 <= CopyAt(data, i).size < 0x100_0000
  {
  }

  /** parseCopy consumes the opcode and one byte per set bit among bits 0..6. */
  lemma CopyLength(data: seq<byte>, i: nat)
    ensures CopyAt(data, i).parsedBytes == 1 + SetBits(Flags(At(data, i)), 0)
    ensures 1 <= CopyAt(data, i).parsedBytes <= 8
  {
  }

  /** A clear flag gives the operand 0, wherever the read position is. */
  lemma {:induction false} OperandClear(data: seq<byte>, pos: nat, flags: seq<bool>, k: nat, j: nat)
    requires k <= j < |flags| && !flags[j]
    ensures Operands(data, pos, flags, k)[j - k] == 0
    decreases j - k
  {
    if k < j {
      OperandClear(data, if flags[k] then pos + 1 else pos, flags, k + 1, j);
    }
  }

  /** A copy opcode without size bytes (bits 4-6 clear) copies nothing: its
      size stays 0, where the pack format reads 0x10000, because the test for
      0x10000 compares the mask, which is a byte, and never holds. */
  lemma ZeroSizeCopy(ins: seq<byte>, base: seq<byte>, i: nat, content: seq<byte>)
    requires i < |ins| && ins[i] > 127 && ins[i] / 16 % 8 == 0
    ensures CopyAt(ins, i).size == 0
    ensures DeltaOutput(ins, base, i, content) == DeltaOutput(ins, base, i + CopyAt(ins, i).parsedBytes, content)
  {
    var c := CopyAt(ins, i);
    NoSizeBytes(ins, i);
    EmptySlice(base, c.offset, c.offset + c.size);
    assert content + Slice(base, c.offset, c.offset + c.size) == content;
    CopyStep(ins, base, i, content);
  }

  /** A slice whose ends coincide is empty. */
  lemma EmptySlice(s: seq<byte>, start: int, end: int)
    requires start == end
    ensures Slice(s, start, end) == []
  {
  }

  /** Without size flags the three size operands are 0. */
  lemma NoSizeBytes(data: seq<byte>, i: nat)
    requires At(data, i) / 16 % 8 == 0
    ensures CopyAt(data, i).size == 0
  {
    var flags := Flags(At(data, i));
    SizeFlagsClear(At(data, i), flags);
    OperandClear(data, i + 1, flags, 0, 4);
    OperandClear(data, i + 1, flags, 0, 5);
    OperandClear(data, i + 1, flags, 0, 6);
  }

  /** Bits 4-6 of the mask are its size flags. */
  lemma SizeFlagsClear(mask: byte, flags: seq<bool>)
    requires mask / 16 % 8 == 0 && flags == Flags(mask)
    ensures !flags[4] && !flags[5] && !flags[6]
  {
    Pow2Small();
    assert mask / 32 == mask / 16 / 2 && mask / 64 == mask / 16 / 4;
  }

  // ---------------------------------------------------------------------------
  // decodeDelta

  /** `acc` followed by the bytes the instruction loop of `decodeDelta`
      appends from cursor `i` on: inserted literals and copied base slices, in
      order. A copy slice follows `slice` semantics, so it is clamped to the
      base and a negative offset counts from its end. */
  function DeltaOutput(ins: seq<byte>, base: seq<byte>, i: nat, acc: seq<byte>): seq<byte>
    decreases |ins| - i, 2
  {
    if i >= |ins| then acc else NextOutput(ins, base, i, acc)
  }

  /** The opcode at `i` chooses between the two kinds of instruction. */
  function NextOutput(ins: seq<byte>, base: seq<byte>, i: nat, acc: seq<byte>): seq<byte>
    requires i < |ins|
    decreases |ins| - i, 1
  {
    if ins[i] <= 127 then InsertOutput(ins, base, i, acc) else CopyOutput(ins, base, i, acc)
  }

  /** An insert at `i`: its literal, then the rest. */
  function InsertOutput(ins: seq<byte>, base: seq<byte>, i: nat, acc: seq<byte>): seq<byte>
    requires i < |ins|
    decreases |ins| - i, 0
  {
    var p := ParseInsert(ins, i);
    DeltaOutput(ins, base, i + p.parsedBytes, acc + p.insertContent)
  }

  /** A copy at `i`: its slice of the base, then the rest. */
  function CopyOutput(ins: seq<byte>, base: seq<byte>, i: nat, acc: seq<byte>): seq<byte>
    requires i < |ins|
    decreases |ins| - i, 0
  {
    var c := CopyAt(ins, i);
    CopyLength(ins, i);
    DeltaOutput(ins, base, i + c.parsedBytes, acc + Slice(base, c.offset, c.offset + c.size))
  }

  /** One insert opcode: the literal is appended and the cursor moves past it. */
  lemma InsertStep(ins: seq<byte>, base: seq<byte>, i: nat, content: seq<byte>)
    requires i < |ins| && ins[i] <= 127
    ensures var p := ParseInsert(ins, i);
      DeltaOutput(ins, base, i, content) == DeltaOutput(ins, base, i + p.parsedBytes, content + p.insertContent)
  {
    assert DeltaOutput(ins, base, i, content) == NextOutput(ins, base, i, content)
        == InsertOutput(ins, base, i, content);
  }

  /** One copy opcode: the base slice is appended and the cursor moves past
      the opcode and its operands. */
  lemma CopyStep(ins: seq<byte>, base: seq<byte>, i: nat, content: seq<byte>)
    requires i < |ins| && ins[i] > 127
    ensures var c := CopyAt(ins, i);
      && i < i + c.parsedBytes
      && DeltaOutput(ins, base, i, content)
         == DeltaOutput(ins, base, i + c.parsedBytes, content + Slice(base, c.offset, c.offset + c.size))
  {
    CopyLength(ins, i);
    assert DeltaOutput(ins, base, i, content) == NextOutput(ins, base, i, content)
        == CopyOutput(ins, base, i, content);
  }

  /** The decoding loop's invariant survives an insert opcode. */
  lemma InsertKeeps(ins: seq<byte>, base: seq<byte>, i: nat, content: seq<byte>, target: seq<byte>)
    requires i < |ins| && ins[i] <= 127
    requires DeltaOutput(ins, base, i, content) == target
    ensures DeltaOutput(ins, base, i + ParseInsert(ins, i).parsedBytes, content + ParseInsert(ins, i).insertContent)
         == target
  {
    InsertStep(ins, base, i, content);
  }

  /** The decoding loop's invariant survives a copy opcode whose parsed
      fields are `parsedBytes`, `offset` and `size`. */
  lemma CopyKeeps(ins: seq<byte>, base: seq<byte>, i: nat, content: seq<byte>,
                  parsedBytes: nat, offset: int, size: int, target: seq<byte>)
    requires i < |ins| && ins[i] > 127
    requires Copy(parsedBytes, offset, size) == CopyAt(ins, i)
    requires DeltaOutput(ins, base, i, content) == target
    ensures i < i + parsedBytes
    ensures DeltaOutput(ins, base, i + parsedBytes, content + Slice(base, offset, offset + size)) == target
  {
    CopyStep(ins, base, i, content);
  }

  const WRONG_TARGET_SIZE := "Wrong target size, error in decoding delta"

  /** Where the instructions start: after the base size and the target size. */
  function InstructionsStart(ins: seq<byte>): nat
  {
    VarintLen(ins, 0) + VarintLen(ins, VarintLen(ins, 0))
  }

  /** The target size field, as `parseSize` reads it. */
  function TargetSize(ins: seq<byte>): int
  {
    GroupSum(ins, VarintLen(ins, 0), VarintLen(ins, VarintLen(ins, 0)), 0)
  }

  /** The bytes the instructions produce. */
  function DeltaTarget(ins: seq<byte>, base: seq<byte>): seq<byte>
  {
    DeltaOutput(ins, base, InstructionsStart(ins), [])
  }

  /** What `decodeDelta(instructions, base)` returns or throws: the base size
      is read but never compared with anything, and the output is accepted
      only when its length is the target size. */
  function DeltaResult(ins: seq<byte>, base: seq<byte>): Result<seq<byte>>
  {
    if TargetSize(ins) == |DeltaTarget(ins, base)| then Ok(DeltaTarget(ins, base)) else Err(WRONG_TARGET_SIZE)
  }

  /** `decodeDelta(instructions, refContent)`. */
  method DecodeDelta(instructions: seq<byte>, refContent: seq<byte>) returns (r: Result<seq<byte>>)
    ensures r == DeltaResult(instructions, refContent)
  {
    var i: nat := 0;
    var refParsedBytes, refSize := ParseSize(instructions, i);
    i := i + refParsedBytes;
    var targetParsedBytes, targetSize := ParseSize(instructions, i);
    i := i + targetParsedBytes;
    var content := RunInstructions(instructions, refContent, i);
    assert i == InstructionsStart(instructions);
    assert targetSize == TargetSize(instructions);
    if targetSize == |content| {
      r := Ok(content);
    } else {
      r := Err(WRONG_TARGET_SIZE);
    }
  }

  /** The instruction loop of `decodeDelta`, from cursor `start` to the end of
      the instructions. */
  method RunInstructions(instructions: seq<byte>, refContent: seq<byte>, start: nat) returns (content: seq<byte>)
    ensures content == DeltaOutput(instructions, refContent, start, [])
  {
    ghost var target := DeltaOutput(instructions, refContent, start, []);
    content := [];
    var i := start;
    while i < |instructions|
      invariant DeltaOutput(instructions, refContent, i, content) == target
      decreases |instructions| - i
    {
      // A byte is always below 256, so the source's third branch
      // ("Not copy or insert") cannot be taken.
      if instructions[i] <= 127 {
        var ins := ParseInsert(instructions, i);
        InsertKeeps(instructions, refContent, i, content, target);
        content := content + ins.insertContent;
        i := i + ins.parsedBytes;
      } else {
        var parsedBytes, offset, size := ParseCopy(instructions, i);
        CopyKeeps(instructions, refContent, i, content, parsedBytes, offset, size, target);
        var copyContent := Slice(refContent, offset, offset + size);
        content := content + copyContent;
        i := i + parsedBytes;
      }
    }
  }
}
