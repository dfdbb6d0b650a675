/**
 * The pack file a clone receives (app/modules/clone.js): a 12-byte preamble,
 * the object count as a big-endian 32-bit number at bytes 16-19, then the
 * objects from byte 20 on. Each object starts with a varint header (type in
 * bits 4-6 of the first byte, size seeded by its low four bits and extended
 * by seven bits per continuation byte), then, for a ref-delta, the 20-byte
 * hash of its base, then its zlib stream.
 *
 * zlib is a parameter: `inflate` maps the bytes from the stream's start on to
 * the data it inflates and the number of input bytes it read.
 */
module Pack {
  import opened Js
  import opened Results
  import opened Varint
  import opened Objects

  // ---------------------------------------------------------------------------
  // parsePackObjectHeader

  /** The type code in bits 4-6 of the first header byte. */
  function HeaderType(buf: seq<byte>, i: nat): (t: nat)
    ensures t < 8
  {
    At(buf, i) / 16 % 8
  }

  /** The size the header loop adds up: the low four bits of the first byte,
      then seven bits per continuation byte at shifts 4, 11, 18, ... */
  function HeaderSize(buf: seq<byte>, i: nat): int
  {
    At(buf, i) % 16 + GroupSum(buf, i + 1, VarintLen(buf, i) - 1, 4)
  }

  /** `parsePackObjectHeader(buffer, i)`: the header runs up to and including
      the first byte below 128. */
  method ParsePackObjectHeader(buffer: seq<byte>, i: nat) returns (parsedBytes: nat, typeCode: int, size: int)
    ensures parsedBytes == VarintLen(buffer, i)
    ensures typeCode == HeaderType(buffer, i) && 0 <= typeCode < 8
    ensures size == HeaderSize(buffer, i)
  {
    var cur := i;
    typeCode := At(buffer, cur) / 16 % 8;
    size := At(buffer, cur) % 16;
    var offset := 4;
    while At(buffer, cur) >= 128
      invariant i <= cur
      invariant offset == 4 + 7 * (cur - i)
      invariant size == At(buffer, i) % 16 + GroupSum(buffer, i + 1, cur - i, 4)
      invariant VarintLen(buffer, i) == cur - i + VarintLen(buffer, cur)
      decreases |buffer| - cur
    {
      VarintLenStep(buffer, cur);
      cur := cur + 1;
      GroupSumNext(buffer, i + 1, cur - i - 1, 4, cur, offset, cur - i);
      size := size + Shl(At(buffer, cur) % 128, offset);
      offset := offset + 7;
    }
    parsedBytes := cur - i + 1;
  }

  /** The reference encoder of a header: the type and low four bits of the
      size in the first byte, the rest of the size seven bits at a time. */
  function EncodeHeader(typeCode: nat, size: nat): (r: seq<byte>)
    requires typeCode < 8
    ensures |r| >= 1
  {
    if size < 16 then [typeCode * 16 + size]
    else [128 + typeCode * 16 + size % 16] + Leb128(size / 16)
  }

  lemma Pow2Value21()
    ensures Pow2(21) == 0x20_0000
  {
    assert Pow2(8) == 256;
    Pow2Add(8, 8);
    Pow2Add(16, 5);
    assert Pow2(5) == 32;
  }

  /** A header written by the encoder is read back with its own length, type
      and size, for every size below 2^31: from 2^31 on the group at shift 25
      reaches bit 31 and JavaScript's `<<` wraps (see `NegativeSizeHeader`). */
  lemma HeaderRoundTrip(buf: seq<byte>, i: nat, typeCode: nat, size: nat)
    requires typeCode < 8 && size < TWO_31
    requires i + |EncodeHeader(typeCode, size)| <= |buf|
    requires buf[i..i + |EncodeHeader(typeCode, size)|] == EncodeHeader(typeCode, size)
    ensures VarintLen(buf, i) == |EncodeHeader(typeCode, size)|
    ensures HeaderType(buf, i) == typeCode
    ensures HeaderSize(buf, i) == size
  {
    var e := EncodeHeader(typeCode, size);
    assert buf[i] == e[0];
    if size < 16 {
      assert VarintLen(buf, i) == 1;
    } else {
      var tail := Leb128(size / 16);
      assert e == [128 + typeCode * 16 + size % 16] + tail;
      assert buf[i + 1..i + 1 + |tail|] == buf[i..i + |e|][1..];
      LongHeader(buf, i, typeCode, size);
    }
  }

  /** A header with continuation bytes: the first byte, then the rest of the
      size in base 128. */
  lemma LongHeader(buf: seq<byte>, i: nat, typeCode: nat, size: nat)
    requires typeCode < 8 && 16 <= size < TWO_31
    requires i + 1 + |Leb128(size / 16)| <= |buf|
    requires buf[i] == 128 + typeCode * 16 + size % 16
    requires buf[i + 1..i + 1 + |Leb128(size / 16)|] == Leb128(size / 16)
    ensures VarintLen(buf, i) == 1 + |Leb128(size / 16)|
    ensures HeaderType(buf, i) == typeCode
    ensures HeaderSize(buf, i) == size
  {
    var m := size / 16;
    FirstByte(buf[i], typeCode, size % 16);
    Leb128Len(buf, i + 1, m);
    assert VarintLen(buf, i) == 1 + VarintLen(buf, i + 1);
    ContinuationSum(buf, i + 1, m);
    assert size % 16 + 16 * m == size;
  }

  /** The first byte of a long header: the continuation bit, the type code,
      the low four bits of the size. */
  lemma FirstByte(b: int, typeCode: nat, low: nat)
    requires typeCode < 8 && low < 16 && b == 128 + typeCode * 16 + low
    ensures b >= 128 && b / 16 % 8 == typeCode && b % 16 == low
  {
  }

  /** The continuation bytes of a header spell the rest of the size, shifted
      past the four bits of the first byte. */
  lemma ContinuationSum(buf: seq<byte>, from: nat, m: nat)
    requires m < 0x800_0000
    requires from + |Leb128(m)| <= |buf| && buf[from..from + |Leb128(m)|] == Leb128(m)
    ensures GroupSum(buf, from, |Leb128(m)|, 4) == 16 * m
  {
    assert Pow2(4) == 16;
    Leb128Sum(buf, from, m, 4);
  }

  // ---------------------------------------------------------------------------
  // decompressPackObject

  /** What the inflater hands back: the inflated data and the number of input
      bytes it read (`bytesRead`). */
  datatype Inflation = Inflation(data: seq<byte>, used: nat)

  /** zlib's inflate over the bytes from a stream's start on; a corrupt stream
      is an error. */
  type Inflate = seq<byte> -> Result<Inflation>

  const TOO_LARGE := "Decompressed data exceeds maximum output size"

  /** `decompressPackObject(buffer, size)`: the inflation, refused when it
      yields more than `size` bytes. The length is tested only when a chunk
      of output arrives, so an inflation without output is accepted whatever
      the size, even a negative one. */
  function DecompressPackObject(buffer: seq<byte>, size: int, inflate: Inflate): (r: Result<Inflation>)
  {
    match inflate(buffer)
    case Err(e) => Err(e)
    case Ok(z) => if |z.data| > 0 && |z.data| > size then Err(TOO_LARGE) else Ok(z)
  }

  /** The inflation is accepted exactly when it succeeds and yields nothing
      or at most `size` bytes; it is then the inflater's result, a longer
      non-empty output is the "exceeds maximum output size" error, and a
      failed inflation is passed on. */
  lemma DecompressBound(buffer: seq<byte>, size: int, inflate: Inflate)
    ensures var r := DecompressPackObject(buffer, size, inflate);
      var z := inflate(buffer);
      && (r.Ok? <==> z.Ok? && (z.value.data == [] || |z.value.data| <= size))
      && (r.Ok? ==> r == z)
      && (z.Ok? && z.value.data != [] && |z.value.data| > size ==> r == Err(TOO_LARGE))
      && (z.Err? ==> r == z)
  {
  }

  /** An inflation without output is accepted under any size, including the
      negative sizes a header can spell through the int32 `<<`. */
  lemma EmptyInflation(buffer: seq<byte>, size: int, inflate: Inflate, used: nat)
    requires inflate(buffer) == Ok(Inflation([], used))
    ensures DecompressPackObject(buffer, size, inflate) == Ok(Inflation([], used))
  {
  }

  // ---------------------------------------------------------------------------
  // parsePackObject

  /** `TYPE_CODES[type]`. */
  function TypeName(typeCode: int): Option<string>
  {
    if typeCode == 1 then Some("commit")
    else if typeCode == 2 then Some("tree")
    else if typeCode == 3 then Some("blob")
    else if typeCode == 7 then Some("delta")
    else None
  }

  /** One object taken from the pack, and the bytes it took. */
  datatype Unpacked = Unpacked(consumed: nat, obj: RawObject)

  /** What `parsePackObject(buffer, i)` resolves to once its header is read
      (`n` bytes, a type code and a size): an object with the bytes it took,
      or `undefined` (`None`) for type 5 and no other. */
  function ObjectAfterHeader(buffer: seq<byte>, i: nat, n: nat, typeCode: int, size: int, inflate: Inflate): Result<Option<Unpacked>>
  {
    var start := i + n;
    if typeCode < 7 && typeCode != 5 then
      match DecompressPackObject(Drop(buffer, start), size, inflate)
      case Err(e) => Err(e)
      case Ok(z) => Ok(Some(Unpacked(n + z.used, RawObject(TypeName(typeCode), z.data, None))))
    else if typeCode == 7 then
      var ref := Slice(buffer, start, start + 20);
      match DecompressPackObject(Drop(buffer, start + 20), size, inflate)
      case Err(e) => Err(e)
      case Ok(z) => Ok(Some(Unpacked(n + 20 + z.used, RawObject(TypeName(typeCode), z.data, Some(ref)))))
    else Ok(None)
  }

  /** `parsePackObject(buffer, i)`, as a function of the bytes. */
  function PackObjectAt(buffer: seq<byte>, i: nat, inflate: Inflate): Result<Option<Unpacked>>
  {
    ObjectAfterHeader(buffer, i, VarintLen(buffer, i), HeaderType(buffer, i), HeaderSize(buffer, i), inflate)
  }

  /** The header 0x90 0x80 0x80 0x80 0x40 is a commit whose last group,
      64 at shift 25, reaches bit 31: the size wraps to -2^31. */
  lemma NegativeSizeHeader(buffer: seq<byte>)
    requires At(buffer, 0) == 0x90 && At(buffer, 1) == 0x80 && At(buffer, 2) == 0x80
    requires At(buffer, 3) == 0x80 && At(buffer, 4) == 0x40
    ensures VarintLen(buffer, 0) == 5 && HeaderType(buffer, 0) == 1
    ensures HeaderSize(buffer, 0) == -0x8000_0000
  {
    VarintLenStep(buffer, 0);
    VarintLenStep(buffer, 1);
    VarintLenStep(buffer, 2);
    VarintLenStep(buffer, 3);
    assert At(buffer, 0) / 16 % 8 == 1 && At(buffer, 0) % 16 == 0;
    assert At(buffer, 1) % 128 == 0 && At(buffer, 2) % 128 == 0;
    assert At(buffer, 3) % 128 == 0 && At(buffer, 4) % 128 == 64;
    GroupSumNext(buffer, 1, 0, 4, 1, 4, 1);
    GroupSumNext(buffer, 1, 1, 4, 2, 11, 2);
    GroupSumNext(buffer, 1, 2, 4, 3, 18, 3);
    GroupSumNext(buffer, 1, 3, 4, 4, 25, 4);
    ZeroShifts();
    TopGroupWraps();
    assert GroupSum(buffer, 1, 1, 4) == 0;
    assert GroupSum(buffer, 1, 2, 4) == 0;
    assert GroupSum(buffer, 1, 3, 4) == 0;
    assert GroupSum(buffer, 1, 4, 4) == -0x8000_0000;
    HeaderSizeGroups(buffer, 0, 4);
    assert At(buffer, 0) % 16 + GroupSum(buffer, 0 + 1, 4, 4) == -0x8000_0000;
  }

  /** A header of `n` continuation bytes adds up `n` groups. */
  lemma HeaderSizeGroups(buf: seq<byte>, i: nat, n: nat)
    requires VarintLen(buf, i) == n + 1
    ensures HeaderSize(buf, i) == At(buf, i) % 16 + GroupSum(buf, i + 1, n, 4)
  {
  }

  lemma ZeroShifts()
    ensures Shl(0, 4) == 0 && Shl(0, 11) == 0 && Shl(0, 18) == 0
  {
  }

  /** 64 at shift 25 is 2^31, which the int32 wrap turns into -2^31. */
  lemma TopGroupWraps()
    ensures Shl(64, 25) == -0x8000_0000
  {
    Pow2Value25();
    assert 25 % 32 == 25;
    assert 64 * Pow2(25) == TWO_31;
  }

  lemma Pow2Value25()
    ensures Pow2(25) == 0x200_0000
  {
    Pow2Value21();
    assert Pow2(25) == 16 * Pow2(21);
  }

  /** Under that header, a stream that inflates to nothing is read as a
      commit with empty content: the negative size never meets the length
      test, which needs a chunk of output. */
  lemma EmptyCommitUnderNegativeSize(buffer: seq<byte>, inflate: Inflate, used: nat)
    requires |buffer| >= 5 && buffer[..5] == [0x90, 0x80, 0x80, 0x80, 0x40]
    requires inflate(Drop(buffer, 5)) == Ok(Inflation([], used))
    ensures PackObjectAt(buffer, 0, inflate) == Ok(Some(Unpacked(5 + used, RawObject(Some("commit"), [], None))))
  {
    assert buffer[0] == 0x90 && buffer[1] == 0x80 && buffer[2] == 0x80;
    assert buffer[3] == 0x80 && buffer[4] == 0x40;
    NegativeSizeHeader(buffer);
    EmptyInflation(Drop(buffer, 5), -0x8000_0000, inflate, used);
  }

  /** `parsePackObject(buffer, i)`. */
  method ParsePackObject(buffer: seq<byte>, i: nat, inflate: Inflate) returns (r: Result<Option<Unpacked>>)
    ensures r == PackObjectAt(buffer, i, inflate)
  {
    var parsedBytes, typeCode, size := ParsePackObjectHeader(buffer, i);
    r := ReadObjectBody(buffer, i, parsedBytes, typeCode, size, inflate);
  }

  /** The statements of `parsePackObject` after the header is read. */
  method ReadObjectBody(buffer: seq<byte>, i: nat, parsedBytes: nat, typeCode: int, size: int, inflate: Inflate)
    returns (r: Result<Option<Unpacked>>)
    ensures r == ObjectAfterHeader(buffer, i, parsedBytes, typeCode, size, inflate)
  {
    var cur := i + parsedBytes;
    var consumed := parsedBytes;
    if typeCode < 7 && typeCode != 5 {
      var d := DecompressPackObject(Drop(buffer, cur), size, inflate);
      if d.Err? {
        return Err(d.error);
      }
      return Ok(Some(Unpacked(consumed + d.value.used, RawObject(TypeName(typeCode), d.value.data, None))));
    } else if typeCode == 7 {
      var ref := Slice(buffer, cur, cur + 20);
      consumed := consumed + 20;
      var d := DecompressPackObject(Drop(buffer, cur + 20), size, inflate);
      if d.Err? {
        return Err(d.error);
      }
      return Ok(Some(Unpacked(consumed + d.value.used, RawObject(TypeName(typeCode), d.value.data, Some(ref)))));
    }
    return Ok(None);
  }

  /** An encoded header, then anything: the object is read past exactly the
      header, with the type code and size that were encoded. */
  lemma HeaderThen(buffer: seq<byte>, i: nat, typeCode: nat, size: nat, rest: seq<byte>, inflate: Inflate)
    requires typeCode < 8 && size < TWO_31
    requires i <= |buffer| && buffer[i..] == EncodeHeader(typeCode, size) + rest
    ensures PackObjectAt(buffer, i, inflate) == ObjectAfterHeader(buffer, i, |EncodeHeader(typeCode, size)|, typeCode, size, inflate)
  {
    SplitSuffix(buffer, i, EncodeHeader(typeCode, size), rest);
    HeaderRoundTrip(buffer, i, typeCode, size);
  }

  /** What follows the header of a whole object: the stream. */
  lemma DirectBody(buffer: seq<byte>, i: nat, typeCode: nat, size: nat, rest: seq<byte>, inflate: Inflate)
    requires typeCode < 7 && typeCode != 5
    requires i <= |buffer| && buffer[i..] == EncodeHeader(typeCode, size) + rest
    requires inflate(rest).Ok? && |inflate(rest).value.data| <= size
    ensures var n, z := |EncodeHeader(typeCode, size)|, inflate(rest).value;
      ObjectAfterHeader(buffer, i, n, typeCode, size, inflate) == Ok(Some(Unpacked(n + z.used, RawObject(TypeName(typeCode), z.data, None))))
  {
    SplitSuffix(buffer, i, EncodeHeader(typeCode, size), rest);
  }

  /** A whole object whose stream inflates within its size: the header, then
      the data, gives back the kind of its type code, the data and the bytes
      the header and the stream took. */
  lemma DirectObjectRoundTrip(buffer: seq<byte>, i: nat, typeCode: nat, size: nat, rest: seq<byte>, inflate: Inflate)
    requires typeCode < 7 && typeCode != 5 && size < TWO_31
    requires i <= |buffer| && buffer[i..] == EncodeHeader(typeCode, size) + rest
    requires inflate(rest).Ok? && |inflate(rest).value.data| <= size
    ensures var z := inflate(rest).value;
      PackObjectAt(buffer, i, inflate) == Ok(Some(Unpacked(|EncodeHeader(typeCode, size)| + z.used, RawObject(TypeName(typeCode), z.data, None))))
  {
    HeaderThen(buffer, i, typeCode, size, rest, inflate);
    DirectBody(buffer, i, typeCode, size, rest, inflate);
  }

  /** What follows the header of a ref-delta: the 20 bytes of its base's
      hash, then the stream. */
  lemma DeltaBody(buffer: seq<byte>, i: nat, size: nat, ref: seq<byte>, rest: seq<byte>, inflate: Inflate)
    requires |ref| == 20
    requires i <= |buffer| && buffer[i..] == EncodeHeader(7, size) + (ref + rest)
    requires inflate(rest).Ok? && |inflate(rest).value.data| <= size
    ensures var n, z := |EncodeHeader(7, size)|, inflate(rest).value;
      ObjectAfterHeader(buffer, i, n, 7, size, inflate) == Ok(Some(Unpacked(n + 20 + z.used, RawObject(Some("delta"), z.data, Some(ref)))))
  {
    SplitSuffix(buffer, i, EncodeHeader(7, size), ref + rest);
    DeltaTail(buffer, i, |EncodeHeader(7, size)|, size, ref, rest, inflate);
  }

  /** The same, stated from where the header ends. */
  lemma DeltaTail(buffer: seq<byte>, i: nat, n: nat, size: nat, ref: seq<byte>, rest: seq<byte>, inflate: Inflate)
    requires |ref| == 20
    requires i + n <= |buffer| && buffer[i + n..] == ref + rest
    requires inflate(rest).Ok? && |inflate(rest).value.data| <= size
    ensures var z := inflate(rest).value;
      ObjectAfterHeader(buffer, i, n, 7, size, inflate) == Ok(Some(Unpacked(n + 20 + z.used, RawObject(Some("delta"), z.data, Some(ref)))))
  {
    SplitSuffix(buffer, i + n, ref, rest);
  }

  /** A ref-delta: the header, the 20 bytes of its base's hash, then the
      stream of its instructions. */
  lemma DeltaObjectRoundTrip(buffer: seq<byte>, i: nat, size: nat, ref: seq<byte>, rest: seq<byte>, inflate: Inflate)
    requires size < TWO_31 && |ref| == 20
    requires i <= |buffer| && buffer[i..] == EncodeHeader(7, size) + (ref + rest)
    requires inflate(rest).Ok? && |inflate(rest).value.data| <= size
    ensures var z := inflate(rest).value;
      PackObjectAt(buffer, i, inflate) == Ok(Some(Unpacked(|EncodeHeader(7, size)| + 20 + z.used, RawObject(Some("delta"), z.data, Some(ref)))))
  {
    HeaderThen(buffer, i, 7, size, ref + rest, inflate);
    DeltaBody(buffer, i, size, ref, rest, inflate);
  }

  /** Type 5 has no case: `parsePackObject` falls off its end. */
  lemma TypeFiveUndefined(buffer: seq<byte>, i: nat, inflate: Inflate)
    requires HeaderType(buffer, i) == 5
    ensures PackObjectAt(buffer, i, inflate) == Ok(None)
  {
  }

  // ---------------------------------------------------------------------------
  // getRawGitObjects

  /** Destructuring the `undefined` of a type-5 object. */
  const NOT_ITERABLE := "TypeError: undefined is not iterable"
  /** `readUInt32BE(0)` on fewer than four bytes. */
  const COUNT_OUT_OF_RANGE := "RangeError: Attempt to access memory outside buffer bounds"

  /** The objects read so far and the cursor after them. */
  datatype Progress = Progress(objects: seq<RawObject>, cursor: nat)

  /** `parsePackObject` over a pack body, as a function of the position. */
  type Reader = nat -> Result<Option<Unpacked>>

  function ReaderOf(body: seq<byte>, inflate: Inflate): Reader
  {
    (i: nat) => PackObjectAt(body, i, inflate)
  }

  /** The first `n` objects, read back to back from the start of the body:
      each object is parsed where the previous one ended. */
  function Unpack(read: Reader, n: nat): Result<Progress>
  {
    if n == 0 then Ok(Progress([], 0))
    else
      match Unpack(read, n - 1)
      case Err(e) => Err(e)
      case Ok(p) =>
        match read(p.cursor)
        case Err(e) => Err(e)
        case Ok(None) => Err(NOT_ITERABLE)
        case Ok(Some(u)) => Ok(Progress(p.objects + [u.obj], p.cursor + u.consumed))
  }

  /** What `getRawGitObjects` keeps of a pack: its objects and the hex of its
      last 20 bytes, read but never verified. */
  datatype RawPack = RawPack(objects: seq<RawObject>, checkSum: string)

  /** The object count: bytes 16-19, big-endian. */
  function ObjectCount(packFile: seq<byte>): nat
    requires |packFile| >= 20
  {
    BigEndian32(packFile[16..20])
  }

  /** `getRawGitObjects` on a pack that has arrived. */
  function RawGitObjects(packFile: seq<byte>, inflate: Inflate): Result<RawPack>
  {
    if |packFile| < 20 then Err(COUNT_OUT_OF_RANGE)
    else
      var body := packFile[20..];
      match Unpack(ReaderOf(body, inflate), ObjectCount(packFile))
      case Err(e) => Err(e)
      case Ok(p) => Ok(RawPack(p.objects, Hex(Slice(body, |body| - 20, |body|))))
  }

  /** A failure stops the reading: more objects do not change it. */
  lemma {:induction false} UnpackErrorSticks(read: Reader, i: nat, n: nat)
    requires i <= n && Unpack(read, i).Err?
    ensures Unpack(read, n) == Unpack(read, i)
    decreases n
  {
    if i < n {
      UnpackErrorSticks(read, i, n - 1);
    }
  }

  /** The reading's step from `count` objects to `count + 1` when the reader
      gives an object at the cursor: it is appended, and the cursor moves past it. */
  lemma UnpackNext(read: Reader, count: nat, objects: seq<RawObject>, i: nat, u: Unpacked)
    requires Unpack(read, count) == Ok(Progress(objects, i)) && read(i) == Ok(Some(u))
    ensures Unpack(read, count + 1) == Ok(Progress(objects + [u.obj], i + u.consumed))
  {
  }

  /** The reading's step when the reader gives no object at the cursor: its
      error, or the `undefined` of a type-5 object, ends the reading. */
  lemma UnpackStops(read: Reader, count: nat, objects: seq<RawObject>, i: nat)
    requires Unpack(read, count) == Ok(Progress(objects, i)) && (read(i).Err? || read(i) == Ok(None))
    ensures Unpack(read, count + 1) == Err(if read(i).Err? then read(i).error else NOT_ITERABLE)
  {
  }

  /** `getRawGitObjects(url)` once the pack has arrived; the ref and hash of
      the head come from the network and are left out. */
  method GetRawGitObjects(packFile: seq<byte>, inflate: Inflate) returns (r: Result<RawPack>)
    ensures r == RawGitObjects(packFile, inflate)
  {
    if |packFile| < 20 {
      return Err(COUNT_OUT_OF_RANGE);
    }
    var packObjects := packFile[20..];
    var packObjectCount := BigEndian32(packFile[16..20]);
    var progress := ReadPackObjects(ReaderOf(packObjects, inflate), packObjectCount);
    if progress.Err? {
      return Err(progress.error);
    }
    var checkSum := Hex(Slice(packObjects, |packObjects| - 20, |packObjects|));
    return Ok(RawPack(progress.value.objects, checkSum));
  }

  /** The loop of `getRawGitObjects`: `count` objects parsed back to back,
      each where the previous one ended, by `read` (`parsePackObject` over
      the pack body). */
  method ReadPackObjects(read: Reader, count: nat) returns (r: Result<Progress>)
    ensures r == Unpack(read, count)
  {
    var i: nat := 0;
    var objects: seq<RawObject> := [];
    for k := 0 to count
      invariant Unpack(read, k) == Ok(Progress(objects, i))
    {
      var parsed := read(i);
      match parsed
      case Err(e) =>
        UnpackStops(read, k, objects, i);
        UnpackErrorSticks(read, k + 1, count);
        return Err(e);
      case Ok(None) =>
        UnpackStops(read, k, objects, i);
        UnpackErrorSticks(read, k + 1, count);
        return Err(NOT_ITERABLE);
      case Ok(Some(u)) =>
        UnpackNext(read, k, objects, i, u);
        i := i + u.consumed;
        objects := objects + [u.obj];
    }
    return Ok(Progress(objects, i));
  }

  /** A successful read yields exactly as many objects as it was asked for. */
  lemma {:induction false} UnpackLength(read: Reader, n: nat)
    requires Unpack(read, n).Ok?
    ensures |Unpack(read, n).value.objects| == n
    decreases n
  {
    if n > 0 {
      UnpackLength(read, n - 1);
    }
  }

  /** `parsePackObject` gives a `ref` to a delta and to nothing else. */
  lemma RefOnDeltas(buffer: seq<byte>, i: nat, inflate: Inflate)
    requires PackObjectAt(buffer, i, inflate).Ok? && PackObjectAt(buffer, i, inflate).value.Some?
    ensures var o := PackObjectAt(buffer, i, inflate).value.value.obj;
      o.kind == Some("delta") <==> o.ref.Some?
  {
  }

  /** A reader that gives a `ref` to a delta and to nothing else. */
  ghost predicate RefsOnDeltas(read: Reader)
  {
    forall i: nat :: read(i).Ok? && read(i).value.Some? ==>
      (read(i).value.value.obj.kind == Some("delta") <==> read(i).value.value.obj.ref.Some?)
  }

  /** The pack reader is such a reader. */
  lemma PackReaderRefs(body: seq<byte>, inflate: Inflate)
    ensures RefsOnDeltas(ReaderOf(body, inflate))
  {
    forall i: nat | PackObjectAt(body, i, inflate).Ok? && PackObjectAt(body, i, inflate).value.Some? {
      RefOnDeltas(body, i, inflate);
    }
  }

  /** Every delta the reading yields carries the hash of its base, and no
      other object has one. */
  lemma {:induction false} UnpackedRefs(read: Reader, n: nat)
    requires RefsOnDeltas(read) && Unpack(read, n).Ok?
    ensures var objs := Unpack(read, n).value.objects;
      forall k :: 0 <= k < |objs| ==> (objs[k].kind == Some("delta") <==> objs[k].ref.Some?)
    decreases n
  {
    if n > 0 {
      UnpackedRefs(read, n - 1);
    }
  }

  /** Four bytes, most significant first. */
  function BigEndianBytes(c: nat): (r: seq<byte>)
    requires c < TWO_32
    ensures |r| == 4
  {
    var r1 := c % 0x100_0000;
    var r2 := r1 % 0x1_0000;
    [c / 0x100_0000, r1 / 0x1_0000, r2 / 0x100, r2 % 0x100]
  }

  /** The count field reads back as the number written into it. */
  lemma CountRoundTrip(packFile: seq<byte>, c: nat)
    requires c < TWO_32 && |packFile| >= 20 && packFile[16..20] == BigEndianBytes(c)
    ensures ObjectCount(packFile) == c
  {
  }

  /** A pack whose count field says `c` and that reads through gives `c`
      objects. */
  lemma PackCount(packFile: seq<byte>, c: nat, inflate: Inflate)
    requires c < TWO_32 && |packFile| >= 20 && packFile[16..20] == BigEndianBytes(c)
    requires RawGitObjects(packFile, inflate).Ok?
    ensures |RawGitObjects(packFile, inflate).value.objects| == c
  {
    CountRoundTrip(packFile, c);
    UnpackLength(ReaderOf(packFile[20..], inflate), c);
  }
}
