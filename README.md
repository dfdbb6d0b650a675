# A verified model of the byte-level codecs of a small Git clone

This project models the core of a Git reimplementation written in JavaScript for Node: the codecs it uses to move objects between a pack file, the loose-object store under `.git/objects` and the working tree. The model is written in Dafny and its properties are proved by Dafny's verifier.

- **Pack files.** The model covers the varint object header, with the type in bits 4-6 and the size in 4 + 7k bits. It also covers the big-endian object count, the framing of whole objects and ref-deltas, and the reading of objects back to back (`Pack`, `Varint`).
- **Ref-delta instructions.** `decodeDelta` is modelled with its two size fields, insert and copy opcodes and the final target-size check (`Delta`). A reference encoder (`DeltaEncode`) serves as the decoder's partner: encoded deltas decode to their target.
- **Loose objects.** This covers the `"<kind> <len>\0"` header and the tree records `mode SP name NUL hash20`. It also covers the split of a stored object into kind, declared length and content, and the sharded path `objects/<2>/<38>`. Writing and reading objects, and turning pack objects into hashed loose objects, complete it (`Objects`).
- **Clone steps around the pack.** The model keys deltas by the hash of their base. It makes the single resolution pass over the deltas and finds the tree of a commit. It also scans the ref advertisement for the head (`Clone`).
- **The three tree listers.** These are `parseTreeObject` (`ParseGitTree`), `readTree` (`CatTree`) and `listTreeContent` with `sliceHash` (`AppMain`).
- **`commit-tree`.** The model covers the UTC offset text, the layout of the commit body, and the framed object written to the store (`Commit`).
- **`checkout`.** This is the recursive walk that materialises a tree under a base directory (`Checkout`).

Several shared pieces sit under these:

- **Node's `fs` and `path`.** `Fs` models them over a map from paths to files and directories. The class `Fs.FileSystem` is the file system that the methods change in place.
- **JavaScript primitives.** `Js` models the ones the program depends on, with their edge cases. Reading past the end of a Buffer gives `undefined`, which behaves as 0. Negative `slice` indices count from the end, and `indexOf` returns -1 when nothing is found. It also covers `split` and `join`, hex and decimal text, and the int32 `<<`.
- **Errors.** A thrown error is an `Err` carrying the error's message. A sequence of file-system calls that stops at a throw keeps what it already did (`Fs.Run`).
- **zlib's inflate and SHA-1.** Both are parameters. Loose objects are stored as their framed bytes, with deflate on write and unzip on read treated as a pair of inverse calls.

The model follows the code where the code is surprising:

- A copy opcode without size bytes copies nothing. Git's format reads that as 0x10000, but the source compares the mask, not the size, with 0x10000.
- The base-size field of a delta is read but never checked.
- The declared length in an object header is never compared with the content.
- Deltas against the same base replace one another when they are keyed.
- `resolveDeltaObjects` makes a single pass and always returns an empty result.
- In `readTree`, an empty name is skipped without moving past its NUL.
- A negative UTC offset that is not a whole number of hours is written one hour further west.
- `parseTreeObject` is not guaranteed to end on a payload missing a delimiter. One such payload never ends (see Findings); others end after pushing garbage entries.
- A tree entry's name is joined to the base directory unchecked, so a name such as `../x` writes outside it (see Findings).

## Model

| member | source | states |
|---|---|---|
| Js.Slice | app/modules/clone.js:345 | `slice` never gives more than the buffer holds; with indices inside the buffer it is exactly the bytes between them, and an end past the buffer stops at its end |
| Js.IndexOf | app/modules/utils.js:81-87 | `indexOf` returns -1 or a position at or after `from`, inside the buffer, that holds the value |
| Js.IndexOfFirst | app/modules/utils.js:81-87 | `indexOf` returns -1 only when the value does not occur from `from` on, and otherwise no earlier position from `from` holds it |
| Js.IndexOfAt | app/modules/utils.js:81-87 | the first position at or after `from` that holds the value is what `indexOf` returns |
| Js.Split | app/main.js:8 | `split` always gives at least one piece and no piece contains the separator |
| Js.JoinSplit | app/main.js:8-13 | joining the pieces of a split with the same separator gives back the original text |
| Js.SplitJoin | app/modules/catTree.js:43 | splitting a join whose pieces hold no separator gives back the pieces |
| Js.JoinTrailing | app/modules/catTree.js:45 | joining with an extra empty piece is the join followed by one separator |
| Js.TextOfBytes | app/modules/utils.js:83 | a Latin-1 string turned into a Buffer and back is unchanged |
| Js.BytesOfText | app/modules/utils.js:83 | bytes turned into text and back are unchanged |
| Js.DecimalRoundTrip | app/modules/utils.js:68 | the decimal text of a length reads back as that length |
| Js.Hex | app/modules/utils.js:92 | `toString("hex")` gives two lower-case hex digits per byte |
| Js.FromHex | app/modules/utils.js:113 | `Buffer.from(text, "hex")` gives at most one byte per two characters |
| Js.FromHexOfHex | app/modules/utils.js:113 | `Buffer.from(hex, "hex")` inverts `toString("hex")` on every byte sequence |
| Js.HexOfFromHex | app/modules/utils.js:92 | on even-length lower-case hex text, `toString("hex")` inverts `Buffer.from(hex, "hex")` |
| Js.FromHexLength | app/modules/utils.js:113 | even-length lower-case hex decodes to half as many bytes (40 digits to 20 bytes) |
| Js.ToInt32 | app/modules/clone.js:205 | the int32 wrap lies in [-2^31, 2^31), is congruent to its argument modulo 2^32 and is the identity on [0, 2^31) |
| Js.Signed32 | app/modules/clone.js:385 | an unsigned 32-bit value read as signed is negative exactly when it is 2^31 or more |
| Js.ShlExact | app/modules/clone.js:205 | `x << n` is the multiplication by 2^n while the product stays below 2^31 |
| Fs.PathJoinAll | app/modules/utils.js:53 | joining parts that are plain names (non-empty, not "." or "..", without "/") appends exactly those parts |
| Fs.PushPlain | app/modules/checkout.js:15 | a plain name, split at "/", adds exactly one component |
| Fs.JoinParent | app/modules/checkout.js:15 | `path.join` resolves a leading "../": joining `../c` to a directory gives `c` beside that directory, not under it |
| Fs.ReadFile | app/modules/utils.js:154 | `readFileSync` succeeds exactly on a file and gives its data |
| Fs.WriteFileEffect | app/modules/utils.js:20-23 | `writeFileSync` succeeds exactly when the path is not a directory and its parent is one; then the file reads back as the data, no other path changes, and a failure changes nothing |
| Fs.WriteFileTwice | app/modules/utils.js:20-23 | writing the same data twice leaves the tree of a single write |
| Fs.MkdirAllEffect | app/modules/utils.js:32-34 | a recursive `mkdirSync` that succeeds leaves the path a directory, keeps every existing entry, and adds only directories on the way to the path |
| Fs.ValidWriteFile | app/modules/utils.js:20-23 | a write keeps every entry inside a directory |
| Fs.ValidMkdir | app/modules/checkout.js:19 | a plain `mkdirSync` keeps every entry inside a directory |
| Fs.ValidMkdirAll | app/modules/utils.js:32-34 | a recursive `mkdirSync` keeps every entry inside a directory |
| Fs.FileSystem.WriteFileSync | app/modules/utils.js:20-23 | the new file system and the error are those of `WriteFile` on the old one |
| Fs.FileSystem.MkdirSync | app/modules/utils.js:32-34 | the new file system and the error are those of `MkdirAll` or `Mkdir` on the old one, as `recursive` says |
| Objects.HeaderLayout | app/modules/utils.js:68 | the header is the Latin-1 text `kind SP digits`, which holds no NUL byte, followed by one NUL |
| Objects.FramedSplit | app/modules/utils.js:158-162 | in NUL-free text followed by a NUL and content, the first NUL is the one after the text, and the two slices give back the text and the content |
| Objects.SplitFramed | app/modules/utils.js:158-162 | splitting `"<kind> <n>\0" + data` gives back the kind, the decimal `n` and the data, whatever `n` is: the length is never compared |
| Objects.CreateBlobContent | app/modules/utils.js:62-73 | only a missing argument is refused ("No data to be found"), an empty buffer is accepted, and the hash is the SHA-1 of the framed content |
| Objects.BlobReadsBack | app/modules/utils.js:62-73 | a blob's framed content splits back into "blob", its byte length in decimal and its data |
| Objects.CreateCommitContent | app/modules/utils.js:129-142 | only a missing argument is refused ("No commit to be found"), and the hash is the SHA-1 of the framed content |
| Objects.CommitReadsBack | app/modules/utils.js:129-142 | a commit's framed content splits back into "commit", its byte length and its body |
| Objects.ParseTreeEntries | app/modules/utils.js:76-100 | the loop returns the entries of the payload in stored order. Each mode runs to the next space, each name to the next NUL and each hash is the hex of up to 20 following bytes. A missing space or NUL ends the list |
| Objects.TreeStep | app/modules/utils.js:80-97 | once the space and the NUL are found, the list is the entry between them followed by the entries from 21 bytes past the NUL |
| Objects.EntryFields | app/modules/utils.js:81-92 | the mode, name and hash the loop slices out are the fields of that entry, and the hash is cut short where the data ends |
| Objects.ParseStep | app/modules/utils.js:81-96 | pushing the entry whose mode, name and hash the loop sliced out, and moving the cursor past its hash, keeps the list of entries still to be found |
| Objects.NoMoreEntries | app/modules/utils.js:80-87 | when the space or the NUL after the cursor is missing, the entries pushed so far are every entry of the tree |
| Objects.EntryLayout | app/modules/utils.js:109-115 | a record is the mode's bytes, a space, the name's bytes, a NUL and the raw bytes of the hash |
| Objects.FieldAt | app/modules/utils.js:81-88 | a field without the delimiter, followed by it, is where the scan for the delimiter stops and reads back as the field's text |
| Objects.HashAt | app/modules/utils.js:90-92 | 20 bytes holding a hash read back as its 40 hex digits |
| Objects.ModeParsed | app/modules/utils.js:81-83 | the scan for the space finds the end of a well-formed record's mode and reads the mode |
| Objects.NameParsed | app/modules/utils.js:85-88 | the scan for the NUL finds the end of the record's name and reads the name |
| Objects.HashParsed | app/modules/utils.js:90-92 | the 20 bytes after the NUL read back as the record's hash |
| Objects.RecordParsed | app/modules/utils.js:80-97 | the parse finds the delimiters of a well-formed record and reads its entry back, with the next record starting 21 bytes past its NUL |
| Objects.EntryAt | app/modules/utils.js:80-97 | a well-formed record at the head of the data is parsed back to its entry, and parsing goes on where the rest starts |
| Objects.RecordStep | app/modules/utils.js:80-97 | the entries from a well-formed record are that entry followed by the entries after the record |
| Objects.TreeEntriesOfEncoded | app/modules/utils.js:76-100 | parsing the encoding of well-formed entries, from where it starts in the data, gives the entries back |
| Objects.ParseEncoded | app/modules/utils.js:109-115 | `parseTreeEntries` inverts the record encoder of `createTreeContent` on well-formed entries |
| Objects.CreateTreeContent | app/modules/utils.js:102-126 | the hash returned is the SHA-1 of the framed tree |
| Objects.TreeReadsBack | app/modules/utils.js:102-126 | a tree object reads back as kind "tree", with the byte length of its records in the header; well-formed entries come back in order |
| Objects.TreeRoundTrip | app/modules/utils.js:103-115 | re-parse mode reproduces a well-formed payload after the `"tree <len>\0"` header |
| Objects.ObjectPath | app/modules/utils.js:50-54 | a hash is stored at `<base>/.git/objects/<first two digits>/<other 38>`, and the last two components spell the hash |
| Objects.FolderOfPath | app/modules/utils.js:16-17 | the shard directory is the parent of the object's path, and a different path |
| Objects.WriteObjectEffect | app/modules/utils.js:13-42 | a successful write stores the content at the object's path; the only other new entries are directories above it; no other existing entry changes |
| Objects.WriteObjectTwice | app/modules/utils.js:13-42 | writing the same object twice leaves the tree of a single write |
| Objects.ReadGitObject | app/modules/utils.js:144-169 | reading succeeds exactly when the object's file exists |
| Objects.ReadWritten | app/modules/utils.js:144-169 | an object written framed reads back as its kind, the decimal length and its data |
| Objects.WriteGitObject | app/modules/utils.js:13-42 | the new file system and error are those of `WriteObject`, and on success the name returned is the hash without its first two digits |
| Objects.ParseGitObject | app/modules/utils.js:178-190 | it succeeds exactly for "tree", "blob" and "commit". A delta is refused with its message. A success keeps the kind and the raw data, and its hash is the SHA-1 of the framed object |
| Objects.ParsedReadsBack | app/modules/utils.js:178-190 | a parsed object splits back under its own kind, and a blob or commit splits back into the data it came from |
| Objects.ErrorSticks | app/modules/utils.js:192-206 | the first parse error is the one thrown, and later objects do not change it |
| Objects.CollectStep | app/modules/utils.js:195-203 | an object that is not a delta either throws its parse error or is stored under its hash |
| Objects.ParseGitObjects | app/modules/utils.js:192-206 | the loop builds the dictionary of `Collected` over all objects |
| Objects.CollectedKeys | app/modules/utils.js:192-206 | the dictionary is built exactly when every non-delta object parses. Its keys are then the hashes of those objects, and each key holds the last object with that hash, so identical objects collapse into one entry |
| Varint.VarintLenStep | app/modules/clone.js:203-207 | a byte of 128 or more extends the run by one |
| Varint.VarintLenRun | app/modules/clone.js:203-207 | the run ends at the first byte below 128, every earlier byte is 128 or more, and it stays inside the buffer except for a single byte read past its end |
| Varint.GroupSumNext | app/modules/clone.js:205 | each continuation byte adds its low seven bits shifted seven places further than the previous one |
| Varint.GroupSumExact | app/modules/clone.js:205 | while the last shift stays below bit 31 the int32 sum is the base-128 value times 2^shift |
| Varint.GroupExact | app/modules/clone.js:205 | one seven-bit group shifted below bit 31 does not wrap |
| Varint.Leb128Len | app/modules/clone.js:203-207 | a number written in base 128 is read back with exactly its own length |
| Varint.Leb128Value | app/modules/clone.js:404-409 | the groups of a number written in base 128 add up to that number |
| Varint.Leb128Short | app/modules/clone.js:406 | a number below 2^(7k) takes at most k bytes |
| Varint.Leb128Sum | app/modules/clone.js:404-409 | a number written in base 128 decodes to itself times 2^shift whenever that product is below 2^31 |
| Varint.GroupSumBelow | app/modules/clone.js:205 | while the base-128 value times 2^shift stays below 2^31 the int32 sum of the groups is exactly that product, whatever the shift of the last group |
| Varint.ShlBelow | app/modules/clone.js:205 | `x << n` is the multiplication by 2^n whenever the product is below 2^31, a shift of 32 or more leaving only 0 |
| Pack.HeaderType | app/modules/clone.js:200 | the type is always in 0..7 |
| Pack.ParsePackObjectHeader | app/modules/clone.js:198-209 | the header takes the bytes up to the first one below 128. The type is bits 4-6 of the first byte. The size is the low four bits plus seven bits per continuation byte at shifts 4, 11, 18, ... |
| Pack.HeaderRoundTrip | app/modules/clone.js:198-209 | a header written by the reference encoder reads back with its own length, type and size, for every size below 2^31 |
| Pack.LongHeader | app/modules/clone.js:203-207 | a header with continuation bytes reads back the type of the first byte and the whole size |
| Pack.FirstByte | app/modules/clone.js:200-201 | the first byte of a long header carries the continuation bit, the type and the low four size bits |
| Pack.ContinuationSum | app/modules/clone.js:203-207 | the continuation bytes add the rest of the size, shifted past the first four bits |
| Pack.DecompressBound | app/modules/clone.js:220-248 | the inflation is accepted exactly when it succeeds and its output is empty or at most `size` bytes; it is then the inflater's result, a non-empty longer output is the "exceeds maximum output size" error, and an inflater error is passed on |
| Pack.EmptyInflation | app/modules/clone.js:226-239 | an empty inflation is accepted whatever the size, because the length test runs only when a chunk arrives |
| Pack.NegativeSizeHeader | app/modules/clone.js:198-209 | the header 0x90 0x80 0x80 0x80 0x40 takes five bytes, has type 1 and size -2^31: the group at shift 25 reaches bit 31 and `<<` wraps |
| Pack.EmptyCommitUnderNegativeSize | app/modules/clone.js:176-248 | an object with that header whose stream inflates to nothing is read as an empty commit, although its size is negative |
| Pack.ParsePackObject | app/modules/clone.js:176-196 | the method returns `PackObjectAt`, the object and the bytes it took |
| Pack.ReadObjectBody | app/modules/clone.js:184-195 | the statements after the header return `ObjectAfterHeader` |
| Pack.HeaderThen | app/modules/clone.js:183-184 | after an encoded header the object is read from right past the header, with the encoded type and size |
| Pack.DirectBody | app/modules/clone.js:187-189 | a whole object takes its header and the bytes its stream used, and holds the inflated data under the type's name |
| Pack.DirectObjectRoundTrip | app/modules/clone.js:176-189 | an encoded whole object is read back with its type's name and data, having consumed the header and the stream's bytes |
| Pack.DeltaBody | app/modules/clone.js:190-194 | a ref-delta takes its header, 20 bytes of base hash and its stream, and carries those 20 bytes as `ref` |
| Pack.DeltaTail | app/modules/clone.js:190-194 | the same, from where the header ends |
| Pack.DeltaObjectRoundTrip | app/modules/clone.js:176-195 | an encoded ref-delta is read back as a delta with its base hash and inflated data, having consumed the header, 20 and the stream's bytes |
| Pack.TypeFiveUndefined | app/modules/clone.js:187-196 | type 5 yields `undefined` |
| Pack.UnpackErrorSticks | app/modules/clone.js:122-126 | a failure stops the reading of the pack, whatever the count |
| Pack.UnpackNext | app/modules/clone.js:122-126 | an object read at the cursor is appended and the cursor moves by the bytes it took |
| Pack.UnpackStops | app/modules/clone.js:123 | an error, or the `undefined` of a type-5 object (which cannot be destructured), ends the reading with that error |
| Pack.GetRawGitObjects | app/modules/clone.js:115-133 | the method returns `RawGitObjects`: the count from bytes 16-19, that many objects read from byte 20 on, and the hex of the last 20 bytes |
| Pack.ReadPackObjects | app/modules/clone.js:120-126 | the loop reads `count` objects back to back, each where the previous one ended |
| Pack.UnpackLength | app/modules/clone.js:122-126 | a reading that succeeds yields as many objects as the count |
| Pack.RefOnDeltas | app/modules/clone.js:187-195 | an object has a `ref` exactly when it is a delta |
| Pack.PackReaderRefs | app/modules/clone.js:187-195 | every object the pack reader gives has a `ref` exactly when it is a delta |
| Pack.UnpackedRefs | app/modules/clone.js:122-126 | every object read from a pack has a `ref` exactly when it is a delta |
| Pack.CountRoundTrip | app/modules/clone.js:119 | four count bytes written big-endian read back as the count |
| Pack.PackCount | app/modules/clone.js:119-126 | a pack that reads through yields as many objects as its count field says |
| Delta.ParseSize | app/modules/clone.js:400-411 | the size takes the bytes up to the first one below 128 and adds their low seven bits at shifts 0, 7, 14, ... |
| Delta.ParseInsert | app/modules/clone.js:341-348 | an insert takes 1 + opcode bytes, and its literal is the opcode's number of following bytes, cut short at the end of the data (opcode 0: nothing, one byte) |
| Delta.WordBounds | app/modules/clone.js:383-391 | four offset bytes are below 2^32 and reach 2^31 exactly when the top byte is 128 or more; three size bytes are below 2^24 |
| Delta.ParseCopy | app/modules/clone.js:350-398 | the loops collect the operand bytes the mask selects and assemble them into `CopyAt`'s offset and size |
| Delta.OperandsNext | app/modules/clone.js:361-381 | a set flag takes the next byte and moves the read position, and a clear one contributes 0 |
| Delta.AssembleBytes | app/modules/clone.js:383-391 | the assembly loop sums `value << (8 * index)`: three bytes give their little-endian value, four the signed 32-bit one |
| Delta.ByteShifts | app/modules/clone.js:385 | the shifts by 0, 8 and 16 are exact multiplications |
| Delta.TopByteShift | app/modules/clone.js:385 | the shift by 24 wraps to a signed 32-bit value |
| Delta.Assemble3 | app/modules/clone.js:388-391 | three size bytes assemble without wrapping |
| Delta.Assemble4 | app/modules/clone.js:383-386 | four offset bytes assemble to their signed 32-bit reading |
| Delta.CopyAtBounds | app/modules/clone.js:350-398 | the offset is a signed 32-bit value, negative exactly when its fourth byte is 128 or more, and the size is below 2^24 |
| Delta.CopyLength | app/modules/clone.js:354-381 | a copy takes its opcode and one byte per set bit among bits 0-6, so 1 to 8 bytes |
| Delta.NoSizeBytes | app/modules/clone.js:357-391 | without size flags the size is 0 |
| Delta.ZeroSizeCopy | app/modules/clone.js:357-359 | a copy without size bytes has size 0, not 0x10000, and appends nothing |
| Delta.InsertStep | app/modules/clone.js:299-302 | an insert appends its literal and moves the cursor past it |
| Delta.CopyStep | app/modules/clone.js:312-316 | a copy appends its `slice` of the base and moves the cursor forward by at least one |
| Delta.InsertKeeps | app/modules/clone.js:299-302 | the decoding loop's account of the output survives an insert |
| Delta.CopyKeeps | app/modules/clone.js:312-316 | the decoding loop's account of the output survives a copy |
| Delta.DecodeDelta | app/modules/clone.js:275-339 | the method returns `DeltaResult`: the instructions' output when its length is the target size, and the "Wrong target size" error otherwise |
| Delta.RunInstructions | app/modules/clone.js:298-331 | the loop's output is the inserted literals and copied base slices, in order |
| DeltaEncode.OpcodeFlags7 | app/modules/clone.js:354-381 | the flags of an encoded copy's opcode are set exactly for its non-zero operand bytes |
| DeltaEncode.OpcodeBits | app/modules/clone.js:361-381 | bit k of the opcode, `(opcode >> k) & 1` as the decoder tests it, is whether operand byte k is sent |
| DeltaEncode.OperandsSent | app/modules/clone.js:361-381 | with flags set exactly for the non-zero bytes, and those bytes sent in order, the operands read back are all seven bytes, zero where a flag is clear |
| DeltaEncode.WordValue | app/modules/clone.js:383-386 | four assembled bytes are their little-endian value |
| DeltaEncode.Word3Value | app/modules/clone.js:388-391 | three assembled bytes are their little-endian value |
| DeltaEncode.LittleEndianRoundTrip | app/modules/clone.js:383-391 | bytes written little-endian read back as the number when it fits |
| DeltaEncode.CopyRoundTrip | app/modules/clone.js:350-398 | an encoded copy, whose opcode flags only its non-zero operand bytes, decodes to its own offset and size and takes exactly the bytes of its encoding |
| DeltaEncode.InsertEncoded | app/modules/clone.js:299-302 | an encoded literal is appended and skipped |
| DeltaEncode.CopyEncoded | app/modules/clone.js:312-316 | an encoded copy appends its slice of the base and skips its encoding |
| DeltaEncode.FirstEncoded | app/modules/clone.js:298-331 | the first encoded instruction appends its output and is skipped |
| DeltaEncode.OutputOfEncoded | app/modules/clone.js:298-331 | the instruction loop reproduces the target of encoded instructions |
| DeltaEncode.HeaderOfEncoded | app/modules/clone.js:280-294 | the instructions start right after the two size fields, and the target size reads back as the target's length |
| DeltaEncode.SizeField | app/modules/clone.js:400-411 | a size below 2^31 written in base 128 is read back with its own length and value |
| DeltaEncode.DecodeEncoded | app/modules/clone.js:275-339 | decoding an encoded delta against its base gives the target back, for every target below 2^31 |
| DeltaEncode.BaseSizeIgnored | app/modules/clone.js:280-286 | a delta whose base size says 0 still applies to a three-byte base: the base size is never checked |
| Clone.Put | app/modules/clone.js:110 | an assignment keeps the dictionary well formed and sets the value; a new key goes last and an existing key keeps its place |
| Clone.DeltasKeyedContents | app/modules/clone.js:108-111 | the keying fails exactly when a delta has no `ref`. Otherwise its keys are exactly the bases of the deltas, and each key holds the last delta against that base |
| Clone.DeltasKeyedOk | app/modules/clone.js:108-111 | the keying fails exactly when a delta has no `ref` |
| Clone.DeltasKeyedKeys | app/modules/clone.js:108-111 | the keys are exactly the hex hashes of the deltas' bases, each once |
| Clone.DeltasKeyedLast | app/modules/clone.js:108-111 | under each key is the last delta against that base |
| Clone.KeyedStepAt | app/modules/clone.js:110 | one more object replaces the value under its base's key when it is a delta, and leaves every other key as it was |
| Clone.KeyDeltas | app/modules/clone.js:109-111 | the `forEach` builds `DeltasKeyed` over all objects |
| Clone.KeyingErrorSticks | app/modules/clone.js:109-111 | a failed keying stays failed |
| Clone.GetParsedGitObjects | app/modules/clone.js:105-113 | the method returns `ParsedGitObjects`: the raw objects parsed, the deltas keyed and the checksum |
| Clone.ParsedPackKeyed | app/modules/clone.js:105-113 | once the pack reads through, the result is an error exactly when some non-delta object cannot be parsed; keying the deltas never fails |
| Clone.ResolveDelta | app/modules/clone.js:254-265 | one pass of the `try`: the new file system and what was caught are `ResolveOne` on the old one |
| Clone.ResolveDeltaObjects | app/modules/clone.js:250-273 | the keys are visited once, in order, the store becomes `Resolved`, and the result is always empty |
| Clone.MissingBase | app/modules/clone.js:254-265 | a delta whose base cannot be read changes nothing, and its read error is caught |
| Clone.ResolvedReadsBack | app/modules/clone.js:254-261 | a resolved delta is written so that it reads back under the base's kind, holding the decoded content (re-encoded for a tree); nothing else that was there changes |
| Clone.ResolvedStep | app/modules/clone.js:253-266 | the pass visits the keys in order, so a delta resolved earlier can be the base of a later one |
| Clone.FindTreeToCheckout | app/modules/clone.js:92-103 | it succeeds exactly on a stored commit, and any other stored kind is "Not a commit" |
| Clone.TreeOfStoredCommit | app/modules/clone.js:92-103 | the tree of a commit that `commitObject` stored is found again |
| Clone.TreeLine | app/modules/clone.js:100-101 | the second word of the first line of a body starting with the tree line is the tree hash |
| Clone.TreeWords | app/modules/clone.js:101 | the tree line splits into "tree" and the hash |
| Clone.Trim | app/modules/clone.js:155 | `trim` leaves no white space at either end |
| Clone.GetPackFileHash | app/modules/clone.js:141-160 | the loop returns `PackFileHash`, the scan that stops at the first wanted line |
| Clone.ScanFindsFirst | app/modules/clone.js:147-158 | the scan gives the head read off the first wanted line |
| Clone.ScanFindsNone | app/modules/clone.js:145-159 | without a wanted line the hash and the ref stay empty |
| Clone.AdvertisedLine | app/modules/clone.js:148-155 | a ref line of the master or main branch is wanted and gives its hash, without the four length digits, and its ref |
| Clone.BranchName | app/modules/clone.js:149-155 | the two branch names hold no space and are their own trim |
| Commit.PadStart | app/modules/createCommit.js:13-15 | `padStart` gives at least `n` characters and ends with the original text |
| Commit.TwoDigits | app/modules/createCommit.js:13-15 | a number below 100 padded to two characters is its tens digit then its units digit |
| Commit.OffsetReadsBack | app/modules/createCommit.js:7-17 | the sign is "-" exactly for a negative offset, and the minutes field is below 60. With fewer than 100 hours the text is five characters long. It reads back as the offset, except that a negative offset that is not a whole number of hours reads back one hour further west |
| Commit.OffsetDigits | app/modules/createCommit.js:10-11 | the hours `abs(floor(m/60))` and minutes `abs(m) % 60` give back the offset, or the offset less an hour in the negative non-whole case |
| Commit.NewfoundlandOffset | app/modules/createCommit.js:7-17 | -210 minutes is written "-0430" |
| Commit.SignatureLine | app/modules/createCommit.js:31-48 | the fixed identity, time and offset hold no newline |
| Commit.CommitLines | app/modules/createCommit.js:20-51 | read line by line, the body is the tree line, then a parent line exactly when a parent was given, then the author and committer lines with the same signature, an empty line and the message |
| Commit.ParentThen | app/modules/createCommit.js:22-27 | the parent line, when a parent is given, is one line of its own ahead of the rest of the body |
| Commit.SignedLines | app/modules/createCommit.js:29-51 | the author and committer lines differ only in their keyword |
| Commit.BodyBytes | app/modules/createCommit.js:20-51 | the buffers concatenated are the bytes of the body |
| Commit.CommitHeader | app/modules/createCommit.js:53 | the header written is the loose-object header for a commit |
| Commit.CommitContents | app/modules/createCommit.js:20-51 | the concatenations produce the bytes of `CommitBody` |
| Commit.CommitObject | app/modules/createCommit.js:19-74 | the hash is the SHA-1 of the framed body, and the store becomes `StoreCommit` of it |
| Commit.StoredCommitReadsBack | app/modules/createCommit.js:52-71 | a stored commit reads back as a commit of the body's length holding the body. No entry other than the object file changes, and the only other new entries are directories above it |
| Checkout.Checkout | app/modules/checkout.js:5-23 | the new file system and error are `CheckoutTree` on the old one |
| Checkout.CheckoutAll | app/modules/checkout.js:10-22 | the entries are parsed with `parseTreeEntries` and checked out in stored order |
| Checkout.EntriesStep | app/modules/checkout.js:11-22 | the walk is the first entry, then the rest unless the first threw |
| Checkout.CheckoutOne | app/modules/checkout.js:12-21 | one entry's effect is `CheckoutEntry` |
| Checkout.EntryPath | app/modules/checkout.js:15 | the path of an entry with a plain name is the base path followed by that name |
| Checkout.TreeConfined | app/modules/checkout.js:5-23 | a checkout whose entry names are all plain changes nothing outside the base path and creates entries only under it |
| Checkout.NoTreeUnchanged | app/modules/checkout.js:6-9 | without a tree to check out nothing changes |
| Checkout.TreeAsChecked | app/modules/checkout.js:5-23 | where every entry name is plain the walk as written does exactly what the checked walk does |
| Checkout.EntriesAsChecked | app/modules/checkout.js:11-22 | the same for the loop over the entries |
| Checkout.EntryAsChecked | app/modules/checkout.js:12-21 | the same for one entry |
| Checkout.CheckedTreeConfined | app/modules/checkout.js:5-23 | the walk that refuses a name that is not plain changes nothing outside the base path and creates entries only under it |
| Checkout.CheckedEntriesConfined | app/modules/checkout.js:11-22 | the checked loop over the entries stays under the base path |
| Checkout.CheckedEntryConfined | app/modules/checkout.js:12-21 | one checked entry stays under the base path |
| Checkout.ParentEscape | app/modules/checkout.js:12-15 | a file entry named `../x` under the directory `out` succeeds and writes the file `x` beside `out`, outside the base path |
| Checkout.ParentRefused | app/modules/checkout.js:12-15 | the checked walk refuses that entry and changes nothing |
| Checkout.FileEntryWritten | app/modules/checkout.js:12-15 | a "100644" entry with a plain name, in an existing directory, writes a file holding exactly the named object's content, whatever its kind |
| Checkout.ExistingFolder | app/modules/checkout.js:16-19 | a "40000" entry whose directory exists stops the walk with EEXIST and changes nothing |
| Checkout.OtherMode | app/modules/checkout.js:11-22 | an entry of any other mode changes nothing, in either walk |
| Checkout.NotATree | app/modules/checkout.js:6-9 | an object that is not a tree is refused with "Not a tree" before anything changes |
| CatTree.NamesFrom | app/modules/catTree.js:25-41 | every name collected is non-empty and holds no NUL |
| CatTree.NamesAfterSpace | app/modules/catTree.js:30-40 | every name collected after a space is non-empty and holds no NUL |
| CatTree.ReadTree | app/modules/catTree.js:6-49 | the method returns `CatTree`: the output or the error of `readTree` |
| CatTree.ScanStops | app/modules/catTree.js:28-33 | at a missing space or NUL the names found are all of them |
| CatTree.ScanStep | app/modules/catTree.js:27-39 | an empty name leaves the scan after the mode; a name is followed by the names after its 20-character hash |
| CatTree.SkipHash | app/modules/catTree.js:36-39 | the two slices leave the text after the hash |
| CatTree.NamesStep | app/modules/catTree.js:27-39 | the names are those past one space and the following NUL, in both cases of an empty name |
| CatTree.FramedText | app/modules/catTree.js:20-23 | the text of a stored object is its NUL-free header, a NUL, and the text of its data |
| CatTree.PayloadOfFramed | app/modules/catTree.js:22-23 | the text after the first NUL of a stored object is its data |
| CatTree.RecordNamed | app/modules/catTree.js:27-40 | a well-formed record with a name gives that name, and the scan goes on right after its hash |
| CatTree.AfterSpace | app/modules/catTree.js:27-30 | the scan passes the mode and its space |
| CatTree.NameThenHash | app/modules/catTree.js:32-40 | a name, its NUL and 20 characters give the name, and the scan goes on after them |
| CatTree.NamesOfEncoded | app/modules/catTree.js:25-41 | the payload of well-formed, named entries lists exactly their names, in order |
| CatTree.EmptyNameSkipped | app/modules/catTree.js:34-35 | an empty name is passed over only up to its NUL, so the next scan reads the NUL and the hash as the start of the next mode |
| CatTree.NoSpaceNoNames | app/modules/catTree.js:27-28 | text without a space lists nothing |
| CatTree.ResponseLines | app/modules/catTree.js:43-48 | the output is "No valid entries found" exactly when no name was found; otherwise its lines are the names followed by a final newline |
| CatTree.CatStoredTree | app/modules/catTree.js:6-49 | a stored tree of named entries prints its names one per line, each ended by a newline; an empty tree is an error |
| CatTree.CatStoredNames | app/modules/catTree.js:16-48 | a stored tree of well-formed, named entries is answered with its names |
| CatTree.CatStored | app/modules/catTree.js:16-48 | what is printed for a stored object is the response to the names in its payload |
| CatTree.CatMissing | app/modules/catTree.js:10-15 | without the object's file, `readTree` throws "Object path does not exist" |
| ParseGitTree.RenamedAt | app/modules/parseGitTree.js:25 | every entry keeps its place when `name` becomes `filename` |
| ParseGitTree.ParseTreeObject | app/modules/parseGitTree.js:4-29 | on a payload whose delimiters are all there, the loop as written returns the entries of `parseTreeEntries` in order, renamed; an empty payload gives none |
| ParseGitTree.SliceFields | app/modules/parseGitTree.js:12-25 | the mode, filename and hash the loop slices are those of the entry |
| ParseGitTree.DelimitedStep | app/modules/parseGitTree.js:11-18 | on a delimited payload the scans find the space and then the NUL, and the payload past the hash is still delimited |
| ParseGitTree.Advance | app/modules/parseGitTree.js:11-22 | one pass pushes the next entry and moves the cursor 21 bytes past the NUL |
| ParseGitTree.Found | app/modules/parseGitTree.js:11-22 | once both delimiters are found, the entry sliced out is the next one, followed by those after its hash |
| ParseGitTree.NextEntry | app/modules/parseGitTree.js:11-25 | the entry found, then the entries after its hash, are the entries from the cursor |
| ParseGitTree.EncodedDelimited | app/modules/parseGitTree.js:9-26 | a payload of well-formed records has all its delimiters |
| ParseGitTree.HeadDelimiters | app/modules/parseGitTree.js:11-18 | the delimiters of a well-formed record are found where it puts them |
| ParseGitTree.TreeObjectOfEncoded | app/modules/parseGitTree.js:4-29 | on a payload of well-formed entries the loop as written ends and gives them back, renamed |
| ParseGitTree.Step | app/modules/parseGitTree.js:11-22 | a pass that finds both delimiters leaves the cursor 21 past the NUL; a missing space sends the cursor to 21 past the payload's first NUL |
| ParseGitTree.StuckForever | app/modules/parseGitTree.js:11-18 | on a payload with a stray trailing byte the cursor comes back to that byte after every pass, inside the payload, so the loop never ends |
| ParseGitTree.StuckNotDelimited | app/modules/parseGitTree.js:11-18 | that payload is missing a delimiter |
| ParseGitTree.ParseTreeObjectGuarded | app/modules/parseGitTree.js:4-29 | with the checks of `parseTreeEntries` the loop ends on every payload and returns its entries, renamed |
| ParseGitTree.Kept | app/modules/parseGitTree.js:9-26 | one pass of the checked loop keeps its account of the entries |
| ParseGitTree.NoMore | app/modules/parseGitTree.js:9-26 | where a scan fails no entries are left to add |
| AppMain.SliceHash | app/main.js:1-3 | the result is one character longer than the hash, has a slash at index 2, and gives back the hash with that slash removed |
| AppMain.ListPathIsObjectPath | app/main.js:6-7 | for a full hash the path read is the object's sharded path |
| AppMain.ListTreeContent | app/main.js:5-14 | the method returns `ListTree`: the words after the first space of every NUL-separated piece but the first, joined by newlines |
| AppMain.WordsStep | app/main.js:10-12 | the loop pushes the word of one piece, then those of the pieces after it |
| AppMain.WordsOfRecords | app/main.js:8-12 | after the header, listable records give their names, then an empty word for the last hash |
| AppMain.RecordSplit | app/main.js:8 | the first record's piece runs to its NUL, and the next piece starts with its hash |
| AppMain.RecordPiece | app/main.js:11 | a record's piece holds no NUL and its word is the record's name |
| AppMain.ListStoredTree | app/main.js:5-14 | a stored tree of listable records prints its names, each followed by a newline |
| AppMain.ListAgreesWithCat | app/main.js:5-14 | for a full hash and a stored tree of listable, named entries without newlines, `listTreeContent` prints what `readTree` prints |

## Findings

| source | as written | input that shows it | evidently intended | confidence | as-written member | corrected member |
|---|---|---|---|---|---|---|
| app/modules/parseGitTree.js:11-18 | the results of `indexOf(' ', i)` and `indexOf('\0', i)` are not checked, so a missing delimiter sets the cursor to `-1 + 1 = 0` and the scan starts over | the payload "1 a", NUL, 20 zero bytes, "x": after the record the cursor is at "x", there is no space, the cursor goes back to 0, finds the record's NUL again and returns to "x", forever | stop at a missing delimiter, as `parseTreeEntries` does | not executed | ParseGitTree.StuckForever | ParseGitTree.ParseTreeObjectGuarded |
| app/modules/checkout.js:12-19 | the entry's name goes to `path.join(basePath, entry.name)` unchecked, and `path.join` resolves ".." | a tree with the file entry `100644 ../x` checked out into `out`: the blob is written to `x`, beside `out` | write only under the base directory, refusing a name that is not a plain component | not executed | Checkout.ParentEscape | Checkout.CheckedTreeConfined |

## Left out

- zlib is left out. `inflateWithLengthLimit` is a parameter of type `Pack.Inflate` that returns the data and the bytes it read. Loose objects are stored as their framed bytes: `deflateSync` on write and `unzipSync`/`inflateSync` on read are treated as inverse library calls.
- SHA-1 is a parameter (`Objects.Sha1`), not a hash function.
- The network (`getPackFile`, `getPackFileFromServer`, the `axios` calls) is left out. The pack and the ref advertisement are given as data.
- The async `clone` orchestration, `init`, `catFile`, `writeBlob` and `writeFolderAsTree` are not part of this model. They only sequence the core or repeat formats modelled here.
- Output is left out: `process.stdout.write` becomes the returned text or hash, and `console.log` and `logObjectHashes` are not modelled.
- The pack trailer is read (`Pack.RawPack.checkSum`) but never verified, as in the source.
- The clock is a parameter of `Commit.CommitObject`: `new Date()` becomes the offset in minutes and the text of the seconds. The floating-point formatting of `seconds` is not modelled.
- Text is Latin-1: `Buffer.toString()` and `Buffer.from(string)` map one byte to one character. This is exact for ASCII. The UTF-8 decoding and encoding of other characters is not modelled.
- `path.join` is modelled on paths as lists of components: "." and empty components are dropped, ".." removes the last component (or is kept at the start) and "/" separates components. The trailing separator that `path.join` keeps is not modelled. `path.resolve` is treated like `path.join`.
- The JavaScript call stack is a `depth` budget in `Checkout`. A nested call made with none left is a `RangeError`, and the engine's actual stack size is not modelled.
- `findTreeToCheckout` first assigns a slice after the NUL and then overwrites it. Only the second assignment is modelled, since the first has no effect.
- `readTree` slices the mode and the hash but never uses them. They are not kept.
- ParseGitTree.ParseTreeObject: requires that every scan finds its delimiter, because otherwise the loop as written is not guaranteed to end. `StuckPayload` never ends (see Findings); other payloads missing a delimiter end after pushing garbage entries, which are not modelled. ParseGitTree.ParseTreeObjectGuarded is the version defined on every payload.
- Pack.HeaderRoundTrip: holds for sizes below 2^31. From 2^31 on, JavaScript's 32-bit `<<` wraps, and Pack.NegativeSizeHeader shows what the code then reads.
- DeltaEncode.DecodeEncoded: holds for targets below 2^31, for the same reason.
- Checkout.TreeConfined: holds when every entry name the walk meets is a plain component. The walk as written escapes the base path otherwise (see Findings).
- CatTree.CatStoredTree: requires names without a newline, because the property reads the output back line by line.
- AppMain.ListAgreesWithCat: requires modes without a NUL, names without a space or newline, and hashes whose raw bytes include neither 0 nor 32. Otherwise the source's `split` cuts the records elsewhere, and `listTreeContent` and `readTree` then differ.
