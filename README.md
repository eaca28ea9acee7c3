# bufferlo.js in Dafny

A model of the `Bufferlo` class of bufferlo.js, with proofs about it. The model covers two versions of the class:

- `src/index.ts`, the current class, in module `Bufferlo`.
- The earlier class of the root `index.ts`, in module `EarlyBufferlo`.

A `Bufferlo` is a byte buffer of fixed capacity with four fields:

- a Node.js `Buffer`, which may be unset (`null`);
- a write cursor (`index`);
- a declared text encoding;
- a file-descriptor slot.

The class keeps the cursor and the capacity up to date around the Node `Buffer` primitives it calls. It also offers static conversions between decimal, binary, octal and hex numerals.

The modules, one file each:

- `common.dfy`, module `Common`: bytes, the three exceptions the class can raise (`TypeError`, `RangeError`, and the "Not enough memory available!" error of `append`), and the result wrappers that stand for a JavaScript `throw`.
- `numerals.dfy`, module `Numerals`: `decimalTo`, `binaryTo`, `hexTo` and `octalTo`, built from the two JavaScript built-ins they use.
  - `parseInt(string, radix)`, as in section 19.2.5 of ECMA-262: leading white space, one sign, the `0x` prefix in radix 16, the longest run of digits, NaN when there is none.
  - `Number.prototype.toString(radix)` on integers: lower-case digits with no leading zeros.
  - The main theorem: `parseInt` reads back every `decimalTo` rendering, NaN included. So each cross conversion gives the same result as converting the number directly.
- `text_codec.dfy`, module `TextCodec`: the Node string encodings the class passes to `Buffer.from`, `Buffer.byteLength` and `buf.write` (utf-8, ascii, latin1, utf16le and hex).
  - It proves that `Buffer.byteLength` counts the bytes `Buffer.from` produces.
  - It proves that hex encoding and decoding are inverse.
- `node_buffer.dfy`, module `NodeBuffer`: the Node `Buffer` primitives, as explicit loops over arrays.
  - The primitives are `write`, `copy`, `compare`/`Buffer.compare`, `indexOf` and `alloc`.
  - Each is proved against a function that states its result.
  - The argument checks follow Node 20.
- `bufferlo.dfy`, module `Bufferlo`: the class of `src/index.ts`, as a Dafny class over an `array?<Byte>` field.
- `early_bufferlo.dfy`, module `EarlyBufferlo`: the class of the root `index.ts`, kept separate. It behaves differently from the later class:
  - its `length` getter is not null-safe;
  - `equals` compares buffer references;
  - `clone` never succeeds;
  - it adds `bytesLeft` and `copyFromIndex`.
- `scenarios.dfy`, module `Scenarios`: the scenarios of `test/index.ts` as client methods of the model, with the outcomes the tests assert proved as postconditions. Some of the same scenarios are also stated against the earlier class, where its behaviour differs.

Where the code and the documentation disagree, the model follows the code:

- `ofArray` goes through the `buffer` setter, so its cursor stays at 0. It does not move to the end of the data.
- The constructor always encodes its content as UTF-8, whatever encoding it is given. The encoding argument is only stored.
- The test suite calls `allocBytes` and `allocBytesUnsafe`. In `src/index.ts` these are named `alloc` and `allocUnsafe`, and the scenarios use those names.

## Model

| member | source | states |
|---|---|---|
| Common.Clamp | src/index.ts:99-102 | `fixIndex`: the cursor moves into `[0, length]`. A cursor already in range is unchanged, a negative one goes to 0, and one past the end goes to the length. |
| Numerals.ParseInt | src/index.ts:37-41 | `parseInt(s, radix)` as `binaryTo`, `hexTo`, `octalTo` and `setBase` call it (also at lines 57-59, 73-75 and 105). A blank string is NaN. A negative result needs a `-` as the first character after the white space. Any number at all needs a digit of the radix somewhere in the string. |
| Numerals.DecimalTo | src/index.ts:16-25 | `decimalTo` gives `"NaN"` exactly for NaN. For an integer it gives a `-` exactly when the number is negative. After the sign come lower-case digits of the radix with no leading zero (except for 0), whose value is the magnitude. `Digits`, `DigitsValue` and `ParseIntInvertsDecimalTo` prove this. |
| Numerals.Render | src/index.ts:268-273 | `at` hands out a number exactly in format `'decimal'`, and then it is the byte itself. In any other format the string it hands out parses back, in that radix, to the byte. |
| Numerals.BinaryTo | src/index.ts:34-45 | `binaryTo` gives a number exactly for target `'decimal'`. Target `'binary'`, the `default` branch, returns the input string unchanged. Any other target parses the input in radix 2 and renders the number again in the target. A string result parses in the target radix to the same number as the input in radix 2. `CrossConversionsRerender` is the round trip. |
| Numerals.HexTo | src/index.ts:54-61 | `hexTo` parses its input in radix 16 and renders the number again in the target. A string result parses in the target radix to the same number. `CrossConversionsRerender` is the round trip. |
| Numerals.OctalTo | src/index.ts:70-77 | `octalTo` parses its input in radix 8 and renders the number again in the target. A string result parses in the target radix to the same number. `CrossConversionsRerender` is the round trip. |
| Numerals.DigitsValue | src/index.ts:16-25 | Reading the digits `toString(radix)` writes for `n`, in that radix, gives `n`. |
| Numerals.Digits | src/index.ts:16-25 | `toString(radix)` writes at least one digit, every digit is lower-case and valid in the radix, and a leading `0` only appears for 0 itself. |
| Numerals.TrimStartDropsWhiteSpace | src/index.ts:37 | The first step of `parseInt` drops exactly the leading white space. What remains is a suffix that does not start with white space. |
| Numerals.DigitPrefixIsLongestRun | src/index.ts:37 | `parseInt` reads the longest run of digits the string starts with. |
| Numerals.ParseIntInvertsDecimalTo | src/index.ts:16-25 | `parseInt(decimalTo(n, radix), radix) == n` for every integer `n` and for NaN. |
| Numerals.ParseIntOfNegatedDigits | src/index.ts:16-25 | `parseInt` reads `-` followed by the digits of `n` as `-n`. |
| Numerals.ParseIntOfDigitsOf | src/index.ts:16-25 | `parseInt` reads the digits of `n` as `n`. |
| Numerals.ParseIntOfNaN | src/index.ts:16-25 | The rendering `"NaN"` has no digit in radix 2, 8 or 16 and parses back to NaN in each of them. |
| Numerals.CrossConversionsRerender | src/index.ts:34-77 | `binaryTo`, `octalTo` and `hexTo` of a `decimalTo` rendering give the number back for target `'decimal'`. For any other target they give `decimalTo` of the number, and binary to binary gives the string unchanged. |
| Numerals.Uint8 | src/index.ts:509-511 | A store into the buffer keeps an integer modulo 256, so 0–255 are unchanged, and NaN stores 0. |
| Numerals.StoredRenderingIsByte | src/index.ts:104-106 | `setBase` of a byte's own `decimalTo` rendering stores that byte. |
| Numerals.BinaryOf97 | src/index.ts:16-25 | `decimalTo(97, 'binary')` is `"1100001"`. |
| Numerals.OctalOf97 | src/index.ts:16-25 | `decimalTo(97, 'octal')` is `"141"`. |
| Numerals.HexOf97 | src/index.ts:16-25 | `decimalTo(97, 'hex')` is `"61"`. |
| TextCodec.ByteLengthCountsEncodedBytes | src/index.ts:394-396 | `Buffer.byteLength`, which `fit` uses, counts over UTF-16 code units: for UTF-8, 1, 2 or 3 bytes per unit and 4 per surrogate pair. It is proved equal to the number of bytes `Buffer.from` makes in every text encoding. For hex it is an upper bound. |
| TextCodec.Utf8CountOfChar | src/index.ts:394-396 | The UTF-8 byte count of one character's code units equals the length of its UTF-8 encoding. |
| TextCodec.HexEncode | src/index.ts:563-565 | The hex rendering has two lower-case hex digits per byte. |
| TextCodec.HexRoundTrip | src/index.ts:438-442 | Decoding the hex rendering of any bytes gives the same bytes. |
| TextCodec.HexDecodeCanonical | src/index.ts:438-442 | Rendering the bytes of an even-length lower-case hex string gives the string back, and there is one byte per two digits. |
| TextCodec.CharCodeUnits | src/index.ts:394-396 | A character is one UTF-16 code unit below U+10000 and two above. |
| TextCodec.Utf8OfChar | src/index.ts:394-396 | A character is 1 to 4 UTF-8 bytes, and exactly 1 when it is ASCII. |
| NodeBuffer.From | src/index.ts:81 | `Buffer.from(bytes)` is fresh storage holding the bytes. |
| NodeBuffer.Alloc | src/index.ts:159-162 | `Buffer.alloc(size, fill)` is fresh storage of `size` bytes, all equal to `fill`. |
| NodeBuffer.Stored | src/index.ts:592 | Storing bytes at a position replaces exactly that range and keeps every other byte. |
| NodeBuffer.Store | src/index.ts:592 | The element-by-element store loop produces `Stored` of the old contents. |
| NodeBuffer.FitCount | src/index.ts:592 | The number of leading whole units that fit the room: they fit, and one more would not. |
| NodeBuffer.WrittenIsFittingPrefix | src/index.ts:592 | What `buf.write` stores is a prefix of the encoding and no longer than the room. When the whole encoding fits, it is all of it. |
| NodeBuffer.Write | src/index.ts:591-595 | `buf.write` raises a RangeError, with nothing changed, for an offset outside `[0, length]`. Otherwise it stores the fitting whole units at the offset and returns their byte count. |
| NodeBuffer.CopyCount | src/index.ts:336 | `buf.copy` raises a RangeError exactly for a negative position or a source start past the source end. Otherwise it counts `max(0, min(sourceEnd − sourceStart, room in target, bytes left in source))`, and the copied range stays inside both buffers. |
| NodeBuffer.Copy | src/index.ts:336 | The copy loop returns `CopyCount` and stores the old source range at the target start, with memmove semantics. Nothing changes when no byte is copied. |
| NodeBuffer.Ordering | src/index.ts:308-310 | `Buffer.compare` is −1, 0 or 1. |
| NodeBuffer.Compare | src/index.ts:308-310 | The byte scan returns the lexicographic `Ordering` of the two buffers. |
| NodeBuffer.OrderingZeroIffEqual | src/index.ts:383-385 | `compare` is 0 exactly when the two byte sequences are equal, which is what `equals` tests. |
| NodeBuffer.OrderingFirstDifference | src/index.ts:308-310 | When the bytes agree before position `k` and differ at `k`, `compare` is −1 if this buffer's byte at `k` is smaller and 1 if it is larger. |
| NodeBuffer.OrderingProperPrefix | src/index.ts:308-310 | A buffer whose bytes are a proper prefix of the other's compares as −1. |
| NodeBuffer.OrderingAntisymmetric | src/index.ts:308-310 | Swapping the operands of `compare` negates the result. |
| NodeBuffer.OrderingTransitive | src/index.ts:308-310 | `compare` orders transitively. |
| NodeBuffer.FirstIndexOf | src/index.ts:487-488 | `indexOf(0)` is the first position holding the byte, with none before it. It is −1 exactly when the byte is absent. |
| NodeBuffer.IndexOf | src/index.ts:487-488 | The scan loop returns `FirstIndexOf`. |
| Bufferlo.Bufferlo.Length | src/index.ts:145-147 | The `length` getter is 0 while no buffer is set, and otherwise the buffer's length. It never throws. |
| Bufferlo.Bufferlo.Available | src/index.ts:254-256 | `available()` plus the cursor is the length. It is never an error, and it is 0 for a new instance with no buffer. |
| Bufferlo.Bufferlo.Fit | src/index.ts:394-396 | In every text encoding, `fit` holds exactly when all of the bytes `Buffer.from` makes fit in `available()`. In hex, the decoded bytes fit whenever `fit` holds. |
| Bufferlo.Bufferlo.IsEmpty | src/index.ts:458-460 | `isEmpty` holds exactly when everything is available. It holds after every allocation, after `moveIndex('start')`, and for a new instance with no content. |
| Bufferlo.Bufferlo.IsFull | src/index.ts:467-469 | `isFull` holds exactly when the cursor is at the end. |
| Bufferlo.Bufferlo.Bytes | src/index.ts:145-147 | The bytes held number `length` bytes, and `length` is 0 while no buffer is set. |
| Bufferlo.Bufferlo.constructor | src/index.ts:91-97 | Non-empty content becomes fresh UTF-8 storage with the cursor at its end, so the buffer is full. Empty content leaves the buffer unset with the cursor at 0. The encoding is stored and `fd` is 0. |
| Bufferlo.Bufferlo.OfArray | src/index.ts:79-83 | A fresh instance whose buffer holds each element modulo 256. The cursor is 0. |
| Bufferlo.Bufferlo.SetBuffer | src/index.ts:112-115 | The `buffer` setter assigns the buffer and clamps the cursor into `[0, length]`. |
| Bufferlo.Bufferlo.SetIndex | src/index.ts:141-143 | The `index` setter stores any integer and changes nothing else. |
| Bufferlo.Bufferlo.Alloc | src/index.ts:159-162 | A negative size is a RangeError with nothing changed. Otherwise: fresh storage of `size` bytes, each the fill modulo 256, and the cursor at 0. |
| Bufferlo.Bufferlo.AllocKiloBytes | src/index.ts:182-184 | The same as `Alloc`, with length `1024·size`. |
| Bufferlo.Bufferlo.AllocMegaBytes | src/index.ts:203-205 | The same as `Alloc`, with length `1048576·size`. |
| Bufferlo.Bufferlo.AllocUnsafe | src/index.ts:171-174 | A RangeError for a negative size. Otherwise fresh storage of `size` bytes with unspecified contents, and the cursor at 0. |
| Bufferlo.Bufferlo.AllocKiloBytesUnsafe | src/index.ts:193-195 | `AllocUnsafe` with length `1024·size`. |
| Bufferlo.Bufferlo.AllocMegaBytesUnsafe | src/index.ts:214-216 | `AllocUnsafe` with length `1048576·size`. |
| Bufferlo.Bufferlo.Write | src/index.ts:591-595 | A TypeError with no buffer, and a RangeError with nothing changed for an offset outside `[0, length]`. Otherwise the fitting whole units are stored at the offset, their count is returned, the cursor moves to `offset + count`, and `available()` is `length − offset − count`. |
| Bufferlo.Bufferlo.Append | src/index.ts:225-228 | "Not enough memory available!" exactly when `fit` fails, and then nothing changes. With a non-negative cursor and a set buffer, all of the encoding is stored at the cursor and the cursor advances past it. For text encodings the count is `Buffer.byteLength` and `available()` drops by that amount. The remaining outcomes are a TypeError for an unset buffer and a RangeError for a negative cursor. |
| Bufferlo.Bufferlo.At | src/index.ts:265-274 | Byte `i` for `0 ≤ i < length` and byte `length + i` for `−length ≤ i < 0`, rendered by `decimalTo` for a non-decimal format. Nothing for `i ≥ length`. Further below, `undefined` from a set buffer in decimal format, and a TypeError otherwise. |
| Bufferlo.Bufferlo.Store | src/index.ts:104-106 | A typed-array store: at a position inside the buffer the value is kept modulo 256, and `at` then reads it back. Every other position, and any position outside, is left unchanged. A TypeError while no buffer is set. |
| Bufferlo.Bufferlo.Set | src/index.ts:509-511 | `set(i, v)` stores `v mod 256` at an in-range `i`, which `at(i)` then reads, and changes no other byte. An out-of-range `i` changes nothing. |
| Bufferlo.Bufferlo.SetBase | src/index.ts:104-106 | Stores `ToUint8(parseInt(text, radix))` at an in-range position and changes nothing else. |
| Bufferlo.Bufferlo.SetBinary | src/index.ts:519-521 | `SetBase` in radix 2. |
| Bufferlo.Bufferlo.SetHex | src/index.ts:529-531 | `SetBase` in radix 16. |
| Bufferlo.Bufferlo.SetOctal | src/index.ts:539-541 | `SetBase` in radix 8. |
| Bufferlo.Bufferlo.Copy | src/index.ts:330-337 | A TypeError when either buffer is unset. Otherwise the `CopyCount` result. Only the target's bytes change: the old source range lands at `targetStart`, and the source's bytes stay the same unless the target is the source. No cursor moves. |
| Bufferlo.Bufferlo.CopyToIndex | src/index.ts:347-349 | `Copy` with the target's cursor as `targetStart`. |
| Bufferlo.Bufferlo.Clone | src/index.ts:281-288 | A TypeError while no buffer is set. Otherwise a fresh instance over fresh storage with the same bytes, encoding and cursor, and `fd` 0. |
| Bufferlo.Bufferlo.Compare | src/index.ts:308-310 | A TypeError when either buffer is unset, otherwise the lexicographic `Ordering` of the bytes. |
| Bufferlo.Bufferlo.Equals | src/index.ts:383-385 | True exactly when the bytes are equal, which is exactly when `compare` gives 0. A TypeError when either buffer is unset. |
| Bufferlo.Bufferlo.Concat | src/index.ts:317-319 | Fresh storage holding the old bytes followed by those of every listed buffer, in order, with the cursor clamped. A TypeError, with nothing changed, when any of the buffers is unset. |
| Bufferlo.JoinContents | src/index.ts:317-319 | The buffers `list.map(b => b.buffer)` hands to `Buffer.concat`: their bytes in order, and nothing exactly when one of them is unset. |
| Bufferlo.Bufferlo.Extend | src/index.ts:373-375 | Fresh storage holding the old bytes followed by `size` zero bytes, with the cursor clamped. A RangeError for a negative size comes before the TypeError for an unset buffer. |
| Bufferlo.Bufferlo.MoveIndex | src/index.ts:476-491 | `'start'` moves the cursor to 0, `'center'` to `⌊length/2⌋`, and `'end'` to `max(0, length − 1)`. `'empty'` moves it to the first zero byte, or to −1 exactly when there is none, and is a TypeError while no buffer is set. |
| Bufferlo.Bufferlo.FromAscii | src/index.ts:403-407 | The encoding becomes ascii and the buffer becomes the ascii bytes of the content, with the cursor at the end, so the buffer is full. |
| Bufferlo.Bufferlo.FromHex | src/index.ts:438-442 | The encoding becomes hex and the buffer becomes the decoded bytes, with the cursor at the end. `toHex` then gives back any even-length lower-case hex content. |
| Bufferlo.Bufferlo.ToHex | src/index.ts:563-565 | Two lower-case hex digits per byte, which decode back to the buffer's bytes. A TypeError while no buffer is set. |
| EarlyBufferlo.Bufferlo.Length | index.ts:55-57 | `length` is a TypeError exactly when no buffer is set, and otherwise the number of bytes. |
| EarlyBufferlo.Bufferlo.Available | index.ts:87-89 | `length − index`, and a TypeError while no buffer is set. |
| EarlyBufferlo.Bufferlo.Fit | index.ts:147-149 | `Buffer.byteLength(content) ≤ length − index`, and a TypeError while no buffer is set. |
| EarlyBufferlo.Bufferlo.IsEmpty | index.ts:159-161 | `isEmpty` holds exactly when the cursor is 0. It does not read the length, so it is no error while no buffer is set. With a buffer it holds exactly when everything is available, and it holds after every allocation. |
| EarlyBufferlo.Bufferlo.IsFull | index.ts:163-165 | The cursor is at the end, and a TypeError while no buffer is set. |
| EarlyBufferlo.Bufferlo.constructor | index.ts:9-15 | A copy of the argument when it is a buffer, otherwise unset. The cursor and `fd` are 0. |
| EarlyBufferlo.Bufferlo.SetBuffer | index.ts:17-29 | Assigns the buffer. A negative cursor goes to 0, and a cursor past the end goes to the length. With an unset buffer the length check is a TypeError. |
| EarlyBufferlo.Bufferlo.SetIndex | index.ts:51-53 | The `index` setter stores any integer. |
| EarlyBufferlo.Bufferlo.AllocBytes | index.ts:67-70 | A RangeError for a negative size. Otherwise fresh storage of `n` bytes, each the fill modulo 256, and the cursor at 0. |
| EarlyBufferlo.Bufferlo.AllocKiloBytes | index.ts:72-75 | `AllocBytes` with length `1024·n`. |
| EarlyBufferlo.Bufferlo.AllocMegaBytes | index.ts:77-80 | `AllocBytes` with length `1048576·n`. |
| EarlyBufferlo.Bufferlo.Write | index.ts:191-195 | The same stores, count and cursor as the later `write`, with the same errors. |
| EarlyBufferlo.Bufferlo.Append | index.ts:82-85 | The `fit` check comes first, so an unset buffer is a TypeError. "Not enough memory available!" when the content does not fit. Otherwise all of the encoding is stored at the cursor and the cursor advances past it. |
| EarlyBufferlo.Bufferlo.BytesLeft | index.ts:91-93 | The length less the position of the first zero byte, so the byte at `length − result` is zero. It is `length + 1` when there is no zero byte. A TypeError while no buffer is set. |
| EarlyBufferlo.Bufferlo.Clone | index.ts:95-101 | Every call is a TypeError. |
| EarlyBufferlo.Bufferlo.Compare | index.ts:108-110 | A TypeError when either buffer is unset, otherwise the lexicographic `Ordering`. |
| EarlyBufferlo.Bufferlo.Equals | index.ts:143-145 | True exactly when both instances hold the same buffer object, so two unset instances are equal and an unset one never equals a set one. Same buffer implies equal bytes, but not conversely. |
| EarlyBufferlo.Bufferlo.Concat | index.ts:112-114 | Fresh storage holding the old bytes followed by every listed buffer's bytes, with the cursor clamped. A TypeError, with nothing changed, for any unset buffer. |
| EarlyBufferlo.JoinContents | index.ts:112-114 | The same collection of the listed buffers' bytes for the earlier `concat`: their bytes in order, and nothing exactly when one of them is unset. |
| EarlyBufferlo.Bufferlo.Copy | index.ts:116-123 | The `CopyCount` result, with the old source range stored at `targetStart`. A TypeError for an unset buffer. |
| EarlyBufferlo.Bufferlo.CopyFromIndex | index.ts:125-127 | Copies this buffer from its cursor to its end to the target's cursor, and returns `min(bytes after the cursor, room in the target)`. A RangeError for a negative cursor or a source cursor past the end. Neither cursor moves. |
| EarlyBufferlo.Bufferlo.Extend | index.ts:139-141 | Fresh storage with the old bytes followed by `n` zero bytes, and the cursor clamped. A RangeError for a negative `n` comes before the TypeError for an unset buffer. |
| EarlyBufferlo.Bufferlo.FromUtf8 | index.ts:151-153 | The buffer becomes the UTF-8 bytes of the content. The cursor is not reset, only clamped into `[0, length]`. |
| Scenarios.OneByte | test/index.ts:53-61 | A character below U+0080 is one UTF-8 byte, its code. |
| Scenarios.Prepared | test/index.ts:53-61 | Allocating `size` zero bytes and then appending ASCII letters one at a time leaves the letters at the front, zeros after them, and the cursor after the last letter. |
| Scenarios.EmptyInitialization | test/index.ts:7-13 | A new instance has no buffer, encoding utf-8, cursor 0 and `fd` 0. |
| Scenarios.Allocation | test/index.ts:15-51 | Six allocations, each on a new instance: `alloc(1)`, `allocUnsafe(1)`, `allocKiloBytes(1)`, `allocKiloBytesUnsafe(1)`, `allocMegaBytes(1)` and `allocMegaBytesUnsafe(1)`. They give lengths 1, 1, 1024, 1024, 1048576 and 1048576, each with the cursor at 0. |
| Scenarios.EmptyThenFull | src/index.ts:458-469 | A three-byte buffer is empty and not full after allocation, and full and not empty after three letters are appended. |
| Scenarios.AppendUntilFull | test/index.ts:53-61 | Three letters fill three bytes with the cursor at 3, and a fourth letter is "Not enough memory available!". |
| Scenarios.AvailableAfterAppend | test/index.ts:63-70 | `available()` is 0 with no buffer, 4 after allocating four bytes, and 3 after appending a letter. |
| Scenarios.AtAfterAppend | test/index.ts:72-81 | `at(0)`, `at(1)` and `at(2)` read the appended letters back as 97, 98 and 99, `at(-1)` gives 99, `at(3)` gives nothing, and `at(0, 'binary')` gives `"1100001"`. |
| Scenarios.CloneEquals | test/index.ts:83-93 | A clone equals its original and has the same encoding and cursor. |
| Scenarios.CompareLetters | test/index.ts:103-122 | `compare` gives 0 for "a" against "a", −1 for "a" against "b", and 1 for "c" against "a". |
| Scenarios.ConcatLetters | test/index.ts:124-142 | Concatenating "a", "b" and "c" gives three bytes, 97 98 99. |
| Scenarios.CopyWhole | test/index.ts:144-158 | A full copy of "abcd" into four zero bytes gives 97 98 99 100. |
| Scenarios.CopyPart | test/index.ts:160-166 | Copying `(1, 2, 4)` from "abcd" into four zero bytes gives 0 99 100 0. |
| Scenarios.CopyToCursor | test/index.ts:169-183 | `copyToIndex(t, 0, 2)` with the target cursor at 1 gives 0 97 98. |
| Scenarios.ExtendKeepsBytes | test/index.ts:185-194 | Extending by 12 gives length 16 with the letters kept. |
| Scenarios.EqualsLetters | test/index.ts:196-211 | Two "a" buffers are equal, and "a" and "b" are not. |
| Scenarios.FitOneByte | test/index.ts:213-218 | One letter fits one byte and two letters do not. |
| Scenarios.SetBinaryRoundTrip | src/index.ts:519-521 | `setBinary(0, "1100001")` followed by `at(0, 'binary')` reads `"1100001"` back. |
| Scenarios.EarlyOf | index.ts:9-15 | The earlier constructor given a buffer holds a copy of its bytes, with the cursor at 0. |
| Scenarios.EarlyEqualsIgnoresBytes | index.ts:143-145 | Two earlier instances holding the same byte are not `equals`. |
| Scenarios.EarlyEqualsUnset | index.ts:143-145 | Two new earlier instances, both unset, are `equals`, and an unset one is not equal to one holding a byte. |
| Scenarios.EarlyCloneFails | index.ts:95-101 | The earlier `clone` of a filled instance is a TypeError. |
| Scenarios.EarlyAvailableUnset | index.ts:87-89 | The earlier `available()` of a new instance is a TypeError. |
| Scenarios.EarlyBytesLeft | index.ts:91-93 | `bytesLeft` is 2 for `a 0 0` and 4 for `a b c`. |

## Left out

- File I/O: `openFile`, `closeFile`, `fromFile`, `fromFileSync`, `writeToFile`, `writeToFileSync`, `appendToFile`, `appendToFileSync`, `copyToFile`, and the earlier `loadFromFile`/`loadFromFileSync`. These are Node `fs` calls with callbacks. The `fd` field is kept and every modelled operation preserves it.
- Numerals.ParseInt: `parseInt` returns a double, so in the program a value past 2^53 is rounded, and a digit string worth more than about 2^1024 gives Infinity. In the model the value stays exact. The same gap applies to `BinaryTo`, `HexTo`, `OctalTo`, `Bufferlo.Bufferlo.SetBase`, `SetBinary`, `SetHex` and `SetOctal`. For example, `setBinary(0, "1"×60)` stores 0 in the program but 255 in the model.
- `toDecimal`, `toBinary` and `toOctal` parse the whole hex rendering into a double. That is floating point, which loses precision past 2^53, and it is not modelled. Numbers in the model are integers or NaN.
- The base64 and other Node codecs, `toString`/`toUtf8`/`toAscii`, and a string or `Buffer` `fill` argument to `alloc` are not modelled. Fills are numbers only, reduced modulo 256 as Node does for an integer fill.
- Views and protocols are not modelled: `toView`, `toUint8Array`, `toArray`, `toJSON`, `slice`, the iterator, `ofArrayBuffer`, and the `byteLength`, `encoding` and `fd` accessors. `isBuffer` appears only as a null check.
- Non-integer or non-number arguments, lone surrogates in strings, and the `kMaxLength` allocation limit are not modelled.
- The demo script at the end of `index.ts` is left out.
- `Bufferlo.Bufferlo.constructor` takes the content as a string only. A non-string content is not modelled.
- `NodeBuffer.Write` follows Node 20's argument checks and its rule that only whole characters are written. Other Node versions are not modelled.
- `TextCodec.ByteLengthCountsEncodedBytes`: for hex, `Buffer.byteLength` is half the string length, while decoding stops at the first invalid pair. The lemma therefore states only an upper bound for hex.

## Findings

| source | as written | input that shows it | evidently intended | confidence | as-written member | corrected member |
|---|---|---|---|---|---|---|
| index.ts:143-145 | `equals` compares the two buffer references | two instances each holding a copy of the single byte 97 | equal when the bytes are equal, as test/index.ts:196-211 expects and src/index.ts:383-385 does | not executed | Scenarios.EarlyEqualsIgnoresBytes | Bufferlo.Bufferlo.Equals |
| index.ts:95-101 | `clone` calls `set` on the unset buffer of a fresh instance | any instance holding bytes, for example `a b 0` | a copy with the same bytes, encoding and cursor, as test/index.ts:83-93 expects and src/index.ts:281-288 does | not executed | Scenarios.EarlyCloneFails | Bufferlo.Bufferlo.Clone |
| index.ts:55-57 | `length` reads `buffer.length` without checking for `null`, so `available()` throws | a new instance with no buffer | `available()` is 0, as test/index.ts:63-70 expects and src/index.ts:145-147 does | not executed | Scenarios.EarlyAvailableUnset | Scenarios.AvailableAfterAppend |
