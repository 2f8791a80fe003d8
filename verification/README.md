# Skein byte buffer, modelled in Dafny

`skein.js` defines `Skein`, a fixed-capacity byte buffer with a cursor in the style of Java NIO's
`ByteBuffer`. A skein holds a Node `Buffer` (the storage), a `position`, a `limit`, a `mark` and a byte
`order`. It has:

- checked single-byte, integer, float and double reads and writes that advance the position;
- bulk writes from arrays, buffers and other skeins;
- cursor resets (`clear`, `flip`, `rewind`, `mark`, `reset`, `skip`) and `compact`;
- `cut` and `duplicate`, which make new cursors over the same storage;
- construction from a size, an existing buffer, an array of values or a hex string (`wrap`);
- `toHexString`, a 16-bytes-per-row dump built with the helper `__utils.itoa`.

The model has five files:

- `wrappers.dfy` (`Wrappers`): `Option`, and the `Outcome`/`Result` values that replace the exceptions
  the source throws. `BufferOverflow` is the source's own `"Buffer overflow"`. `OutOfRange` is the
  `RangeError` Node's Buffer raises for a bad width or a value that does not fit. `StackExhausted` is the
  engine's error for unbounded recursion.
- `codec.dfy` (`ByteCodec`): the byte images Node's `readUIntBE/LE`, `writeUIntBE/LE`, `readIntBE/LE`
  and `writeIntBE/LE` produce. They are pure functions on `seq<Byte>`, one branch per `Order`. Alongside
  them are the round-trip and byte-reversal lemmas.
- `hex.dfy` (`HexText`): the default filter of `wrap` and Node's hex decoding, `itoa` (a loop), and a
  functional specification of the `toHexString` dump with the lemmas its loop needs.
- `skein.dfy` (`Skeins`): class `Skein`. Its fields are `buf: array<Byte>` (shared between cursors),
  `position`, `limit`, `mark` and `order`. Every operation that changes state is a method whose
  `modifies` clause names exactly the fields and the array it touches. The invariant
  `Valid()` is `position <= limit <= capacity && mark <= limit`.
- `scenarios.dfy` (`SkeinScenarios`): the behaviours the unit tests check, whole-object round trips,
  aliasing between cuts, and the inputs behind the findings below.

Failures are values. A method that returns `Fail`/`Err` has changed nothing, as the source's throw
happens before any change, except where a row below says otherwise.

## Model

| member | source | states |
|---|---|---|
| ByteCodec.EncodeUInt | skein.js:228-251 | the image of a value in either order has exactly the requested number of bytes |
| ByteCodec.DecodeUInt | skein.js:148-155 | reading n bytes in either order yields an unsigned value below 256^n |
| ByteCodec.TwosComplement | skein.js:122-127 | a signed value in range has an unsigned image in the unsigned range of the same width |
| ByteCodec.EncodeInt | skein.js:235-247 | writeIntLE/BE's n-byte image of a signed value: the unsigned image of its two's complement, n bytes long |
| ByteCodec.DecodeInt | skein.js:129-136 | reading n bytes as signed yields a value in the two's-complement range of n bytes |
| ByteCodec.LERoundTrip | skein.js:230-236 | decoding the little-endian image of v (v below 256^n) gives v |
| ByteCodec.LEBytesRoundTrip | skein.js:230-236 | every little-endian byte sequence is the image of the value it decodes to |
| ByteCodec.BEIsReversedLE | skein.js:242-248 | the big-endian image of a value is its little-endian image reversed |
| ByteCodec.BEReadsReversed | skein.js:242-248 | reading bytes big-endian equals reading them reversed little-endian |
| ByteCodec.UIntRoundTrip | skein.js:141-155 | getUInt(n) after putUInt(v, n) at the same place and order returns v, for 0 <= v < 256^n |
| ByteCodec.UIntBytesRoundTrip | skein.js:141-155 | re-encoding what getUInt read rebuilds the same bytes: decoding loses nothing |
| ByteCodec.OrderSymmetry | skein.js:228-251 | the big- and little-endian images of a value are byte reversals of each other, both ways |
| ByteCodec.DecodeOrderSymmetry | skein.js:228-251 | the same bytes read in the other order give the value of the reversed bytes, both ways |
| ByteCodec.IntRoundTrip | skein.js:122-136 | getInt(n) after putInt(v, n) returns v for every v in the signed range of n bytes |
| ByteCodec.IntBytesRoundTrip | skein.js:122-136 | re-encoding the signed value getInt read rebuilds the same bytes |
| HexText.HexFilter | skein.js:88 | the default separator leaves only hex digits, and never more characters than it was given |
| HexText.HexFilterKeepsDigits | skein.js:88 | a string made only of hex digits passes the filter unchanged |
| HexText.HexFilterDropsSeparators | skein.js:88 | a string with no hex digit is removed entirely |
| HexText.HexFilterAppend | skein.js:88 | filtering works piece by piece: filter(a + b) = filter(a) + filter(b) |
| HexText.HexFilterIdempotent | skein.js:88 | filtering twice is filtering once |
| HexText.HexDecode | skein.js:89 | hex decoding makes one byte per pair of digits (an odd last digit is dropped), each byte being 16 times the first digit plus the second |
| HexText.HexDecodeAppend | skein.js:89 | decoding an even-length run of digits followed by more digits decodes each part separately |
| HexText.Digit | skein.js:19 | the `__ascii` entry for n is an upper-case hex digit whose value is n |
| HexText.Digits | skein.js:29-40 | the numeral itoa builds is non-empty and all upper-case hex digits |
| HexText.DigitsDenote | skein.js:29-40 | that numeral denotes the number and has no leading zero |
| HexText.Itoa | skein.js:22-43 | with no size, or a size at least the numeral's length, itoa returns the numeral padded on the left to the size; with a smaller positive size it returns the numeral's low sz digits, unpadded |
| HexText.PadStart | skein.js:37 | padStart: a string shorter than sz gets the pad character in front until it is sz long and keeps its own characters at the end; otherwise, or with no pad, it is unchanged |
| HexText.DigitsOfByte | skein.js:22-43 | a byte's numeral has one digit below 16 and two digits from 16 on |
| HexText.ItoaPadsByte | skein.js:333 | itoa(b, 2, '0') never truncates a byte and pads it to its two-digit image |
| HexText.DecodePair | skein.js:89 | two hex digits decode to the single byte 16 * high digit + low digit |
| HexText.HexByteDecodes | skein.js:333 | the two-digit image of a byte is two upper-case digits that hex-decode to that byte |
| HexText.ItoaOfByte | skein.js:333 | itoa(b, 2, '0') is exactly two upper-case hex digits for every byte, and they decode back to b |
| HexText.HexColumn | skein.js:333 | the hex column holds three characters per byte |
| HexText.TextColumn | skein.js:334 | the text column holds, for each byte, the byte itself when it is printable ASCII (0x20..0x7E) and '.' otherwise |
| HexText.Blanks | skein.js:346 | the padding of a short row is three spaces per missing cell |
| HexText.Line | skein.js:336-348 | the definition of one dump line: the hex column padded to 16 cells, a tab, the text column and a newline; LineLength, LineShape and FullLineShape state its properties |
| HexText.HexDump | skein.js:322-351 | the definition of the dump toHexString returns: one line per 16 bytes, the last possibly short; HexDumpLength, HexDumpAppendRow and ToHexString state its properties |
| HexText.LineLength | skein.js:336-348 | every dump line is 50 characters plus one per byte in it |
| HexText.HexDumpLength | skein.js:322-351 | a dump has one line per started group of 16 bytes: 50 characters per line plus one per byte |
| HexText.HexDumpAppendRow | skein.js:336-340 | adding a row after whole rows adds exactly that row's line to the dump |
| HexText.ExtendRow | skein.js:333-334 | one more byte extends the hex column by its cell and the text column by its character |
| HexText.CloseRow | skein.js:336-347 | the dump of a prefix that ends in a partial or full row is the dump of the whole rows before it plus that row's line |
| HexText.FullLineShape | skein.js:337-340 | a row of sixteen cells needs no padding: bin, a tab, txt and a newline are its line |
| HexText.CloseLast | skein.js:344-347 | the padded last row, however short, appended to the lines of the whole rows before it, completes the dump |
| HexText.LineShape | skein.js:339 | bin, a tab, txt and a newline form the row's line once bin is padded to 16 cells |
| HexText.DumpCell | skein.js:333-336 | a byte that does not complete its row keeps the loop's state a prefix of the dump |
| HexText.DumpRow | skein.js:336-341 | the sixteenth byte of a row moves the row's line into str and empties the columns |
| HexText.DumpEndClosed | skein.js:344-348 | when the bytes end on a whole row, str alone is the dump of all the bytes |
| HexText.DumpEndOpen | skein.js:344-348 | when a short row is open at the end, str plus that row padded with three spaces per missing cell is the dump of all the bytes |
| HexText.HexPairs | skein.js:333 | the digit pairs of a row are two hex digits per byte |
| HexText.HexColumnDigits | skein.js:88 | filtering a hex column leaves its digit pairs: the spaces between cells drop out |
| HexText.HexPairsDecode | skein.js:89 | decoding the digit pairs of a row gives the row back |
| HexText.HexColumnRoundTrip | skein.js:86-90 | wrapping the hex column of a dump row gives the row's bytes back: dump and wrap agree on the format |
| Skeins.WriteAt | skein.js:144 | storing an image byte by byte leaves the array overwritten at the target range and unchanged elsewhere |
| Skeins.Oriented | skein.js:232-250 | a float or double image as the order's writeFloat/Double lays it out in memory keeps its length; ImageThroughSkein shows it reversed in little-endian order only |
| Skeins.OrientedInvolution | skein.js:232-250 | reading back with the same order's readFloat/Double undoes the layout, in either order |
| Skeins.ArrayPiece | skein.js:193-195 | the elements putArray sends to put: with no position and count, the whole array; never more than the count; each one the array's element at the start position plus its index |
| Skeins.Slice | skein.js:195 | Array.prototype.slice never yields more elements than the array has |
| Skeins.AppendCell | skein.js:333-334 | one byte adds its two-digit cell and a space to bin and its character to txt |
| Skeins.PadColumn | skein.js:346 | the padding loop adds three spaces for each of the 16 - cols missing cells |
| Skeins.DumpStep | skein.js:332-341 | one pass of the dump loop keeps str, bin and txt a prefix of the dump of the bytes read so far |
| Skeins.NextByte | skein.js:332 | get on the duplicate yields the next unread byte and advances only that cursor |
| Skeins.DumpRows | skein.js:330-342 | after the loop every remaining byte is in str (whole rows) or in bin/txt (the last, open row) |
| Skeins.Skein.Capacity | skein.js:99 | the capacity is the storage length, never below the limit |
| Skeins.Skein.Remaining | skein.js:107 | remaining is what separates position from limit |
| Skeins.Skein.HasRemaining | skein.js:108 | hasRemaining holds exactly when position is below limit |
| Skeins.Skein.Allocate | skein.js:54-72 | a fresh zero-filled storage of the given capacity, position and mark 0, limit = capacity, big-endian |
| Skeins.Skein.Wrap | skein.js:82-95 | a cursor over existing storage, shared not copied, with limit = its length and the given order |
| Skeins.Store | skein.js:89 | fresh storage holding exactly the given bytes, as Buffer.from allocates it |
| Skeins.Skein.FromArray | skein.js:54-65 | an array of values is copied into fresh storage, each element reduced to its low eight bits |
| Skeins.Skein.WrapHex | skein.js:86-90 | wrap(text) stores exactly the hex decoding of text's hex digits; position 0, limit = capacity = the number of bytes |
| Skeins.Skein.SetOrder | skein.js:224-254 | later multi-byte accesses use the chosen order |
| Skeins.Skein.Put | skein.js:110-114 | with no room it fails with nothing changed; otherwise it stores b at position and advances by one |
| Skeins.Skein.Get | skein.js:116-120 | with nothing remaining it fails and stays; otherwise it returns the byte at position and advances by one |
| Skeins.Skein.PutUInt | skein.js:141-146 | checks remaining first, then width and range; on success the bytes at position become the image of v in the current order and position advances by sz |
| Skeins.Skein.GetUInt | skein.js:148-155 | checks remaining first, then width; on success it returns the unsigned value of the next sz bytes in the current order and advances by sz |
| Skeins.Skein.PutInt | skein.js:122-127 | as PutUInt, with the two's-complement image and the signed range |
| Skeins.Skein.GetInt | skein.js:129-136 | as GetUInt, returning the signed value |
| Skeins.Skein.PutShortAsWritten | skein.js:138 | putShort as written calls itself before doing anything else, so for any stack depth the calls end in the stack-exhaustion error with nothing changed |
| Skeins.Skein.PutShort | skein.js:138 | the intended putShort: a 2-byte putInt |
| Skeins.Skein.GetShort | skein.js:139 | a 2-byte getInt |
| Skeins.Skein.PutImage | skein.js:157-162 | an IEEE image is stored as given in big-endian order and reversed in little-endian order, after the remaining check |
| Skeins.Skein.GetImage | skein.js:164-171 | reading back a width of bytes undoes that orientation, after the remaining check |
| Skeins.Skein.PutFloat | skein.js:157-162 | fails when fewer than 4 bytes remain; otherwise stores the 4-byte image and advances by 4 |
| Skeins.Skein.GetFloat | skein.js:164-171 | fails when fewer than 4 bytes remain; otherwise returns the 4-byte image and advances by 4 |
| Skeins.Skein.PutDouble | skein.js:173-178 | fails when fewer than 8 bytes remain; otherwise stores the 8-byte image and advances by 8 |
| Skeins.Skein.GetDouble | skein.js:180-187 | fails when fewer than 8 bytes remain; otherwise returns the 8-byte image and advances by 8 |
| Skeins.Skein.PutArray | skein.js:189-196 | as written: only an explicit count is checked; the slice is then put byte by byte, so a slice longer than remaining fills up to the limit and then fails |
| Skeins.Skein.PutArrayChecked | skein.js:189-196 | corrected: the whole slice is written and position advances by its length, or nothing changes |
| Skeins.Skein.PutBuffer | skein.js:198-206 | as written: the source's full length is checked, the clamped range is copied, and position is set to from + count, which can pass the limit |
| Skeins.Skein.PutBufferChecked | skein.js:198-206 | corrected: the copied bytes must fit, position advances by their number, and the invariant holds |
| Skeins.Skein.PutSkein | skein.js:208-221 | sz defaults to other's remaining; it fails with nothing changed if sz exceeds either remaining; otherwise it copies sz bytes from other's position and advances both |
| Skeins.Skein.Clear | skein.js:256-260 | position and mark 0, limit at capacity, bytes untouched |
| Skeins.Skein.Flip | skein.js:262-266 | limit at the old position, position and mark 0, bytes untouched |
| Skeins.Skein.Rewind | skein.js:268-271 | position and mark 0, limit and bytes untouched |
| Skeins.Skein.Mark | skein.js:273-276 | the mark saves the current position |
| Skeins.Skein.Reset | skein.js:278-281 | position returns to the mark, the invariant still holds |
| Skeins.Skein.Compact | skein.js:283-288 | the unread bytes move to index 0, bytes from the new position on are unchanged, position = old limit - old position, limit = capacity |
| Skeins.Skein.Skip | skein.js:290-294 | fails and stays when sz exceeds remaining; otherwise advances by sz |
| Skeins.Skein.Cut | skein.js:303-311 | a fresh cursor over the same storage and order covering the next sz bytes; this cursor advances by sz |
| Skeins.Skein.Duplicate | skein.js:313-320 | a fresh cursor over the same storage and order with the same position and limit |
| Skeins.Skein.ToHexString | skein.js:322-351 | returns the dump of the bytes from position to limit, and changes nothing (it reads through a duplicate) |
| SkeinScenarios.PutSkeinScenario | unittest/unittest.js:9-32 | after putSkein and flip five bytes remain, the source has none left, and they read 1, 2, 3, 4, 5 |
| SkeinScenarios.PutArrayThenGet | unittest/unittest.js:34-53 | with putArray as written on 1024 free bytes: a count above 1024 is refused and nothing can be read; otherwise, after flip, remaining is the slice's length and get returns its first element |
| SkeinScenarios.PutArrayScenario | unittest/unittest.js:34-53 | the test's three calls of putArray as written all succeed and leave 5, 3 and 1 bytes, starting 1, 3 and 4 |
| SkeinScenarios.CutScenario | unittest/unittest.js:55-65 | a cut of 3 from 5 bytes has 3 remaining and reads 1, 2, 3; the parent keeps 2 |
| SkeinScenarios.DecodeSample | unittest/unittest.js:68-78 | the digits 0 1 f 0 0 F decode to 01 F0 0F, in either case |
| SkeinScenarios.WrapWithSeparator | unittest/unittest.js:68-78 | any non-hex separator between "01", "f0" and "0F" yields the bytes 01 F0 0F |
| SkeinScenarios.WrapAndRead | unittest/unittest.js:68-78 | reading a skein wrapped from such text with get yields 01, F0, 0F |
| SkeinScenarios.WrapScenario | unittest/unittest.js:68-78 | '01 f0 0F' and '01, f0, 0F' both read back as 01, F0, 0F |
| SkeinScenarios.UIntThroughSkein | skein.js:141-155 | putUInt at the mark, reset, getUInt returns the value, in either order; the put fails exactly when the width or value is out of range |
| SkeinScenarios.IntThroughSkein | skein.js:122-136 | putInt, flip, getInt returns the value, in either order |
| SkeinScenarios.ImageThroughSkein | skein.js:157-187 | a float or double image comes back unchanged and lies reversed in memory in little-endian order |
| SkeinScenarios.CompactScenario | skein.js:283-288 | 8 bytes put, 4 skipped, compact: position 4, limit 10 and the front holds 5, 6, 7, 8 |
| SkeinScenarios.AliasingScenario | skein.js:303-320 | a byte written through a cut is seen through the parent and a duplicate; moving one cursor leaves the others in place |
| SkeinScenarios.PutArrayPartialWrite | skein.js:191 | putArray as written fails yet has written one byte and moved; the corrected version fails with nothing written |
| SkeinScenarios.PutBufferPastLimit | skein.js:205 | putBuffer as written leaves position 6 past limit 4 after copying 2 bytes; the corrected version advances by 2 |
| SkeinScenarios.PutShortRecursion | skein.js:138-139 | putShort as written fails whatever the stack depth and leaves the skein's zeros and position as they were; the corrected putShort followed by getShort returns the value |

## Left out

- Floating point: the binary32/binary64 encoding inside `putFloat`/`getFloat`/`putDouble`/`getDouble` (skein.js:157-187) is not modelled. The methods take and return the IEEE byte image, written most significant byte first.
- `position` and `limit` setters (skein.js:102-105): they do no checks and would break `Valid()`, so they are not part of this model.
- `wrap` with a custom `separator` (skein.js:88): only the default filter is modelled.
- Exception messages and the `"invalid parameters"` branch (skein.js:56-60), which dispatches on JavaScript runtime types: the typed constructors `Allocate`, `Wrap`, `FromArray` and `WrapHex` stand for the accepted cases.
- `put` of a value that is not a byte (skein.js:113): Node's `writeUInt8` throws after `_position++` has been evaluated. Values are typed `Byte` here.
- Negative or non-integer sizes and positions, and `NaN` arguments to `putBuffer`: sizes are `nat`; an absent argument is `None`.
- Skeins.Skein.PutBuffer: requires `from <= source length`. Node throws a `RangeError` for a larger source start, and that case is not modelled.
- Skeins.Skein.PutSkein: requires `other != this`. Putting a skein into itself double-advances one position field, and that case is not modelled.
- Skeins.Skein.Cut: requires `sz <= remaining`. The source does not check, and a larger `sz` would give cursors beyond their limit.
- HexText.Itoa: requires `v < 2^31`, where JavaScript's `>> 4` on 32-bit signed values is division by 16. Every caller in the source passes a byte.
- Skeins.Skein.PutShort: models the intended two-byte `putInt`, as the Findings say. Like `putInt`, it refuses values outside the 16-bit signed range (`OutOfRange`) instead of keeping their low 16 bits.
- Behaviours of the code that the model keeps as they are:
  - `reset` before any `mark` moves to 0, the mark the constructor sets (skein.js:62, skein.js:280); no error is raised.
  - An odd number of hex digits in `wrap` loses its last digit, as Node's hex decoding does (skein.js:89); no error is raised.
  - `compact` leaves the mark where it was, even beyond the new position (skein.js:283-288); `Valid()` only keeps the mark at or below the limit, which every modelled operation preserves.
- Concurrency and I/O: none in the source.

## Findings

| source | as written | input that shows it | evidently intended | confidence | as-written member | corrected member |
|---|---|---|---|---|---|---|
| skein.js:191 | `this.remaining < offset` is false when no count is given, so the slice is put byte by byte until `put` throws, leaving a partial write and a moved position | `allocate(1).putArray([7, 8])` fails after writing 7 and moving to position 1 (`SkeinScenarios.PutArrayPartialWrite`) | check the slice length against remaining before writing anything | not executed | Skeins.Skein.PutArray | Skeins.Skein.PutArrayChecked |
| skein.js:205 | position is set to `pos + offset` instead of advanced from the current position, and the check at line 200 uses the source length, not the copied count | `allocate(4).putBuffer(buf4, 2, 4)` copies 2 bytes and sets position 6 past limit 4 (`SkeinScenarios.PutBufferPastLimit`) | check and advance by the number of bytes copied | not executed | Skeins.Skein.PutBuffer | Skeins.Skein.PutBufferChecked |
| skein.js:138 | `putShort(vv)` calls `this.putShort(vv, 2)`, itself, without end | any `putShort(v)` ends in a call-stack `RangeError` and writes nothing (`SkeinScenarios.PutShortRecursion`) | `this.putInt(vv, 2)`, the counterpart of `getShort` | not executed | Skeins.Skein.PutShortAsWritten | Skeins.Skein.PutShort |
