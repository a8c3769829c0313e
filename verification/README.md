# Binary command decoder

This project models the decoder in `main.go`. It reads one operation of a small key-value protocol from a byte buffer. The buffer has:

- one header byte, whose value is ignored;
- a four-byte little-endian command code: 0 is Set, 1 is Get, 2 is Clear;
- a body.

The body holds a key string, and for Set also a value string. Each string is an unsigned LEB128 varint length followed by that many bytes. The result is a `CommandInfo` record of command, key and value, plus an error or nil.

The model keeps the form of the Go code:

- `bytes.Reader` is a class, `Reader.Cursor`. It has an immutable buffer and a read position that its methods advance in place.
- `getU8`, `getU32`, `getString`, `parse` and the three body parsers are methods on that cursor (`Fields.GetU8`, …, `Parser.Parse`). So is the loop of `binary.ReadUvarint` (`Uvarint.ReadUvarint`).
- Each method is proved equal to a function of the buffer and the start position (`Fields.U8At`, …, `Parser.ParseAt`). The properties of the decoder are proved about those functions.
- `Command.String` is pure and is a function (`Commands.Name`).

Errors are a datatype, `Results.Error`:

- `EndOfInput` is the "unexpected end of input" error made by `getU8` and `getU32`.
- `Eof` and `UnexpectedEof` are `io.EOF` and `io.ErrUnexpectedEOF`.
- `Overflow` is a varint that does not fit in 64 bits.
- `UnknownCommandCode` is the "Unknown command" error made by `parse`.

The model follows the code as written, including three places where the code is more lenient than a decoder that propagates every error:

- `getU32` accepts a short read of one to three bytes and treats the missing high bytes as zero.
- `getString` returns the empty string with a nil error when the payload is cut short.
- `parse` drops the body parser's error for codes 0, 1 and 2.

Module `Strict` is a second decoder that propagates every error. It is proved to agree with `parse` on well-formed buffers and to reject every proper prefix of one. "## Findings" lists the three differences.

Four behaviours of the code are worth knowing:

- The demonstration buffer at main.go:153 carries code 1, so it decodes as Get.
- A buffer of two to four bytes whose code reads as 0, 1 or 2 decodes with a nil error.
- String and body errors are swallowed, as listed above.
- Varint lengths need not be minimal: `binary.ReadUvarint` accepts `[0x83, 0x00]` as 3.

Files:

- `bytes.dfy`: bytes and little-endian numbers.
- `results.dfy`: errors and results.
- `reader.dfy`: the cursor.
- `uvarint.dfy`: `binary.ReadUvarint`.
- `command.dfy`: `Command` and `CommandInfo`.
- `fields.dfy`: the primitive readers.
- `parser.dfy`: `parse` and the body parsers.
- `encoding.dfy`: the sender's layout and the round trip.
- `strict.dfy`: the strict decoder.

## Model

| member | source | states |
|---|---|---|
| Bytes.Uint32 | main.go:61 | `binary.LittleEndian.Uint32`: four bytes read least significant first give `LittleEndian` of them, a number below 2^32 |
| Bytes.LittleEndianBound | main.go:53-62 | a number read from n bytes is below 2^(8n) |
| Bytes.LittleEndianZeroPadding | main.go:54-61 | zero bytes at the high end, as left in the zeroed array after a short read, do not change the number |
| Reader.Cursor.constructor | main.go:154 | `bytes.NewReader`: the cursor starts at position 0 of the given buffer |
| Reader.Cursor.Read | main.go:55 | `Read` of n bytes: at the end it yields nothing and `io.EOF` without moving; otherwise it copies min(n, remaining) bytes with no error, so a short read is not an error |
| Reader.Cursor.ReadByte | main.go:65 | `ReadByte`: the byte at the cursor and one step forward, or `io.EOF` without moving |
| Reader.Cursor.ReadFull | main.go:71 | `io.ReadFull`: with n bytes left it reads exactly n with no error; otherwise it consumes all that is left and reports `io.EOF` if nothing remained, `io.ErrUnexpectedEOF` if some did |
| Uvarint.GroupsShape | main.go:65 | the varint reading stops within ten bytes; it fails with EOF exactly on an empty first read, with UnexpectedEOF only at the end of the buffer, with overflow only after ten bytes, and with no other error |
| Uvarint.GroupsEndAtTerminator | main.go:65 | a varint that reads successfully ends at the first byte without the continuation bit, and every byte before it has that bit |
| Uvarint.GroupsFit | main.go:65 | the groups from group i on fit in the 64 - 7i bits that remain, so a tenth byte above 1 cannot be accepted |
| Uvarint.GroupsOverflow | main.go:65 | read from group i on, the varint overflows exactly when every byte up to group 9 carries the continuation bit and the byte of group 9 is above 1 |
| Uvarint.UvarintOverflow | main.go:65 | `binary.ReadUvarint` reports overflow exactly when nine bytes with the continuation bit are followed by a tenth byte above 1, whether or not that byte has the continuation bit |
| Uvarint.UvarintFits | main.go:65 | every varint that reads successfully is below 2^64 |
| Uvarint.UvarintFacts | main.go:65 | the positional reading stops within ten bytes, is below 2^64, and fails only with EOF (empty input), UnexpectedEOF (at the end of the buffer) or overflow (after ten bytes) |
| Uvarint.UvarintAt | main.go:65 | `binary.ReadUvarint`'s result and stop position: within ten bytes, below 2^64 on success, EOF exactly when nothing is left, UnexpectedEOF only at the end of the buffer, overflow after exactly ten bytes, and no other error |
| Uvarint.AccumulateIsGroups | main.go:65 | ORing each seven-bit group into x at shift s reads the same number as the positional definition of LEB128 |
| Uvarint.UvarintIsGroups | main.go:65 | the decoding loop started with x = 0 and s = 0 reads the varint as its positional definition does |
| Uvarint.PlaceBound | main.go:65 | a seven-bit group placed at shift s above a value below 2^s gives a value below 2^(s+7), so the groups never overlap and `x \| g << s` is an addition |
| Uvarint.ReadUvarint | main.go:65 | the bounded loop of `binary.ReadUvarint` over the cursor keeps x below 2^s, returns `UvarintAt`'s result and leaves the cursor where `UvarintAt` stops |
| Uvarint.GroupsOfEncoding | main.go:65 | a number's LEB128 encoding, read from group i on, gives the number back and stops right after its last byte |
| Uvarint.UvarintOfEncoding | main.go:65 | round trip: every number below 2^64 reads back from its encoding, whatever follows it |
| Uvarint.GroupsOfTruncatedEncoding | main.go:65 | a proper prefix of an encoding read from group i on fails with EOF or UnexpectedEOF and consumes the rest of the buffer |
| Uvarint.UvarintOfTruncatedEncoding | main.go:65 | a buffer that ends inside the minimal encoding of a number gives EOF if it ends at its start, UnexpectedEOF otherwise, never a number |
| Uvarint.GroupsLocal | main.go:65 | the varint reading depends on nothing before the cursor |
| Commands.Name | main.go:23-34 | `Command.String` gives "Unknown" exactly for `UnknownCommand` |
| Commands.NamesDistinct | main.go:23-34 | no two commands print alike |
| Fields.U8At | main.go:42-51 | `getU8` fails with "unexpected end of input" exactly when no byte remains; otherwise it gives the byte at the cursor and advances by one |
| Fields.GetU8 | main.go:42-51 | the method on the cursor returns `U8At`'s result and moves the cursor to where `U8At` stops |
| Fields.U32At | main.go:53-62 | `getU32` fails only when no byte remains; it advances by min(4, remaining); it gives the little-endian number of the bytes it read, below 2^(8·read); with at least four bytes left it gives b0 + 2^8·b1 + 2^16·b2 + 2^24·b3 |
| Fields.GetU32 | main.go:53-62 | the method (`Read` into a zeroed four-byte array, then `Uint32`) returns `U32At`'s result and stops where it does |
| Fields.StringAt | main.go:64-76 | `getString` fails exactly when the varint length fails, with the same error and position; when the length n is read and ends at m, it returns the n bytes from m and stops at m + n if they are all there, and otherwise returns the empty string with a nil error and stops at the end of the buffer |
| Fields.GetString | main.go:64-76 | the method (`ReadUvarint`, then `io.ReadFull`, dropping its error) returns `StringAt`'s result and stops where it does |
| Fields.StringOfEncoding | main.go:64-75 | round trip: an encoded string reads back and the cursor advances by the varint size plus the length, whatever follows |
| Fields.StringOfShortPayload | main.go:70-74 | a length, in any varint form, that runs past the end of the buffer gives the empty string with a nil error and the cursor at the end |
| Fields.NonMinimalLength | main.go:65 | the non-minimal length `[0x83, 0x00]` reads as 3, whatever follows |
| Fields.NonMinimalLengthRead | main.go:64-75 | after the length `[0x83, 0x00]`, three payload bytes read back in full and the cursor stops after them |
| Fields.NonMinimalLengthShort | main.go:70-74 | after the length `[0x83, 0x00]`, a payload one byte short reads as the empty string with a nil error and the cursor at the end |
| Fields.StringLocal | main.go:64-76 | the string read depends on nothing before the cursor |
| Parser.ParseSetAt | main.go:120-138 | `parse_set` always reports Set; a failed key read leaves key and value empty; a read key is kept; a failed value read empties the value; the error is nil exactly when both strings were read, and otherwise it is the failing read's own error; the cursor stops after the key when the key read fails, and after the value otherwise |
| Parser.SetOfStrings | main.go:120-138 | when both string reads succeed, `parse_set` returns the key and value read, in that order, with a nil error |
| Parser.ParseGetAt | main.go:107-118 | `parse_get` always reports Get with an empty value; it errs exactly when the key read fails, with that read's own error, and then the key is empty; otherwise the key is the string read; either way the cursor stops where the key read stops |
| Parser.ParseClearAt | main.go:140-151 | `parse_clear` always reports Clear with an empty value; it errs exactly when the key read fails, with that read's own error, and then the key is empty; otherwise the key is the string read; either way the cursor stops where the key read stops |
| Parser.ParseAt | main.go:78-105 | `parse` reports only "unexpected end of input" or "Unknown command"; "Unknown command" comes with the record (Unknown, "", ""); a nil error never comes with Unknown; only Set carries a value |
| Parser.ParseSet | main.go:120-138 | the method on the cursor returns `ParseSetAt`'s record and error and stops where it does |
| Parser.ParseGet | main.go:107-118 | the method returns `ParseGetAt`'s record and error and stops where it does |
| Parser.ParseClear | main.go:140-151 | the method returns `ParseClearAt`'s record and error and stops where it does |
| Parser.Parse | main.go:78-105 | the method returns `ParseAt`'s record and error and stops where it does, discarding the body parser's error |
| Parser.DecodeBuffer | main.go:153-155 | decoding a buffer through a fresh reader gives `Decode`'s record and error |
| Parser.EndOfInputCases | main.go:79-89 | "unexpected end of input" comes back exactly for buffers of at most one byte: an empty buffer leaves the zero record, whose command is Set; a lone header byte gives Unknown |
| Parser.KnownCodeAccepted | main.go:91-100 | codes 0, 1 and 2 give a nil error and the record of `parse_set`, `parse_get` or `parse_clear`, whatever error that parser reported |
| Parser.UnknownCodeRejected | main.go:101-103 | any other code gives (Unknown, "", "") and "Unknown command", with no body byte read |
| Parser.HeaderIgnored | main.go:81-83 | two buffers that differ only in the header byte decode alike |
| Parser.BodiesLocal | main.go:107-151 | the body parsers depend on nothing before the cursor |
| Parser.DemoBuffer | main.go:153 | the demonstration buffer decodes to Get with key "foo" and a nil error, and the value "bar" is left unread |
| Encoding.DecodeOfFields | main.go:78-151 | a buffer whose code and strings read back as a well-formed record decodes to that record with a nil error, whatever the header byte |
| Encoding.DecodeOfEncoding | main.go:78-151 | round trip: `[tag][code LE u32][uvarint(\|k\|)][k]`, plus `[uvarint(\|v\|)][v]` for Set, decodes to the record with a nil error and stops right after it, whatever follows |
| Strict.StrictU32At | main.go:53-62 | the corrected code read succeeds exactly when at least four bytes remain, and then agrees with `getU32` |
| Strict.StrictStringAt | main.go:64-76 | the corrected string read, when it succeeds, agrees with `getString` and returns exactly the announced length |
| Strict.StrictDecode | main.go:78-151 | the corrected decoder, when it succeeds, returns what `parse` returns with a nil error, and the record is well formed |
| Strict.StrictStringOfTruncated | main.go:70-74 | a string cut short in its length or in its payload makes the corrected string read fail |
| Strict.StrictStringOfEncoding | main.go:64-75 | an encoded string reads back under the corrected string read too |
| Strict.StrictDecodeOfFields | main.go:78-151 | a buffer whose code and strings read back in full as a well-formed record is accepted by the corrected decoder |
| Strict.StrictDecodeOfEncoding | main.go:78-151 | the corrected decoder accepts every encoded well-formed record, whatever follows, and agrees with `parse` on it |
| Strict.StrictRejectsShortKey | main.go:107-118 | a buffer that ends inside the key is rejected by the corrected decoder |
| Strict.StrictRejectsShortValue | main.go:129-134 | a Set buffer that ends inside the value is rejected by the corrected decoder |
| Strict.StrictRejectsTruncation | main.go:78-151 | every proper prefix of an encoded well-formed record is rejected by the corrected decoder |
| Strict.TruncatedKeyAccepted | main.go:72-73 | `[1,1,0,0,0,3,'f','o']` decodes as Get of the empty key with a nil error; the corrected decoder reports UnexpectedEOF |
| Strict.MissingKeyAccepted | main.go:95-97 | `[1,1,0,0,0]`: `parse_get` reports EOF, yet `parse` returns Get with a nil error; the corrected decoder reports EOF |
| Strict.ShortCodeAccepted | main.go:55 | `[1,2]`: the single code byte 2 is read as the whole code and the buffer decodes as Clear with a nil error; the corrected decoder reports end of input |

## Left out

- `main()` (main.go:152-160): the printing is left out; only the decoding of its buffer is modelled (`Parser.DemoBuffer`, `Parser.DecodeBuffer`).
- Error texts: errors are datatype values, not strings.
- The `make([]byte, length)` at main.go:70: for a huge length Go may panic or run out of memory. The model takes the branch where fewer than `length` bytes remain.
- `string(strBuffer)`: keys and values are byte sequences, with no UTF-8 check, as in Go.
- `bytes.Reader` state beyond the read position (`prevRune`, `Seek`, `UnreadByte`). `bytes.Reader.Read` only ever reports `io.EOF`, so the branches for other errors at main.go:47-48 and main.go:58-59 cannot run and are not modelled.
- `Command` is a Go `int`, so `String`'s default case also covers values other than the four constants. The model's `Command` has only the four values the decoder produces.
- Uvarint.ReadUvarint: the partial `x` that `binary.ReadUvarint` returns next to an error is not modelled, because `getString` throws it away. The 64-bit truncation of the shift on the overflow path is not written out, because that value is thrown away too. Successful results are proved below 2^64, so no truncation happens there.
- Values returned next to an error: `getU8`, `getU32` and `getString` return zero values with their errors; the model returns only the error.
- Concurrency: there is none.

## Findings

| source | as written | input that shows it | evidently intended | confidence | as-written member | corrected member |
|---|---|---|---|---|---|---|
| main.go:72-73 | a string whose payload is cut short is returned as "" with a nil error | `[1,1,0,0,0,3,'f','o']` decodes to Get of the empty key with no error | report `io.ErrUnexpectedEOF` (or `io.EOF`) | not executed | Strict.TruncatedKeyAccepted | Strict.StrictStringAt |
| main.go:93-100 | the body parser's error is discarded and nil is returned | `[1,1,0,0,0]`: `parse_get` reports EOF, yet `parse` returns Get with a nil error | return the body parser's error | not executed | Strict.MissingKeyAccepted | Strict.StrictRejectsTruncation |
| main.go:55 | `cur.Read` may fill only part of the four-byte array without an error | `[1,2]` decodes as Clear with a nil error | read all four bytes (`io.ReadFull`) or fail | not executed | Strict.ShortCodeAccepted | Strict.StrictU32At |
