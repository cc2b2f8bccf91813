# go-smclcd protocol engine in Dafny

This project models the protocol engine of the SuperMicro USB LCD driver.
The device is a 2×16 character panel driven through 16-byte HID reports.
The model has three layers.

- **Report codec** (`proto.dfy`, module `Proto`):
  - the report geometry (ID bytes 0xAA/0xBB, length 16, command length 14, data length 12);
  - the command bytes;
  - the two's-complement checksum, as a byte-wrapping loop (`ComputeChecksum`) proved equal to a recursive specification;
  - the output-report layout.
- **Cursor** (`cursor.dfy`, module `Cursors`):
  - one integer position over the 32 cells of the display;
  - `Advance` and `Move`, which update it in place before classifying it as negative, end of display (EOF) or valid;
  - `Remaining` and the move-cursor `Byte`, written with Go's truncating `/` and `%`.
- **Display session** (`smclcd.dfy`, module `Smclcd`): the `LCD` class, with its cursor and these pieces of device state:
  - `sent`, a ghost log of the commands sent, and `wire`, the reports they became;
  - `inbox`, the finite sequence of input reports the device has delivered.

  Each method of the driver is a method of `LCD`. Every loop of the driver is a `while` loop whose invariant ties the loop state to a specification function:
  - `WriteRawLoop` and `ReadRawLoop` specify the chunking loops;
  - `WriteLoop` specifies `Write`'s line loop as the driver has it;
  - `ReadLoop` specifies `Read`'s row loop.

  `WriteCountedLoop` is the same line loop with every consumed newline counted. It is the corrected count of the finding below, and `SmclcdProps` relates the two.

  `smclcd_props.dfy` (module `SmclcdProps`) proves what these functions promise: exact counts, positions, chunk boundaries, command streams and the documented examples.

Errors are modelled as values (`errors.dfy`):
- `NegativePosition` and `EOF` stand for the cursor's errors;
- `Stall` stands for "no matching report in the inbox", where the driver would wait for ever.

Three facts of the code shape the model:
- Data chunks are 12 bytes (proto.go:139, 144).
- `Write` counts consumed input bytes and not the padding spaces, so "AB\nCD" from the first cell returns 5 (`WriteTwoLines`).
- Eighteen bytes from the first cell go out as chunks of 12, 4 and 2 (`WriteRawEighteen`).

## Model

| member | source | states |
|---|---|---|
| Proto.ReportSizes | proto.go:135-144 | input and output reports share length 16, command length 14 and data length 12 |
| Proto.ComputeChecksum | proto.go:165-171 | the byte-wrapping accumulation loop returns the checksum of the whole buffer |
| Proto.ByteSumIsSumMod | proto.go:165-171 | the wrapping byte sum is the integer sum modulo 256 |
| Proto.ChecksumClosedForm | proto.go:165-171 | `^val + 1` is (256 - sum mod 256) mod 256 |
| Proto.ChecksumCancels | proto.go:28-29 | appending the checksum makes the bytes sum to 0 modulo 256 |
| Proto.ChecksumOfZeros | proto.go:165-171 | an all-zero buffer has checksum 0 |
| Proto.ChecksumZeroAppend | smclcd.go:141-144 | a trailing zero byte does not change the checksum, so summing the buffer with its last byte still 0 is summing the first 15 |
| Proto.ChecksumZeroPadded | smclcd.go:141-144 | zero padding of any length does not change the checksum |
| Proto.Fit | smclcd.go:143 | copy into a 14-byte window: the command bytes as far as they fit, then zeros |
| Proto.OutputReportShape | smclcd.go:140-150 | byte 0 is 0xBB, bytes 1..14 are the command truncated to 14 and zero-padded, byte 15 is the checksum of bytes 0..14, and the 16 bytes sum to 0 modulo 256 |
| Proto.OutputReportBytes | smclcd.go:141-144 | a command of at most 14 bytes gives ID, command, zeros, then the checksum of ID and command |
| Proto.ClearReportVector | proto.go:39-44 | the clear command's report is BB 02 00 01, zeros, checksum 42 |
| Proto.ReadRequestVector | proto.go:79-84 | the read request's report is BB 02 03, zeros, checksum 40 |
| Proto.ReadResponseVector | proto.go:89-94 | AA 02 03 followed by twelve spaces has checksum D1 |
| Proto.KeyReportVector | proto.go:101-106 | AA 03 00 followed by zeros has checksum 53 |
| Proto.BacklightReportVector | proto.go:123-128 | the backlight-off report is BB 07 00, zeros, checksum 3E |
| Proto.Payload | smclcd.go:136 | the payload after a matched prefix has 15 minus the prefix length bytes |
| Proto.PayloadAt | smclcd.go:136 | byte j of the payload of a report carrying prefix q is byte len(q) + j of the report |
| Proto.PayloadSplit | smclcd.go:136 | a report is its prefix, its payload and its checksum byte; TrimPrefix keeps all 15 bytes when the prefix is absent |
| Cursors.GoRem | cursor.go:60 | Go's `%`: the dividend is the truncated quotient times the divisor plus the remainder, which is non-negative below the divisor for a non-negative dividend and non-positive above minus the divisor for a negative one |
| Cursors.PosError | cursor.go:48-57 | negative position iff NegativePosition, position at or past 32 iff EOF, otherwise no error |
| Cursors.Remaining | cursor.go:59-61 | 1..16 cells are left for a non-negative position, 16..31 for a negative one under Go's `%` |
| Cursors.RemainingFillsRow | cursor.go:59-61 | a non-negative position plus Remaining is a multiple of 16 |
| Cursors.RemainingExamples | cursor.go:59-61 | Remaining is 16, 1 and 16 at positions 0, 15 and 16 |
| Cursors.ByteIsGoByteArithmetic | cursor.go:63-65 | the move byte computed with one final truncation equals Go's expression with byte conversions and wrapping `*` and `+` |
| Cursors.ByteRoundTrip | cursor.go:63-65 | on a valid position the move byte is 0x80 + column on line 0 and 0xC0 + column on line 1, and the display decodes it back to the position |
| Cursors.ByteInjective | cursor.go:63-65 | distinct valid positions have distinct move bytes |
| Cursors.MoveRoundTrip | cursor.go:43-46 | moving to (y, x) inside the display gives a valid position whose row and column are y and x |
| Cursors.RowEnd | cursor.go:59-61 | from a valid position, moving short of the row's end stays valid and leaves that many fewer cells; the row ends on a row start, past the display exactly on the last row |
| Cursors.RunStaysInRow | smclcd.go:233 | a chunk of at most Remaining cells stays on its row |
| Cursors.Cursor.constructor | smclcd.go:88-91 | a fresh cursor is at position 0, Go's zero value |
| Cursors.Cursor.Advance | cursor.go:38-41 | the position grows by n even when the result is invalid, then its error is returned |
| Cursors.Cursor.Move | cursor.go:43-46 | the position becomes y*16 + x even when invalid, then its error is returned |
| Smclcd.Sanitize | smclcd.go:222-227 | same length, printable bytes kept, every other byte replaced by '?' |
| Smclcd.Split | smclcd.go:200 | bytes.Split on newline: at least one piece, no piece holds a newline, and joining the pieces with newlines gives back the input |
| Smclcd.FirstMatch | smclcd.go:127-135 | the wait ends at the first report carrying the prefix, every earlier one lacking it |
| Smclcd.Recv | smclcd.go:127-135 | when no report matches, the whole inbox has been consumed |
| Smclcd.RecvFinds | smclcd.go:124-138 | a report is found iff one in the inbox carries the prefix; it is the first such, and the reports after it remain |
| Smclcd.Copy | smclcd.go:136 | Go's copy: the first min(window, source) bytes are placed and nothing else changes |
| Smclcd.PutRow | smclcd.go:256-261 | the row is copied after the bytes already read as far as it fits, then a newline when the row was read in full and room is left |
| Smclcd.WriteRawRound | smclcd.go:228-243 | one round writes at least one byte and advances the cursor by what it wrote; a round that ends the loop does so with an error |
| Smclcd.ReadRawRound | smclcd.go:268-286 | one round that goes on reads at least one byte and keeps the bytes before it; a round that ends does so with an error |
| Smclcd.ReadRawLoop | smclcd.go:266-288 | readRaw never reads past the buffer, keeps what it read, ends without error only with the buffer full, and advances the cursor by what it read |
| Smclcd.LCD.constructor | smclcd.go:93-99 | a freshly opened display has its cursor at 0 and nothing sent |
| Smclcd.LCD.RecvInputReport | smclcd.go:124-138 | drops every report before the first that starts with 0xAA and the prefix, then copies its payload into the window as far as it fits; Stall with the buffer untouched when none matches |
| Smclcd.LCD.SendOutputReport | smclcd.go:140-150 | exactly one report, the framed command, goes on the wire |
| Smclcd.LCD.Version | smclcd.go:152-164 | sends [01], waits for a report starting AA 01 and formats its payload bytes 0 and 1 as "%x.%x" |
| Smclcd.LCD.Clear | smclcd.go:166-170 | the cursor goes to 0 and [02 00 01] is sent |
| Smclcd.LCD.Home | smclcd.go:172-176 | the cursor goes to 0 and [02 00 02] is sent |
| Smclcd.LCD.SetCursor | smclcd.go:178-181 | [02 00 0C+state] is sent with the byte addition wrapping, and the position is untouched |
| Smclcd.LCD.AdvanceCursor | smclcd.go:183-189 | the position is updated first; an invalid one is returned and nothing is sent, a valid one sends exactly [02 00 Byte(pos)] |
| Smclcd.LCD.MoveCursor | smclcd.go:191-197 | as AdvanceCursor, with the position set to y*16 + x |
| Smclcd.LCD.Write | smclcd.go:199-218 | count, error, final cursor and commands sent are those of WriteFrom, the driver's line loop |
| Smclcd.LCD.WriteLine | smclcd.go:202-215 | one line goes through writeRaw; when it is not the last and was shorter than what was left of its row, the rest of the row is padded with spaces and the newline is counted |
| Smclcd.LCD.WriteRaw | smclcd.go:220-245 | count, error, final cursor and commands sent are those of WriteRawFrom |
| Smclcd.LCD.WriteRawStep | smclcd.go:233-242 | one chunk is sent and the cursor advanced over it, as WriteRawRound states |
| Smclcd.LCD.Read | smclcd.go:247-264 | count, error, cursor, commands sent and reports left are those of ReadFrom; the buffer holds the bytes read and is unchanged past them |
| Smclcd.LCD.ReadRow | smclcd.go:249-261 | one round of Read, as ReadLoopRound and ReadLoopFault state |
| Smclcd.LCD.ReadRaw | smclcd.go:266-288 | count, error, cursor, commands sent and reports left are those of ReadRawFrom; the buffer holds the bytes read |
| Smclcd.LCD.ReadChunk | smclcd.go:273-279 | one read request is sent and the first m payload bytes of the first read response land after the bytes already read |
| Smclcd.LCD.ReadRawStep | smclcd.go:269-285 | one round of readRaw, as ReadRawRound states |
| Smclcd.LCD.GetInput | smclcd.go:290-301 | waits for a report starting AA 03; the key is its payload bytes 0 and 1, and nothing is sent |
| Smclcd.LCD.SetBacklight | smclcd.go:303-306 | [07 state] is sent and the position is untouched |
| SmclcdProps.WriteRawLoopClosedForm | smclcd.go:228-243 | from a valid position writeRaw writes min(text, cells left), moves the cursor as far, and returns EOF exactly when the text reaches the end of the display (filling cell 31 included); from an invalid position it returns that error with nothing sent |
| SmclcdProps.WriteRawLoopFramed | smclcd.go:228-243 | the commands writeRaw appends are write chunks of 1..min(12, Remaining) bytes, each followed by a move to the cell after it unless that cell is past the display; their data put together is the text counted, and the earlier log is kept |
| SmclcdProps.WriteRawSends | smclcd.go:220-245 | writeRaw from a valid position: count min(len, 32 - pos), position advanced by it, EOF iff the text reaches past the last cell, and the command stream frames the sanitized input |
| SmclcdProps.WriteRawInvalid | smclcd.go:229-231 | from an invalid position writeRaw returns the error with count 0 and nothing sent |
| SmclcdProps.WriteRawComplete | smclcd.go:220-245 | writeRaw never counts more than its input, and all of it when it returns no error |
| SmclcdProps.SanitizePrintable | smclcd.go:222-227 | printable text is left unchanged |
| SmclcdProps.WriteRawEighteen | smclcd.go:228-243 | eighteen printable bytes from cell 0 go out as chunks of 12, 4 and 2 with moves to 12, 16 and 18 |
| SmclcdProps.SplitJoin | smclcd.go:200 | splitting newline-free lines joined with newlines gives back the lines |
| SmclcdProps.WriteBounded | smclcd.go:199-218 | as written, Write's count is between 0 and the input length |
| SmclcdProps.PaddedLine | smclcd.go:203-213 | a line shorter than what is left of its row is written whole, the padding sends the rest of the row as framed spaces, and the cursor lands on the next row start, past the display exactly when the line was on the last row |
| SmclcdProps.WritePadsRow | smclcd.go:209-215 | after a short non-final line Write goes on from the next row start with the line and its newline counted, or ends with EOF when the line was on the last row |
| SmclcdProps.WriteFillsRow | smclcd.go:203-215 | a non-final line that fills the rest of the first row is sent framed, no padding follows, and Write goes on from the next row start without counting the newline, where the corrected Write counts it |
| SmclcdProps.WriteShortCount | smclcd.go:209-215 | as written, sixteen bytes and a newline from cell 0 return 16 with no error; the corrected count is 17 |
| SmclcdProps.WriteCountedComplete | smclcd.go:199-218 | the corrected Write never counts more than its input, and all of it when it returns no error |
| SmclcdProps.WriteCountedAgrees | smclcd.go:199-218 | the corrected Write sends the same commands, ends at the same cursor with the same error, and counts at least as much as Write as written |
| SmclcdProps.WriteTwoLines | smclcd.go:199-218 | "AB\nCD" from cell 0 sends AB, 14 spaces as chunks of 12 and 2, then CD at cell 16, and returns 5, both as written and corrected |
| SmclcdProps.ReadRawRoundSends | smclcd.go:268-286 | a round sends one read request and keeps at most 12 bytes and at most what is left of the row; a round that goes on then moves the device cursor to the valid cell after the chunk |
| SmclcdProps.ReadRawLoopClosedForm | smclcd.go:266-288 | when every request is answered, readRaw from a valid position reads min(wanted, cells left) and returns EOF exactly when that reaches cell 32; from an invalid position it returns that error with nothing sent |
| SmclcdProps.ReadRowOfTwo | smclcd.go:266-288 | a row read from its first cell takes 12 bytes from one response and 4 from the next, with moves to 12 (and 16 on the first row) |
| SmclcdProps.ReadThirtyFour | cmd/smclcd/read.go:79 | reading the default 34 bytes from cell 0 gives row 0, a newline, row 1 and a newline, with EOF, the cursor at 32 and seven commands sent |
| SmclcdProps.ReadLoopFills | smclcd.go:247-264 | Read keeps the bytes it has placed, never places more than the buffer holds, and ends with no error or EOF only with the buffer full |
| SmclcdProps.ReadFills | smclcd.go:247-264 | Read's count is at most the buffer length, and equals it unless a fault stops the loop |
| SmclcdProps.ReadRowAnswered | smclcd.go:249-251 | when every request is answered, a row read from a valid position reads the whole rest of the row and leaves the cursor on the next row start |
| SmclcdProps.ReadLoopNewline | smclcd.go:249-261 | when every request is answered, a round of Read places as much of the row as fits and a newline exactly when room is left after it, then goes on from the next row start |
| SmclcdProps.ReadAfterEnd | smclcd.go:247-264 | past the last cell Read fills the rest of the buffer with zeros, sends nothing and returns EOF |
| SmclcdProps.ReadStalls | smclcd.go:247-254 | with no read response waiting, Read sends one request, drops every report and stops with Stall and nothing read |
| SmclcdProps.CursorStateBytes | smclcd.go:54-59 | 0x0C plus the four cursor states gives 0C, 0D, 0E and 0F |
| SmclcdProps.WireReports | smclcd.go:140-150 | every report a session put on the wire starts with 0xBB and sums to 0 modulo 256 |
| SmclcdProps.HexRoundTrip | smclcd.go:162 | `%x` of a byte is one or two lower-case hex digits with no leading zero that read back as the byte |

## Left out

- The command-line tool (`cmd/smclcd/*.go`) is left out. It calls the driver, and its flag parsing, output formatting, sleeping and backlight goroutines are not part of the engine.
- The HID transport is left out: `Open`, `OpenFirst`, `OpenPath`, `Close`, and the device's `Read` and `Write`. It is a foreign library.
  - The model records sent commands in a ghost log.
  - Sends never fail, so the transport's write errors are not modelled.
  - Input reports come from a finite inbox.
- Smclcd.LCD.RecvInputReport: returns `Stall` when no report in the inbox matches, where the driver blocks until the device delivers one. Reports that would arrive later are not modelled.
- `logReport` and debug logging are left out; they only print.
- `Print`, `Printf`, `Println`, `Scan`, `Scanf` and `Scanln` are left out. They are `fmt` wrappers around `Write` and `Read`.
- Smclcd.Sanitize: treats bytes 0x20..0x7E as printable and replaces every other byte by '?'. This is exact for ASCII input. The driver decodes UTF-8 runes with `unicode.IsPrint`, so non-ASCII input can keep printable runes or change length; that is not modelled.
- Key naming is not asserted. The payload's code and event bytes are returned raw, because the protocol notes and the `KeyEvent` constants disagree on which event byte means pressed.
- Go's 64-bit `int` is modelled as an unbounded integer. Cursors.Cursor.Advance: does not model wrap-around of the position at 2^63.
- Input-report checksums are never checked, as in the driver.
- Smclcd.ReadRawLoop: readRaw's command stream is stated per round (`ReadRawRoundSends`) and by example (`ReadThirtyFour`). It is not stated as one framing predicate over the whole log, as writeRaw's is.

## Findings

| source | as written | input that shows it | evidently intended | confidence | as-written member | corrected member |
|---|---|---|---|---|---|---|
| smclcd.go:209-215 | `Write` counts a consumed newline only when it padded the row, so a line that exactly fills its row loses its newline from the count while no error is returned | `Write("0123456789ABCDEF\n")` from cell 0 returns 16 and nil for 17 input bytes; io.Writer requires an error when n < len(p), and `bytes.Buffer.WriteTo` (cmd/smclcd/watch.go:175) then fails with a short write | every consumed newline is counted, so an error-free Write returns len(p) | not executed | SmclcdProps.WriteShortCount | SmclcdProps.WriteCountedComplete |
