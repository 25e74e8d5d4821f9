# Synaptics TouchPad over PS/2: a Dafny model

This project models the core of an Arduino driver for a Synaptics PS/2 TouchPad. The driver has four layers:

- **PS/2 command words** (`src/ps2.h`). Each 16-bit command word packs an opcode with the number of argument bytes the host sends and the number of response bytes the device returns. Module `Ps2Commands` covers this layer: the word layout with its encode/decode round trip, the seven commands the driver uses, and the bytes a sequence of commands puts on the bus.
- **The PS/2 transport** (`src/ps2.cpp`). Module `Ps2` covers this layer.
  - A PS/2 frame is 11 bits: start 0, eight payload bits least significant first, odd parity, stop 1.
  - `Ps2.Port` is a class whose fields are the receiver's globals: `receiveIndex`, `receiveBuffer` and `parity`. It also has five more fields:
    - the bytes handed to the `byte_received` callback;
    - the error log;
    - the bits the host drives on the data line;
    - the (ghost) bits of the frame being received;
    - the (ghost) sequence of commands issued.
  - `bit_received` is the interrupt handler, one state change per falling clock edge. The model proves the receiver's invariant: the buffer always packs the payload bits received so far, and `parity` always holds the XOR of every bit received after the start bit (the payload and, once it arrives, the parity bit). At the stop bit it delivers exactly the byte whose frame was received.
  - `write_byte` transmits a frame. Every transmitted frame is proved to pass the receiver's checks and to be read back as the same byte.
  - `read_byte` reads one.
  - `ps2_command` sends the opcode and the argument bytes the word asks for, then stores the response bytes.
- **The Synaptics layer** (`src/synaptics.cpp`). Module `Synaptics` covers this layer.
  - `special_command` smuggles a byte to the pad as four SETRES arguments. The model proves this split is invertible.
  - `status_request` is the information query.
  - `init` issues four queries and decodes their replies: version, capabilities, resolution and extended capabilities with the ClickPad type. It then sets the mode with a fixed command sequence. The model proves that the commands it issues carry exactly the documented 26 bytes `F5`, `E6 E6 E8 03 E8 00 E8 01 E8 01 F3 14`, `E6 E6 E8 00 E8 00 E8 00 E8 03 F3 C8`, `F4`.
- **`SimpleAverage<T, N>`** (`src/synaptics.h`). This is a moving-average filter over a ring buffer of the last N samples.
  - Module `Averaging` holds its theory:
    - the window of the last N inputs;
    - C's truncating division;
    - the ring-buffer layout;
    - the bound and convergence results.
  - Module `SimpleAveraging` holds the class. Its array, count, running sum and write index are updated in place. A ghost `history` holds every sample pushed since the last reset. `Valid()` ties the fields to that history.
  - `Filter` keeps `Valid()` and returns the truncated mean of the last `min(count, N)` inputs.
  - The accessors return the size, sum, oldest and newest element of that window.

Pin reads, replies read from the device and acknowledgement frames are parameters of the operations that consume them. Bits the host drives are appended to `Ps2.Port.wire`.

## Model

| member | source | states |
|---|---|---|
| Ps2Commands.EncodeDecode | src/ps2.h:30-36 | Every 16-bit command word is the encoding of its decoded fields (opcode in bits 0-7, response count in bits 8-11, argument count in bits 12-15). |
| Ps2Commands.DecodeEncode | src/ps2.h:30-36 | Decoding an encoded word gives back its opcode, send count and receive count. The layout is a bijection. |
| Ps2Commands.CommandTable | src/ps2.h:30-36 | Each of the seven constants decodes to its opcode and counts: SETSCALE11 E6/0/0, SETRATE F3/1/0, ENABLE F4/0/0, DISABLE F5/0/0, RESET_BAT FF/0/2, SETRES E8/1/0, GETINFO E9/0/3. |
| Ps2Commands.Decode | src/ps2.cpp:232-234 | How ps2_command splits a command word: opcode `command & 0xFF`, send count bits 12-15, receive count bits 8-11; EncodeDecode and DecodeEncode prove it a bijection. |
| Ps2Commands.TraceBytes | src/ps2.cpp:229-249 | The bytes a run of ps2_command calls puts on the bus, command after command; TraceBytesAppend and TraceBytesSnoc give its structure. |
| Ps2Commands.WireBytes | src/ps2.cpp:232-238 | The bytes one command puts on the bus are its opcode followed by exactly its arguments. |
| Ps2Commands.TraceBytesAppend | src/ps2.cpp:229-249 | The bytes of two command sequences issued one after the other are the concatenation of their bytes. |
| Ps2Commands.TraceBytesSnoc | src/ps2.cpp:229-249 | Issuing one more command appends exactly that command's bytes. |
| Ps2.BitsDetermineByte | src/ps2.cpp:98 | Two bytes with the same eight bits are equal. |
| Ps2.LsbFirstBits | src/ps2.cpp:178-190 | The transmit order lists bit i of the byte at position i (least significant first). |
| Ps2.ShiftedBit | src/ps2.cpp:184 | After `data >>= 1`, bit i-1 is the old bit i. |
| Ps2.PackLsbBits | src/ps2.cpp:98 | OR-ing bit k in at position k gives a byte whose bit i is the i-th received bit, or 0 past the end. |
| Ps2.PackLsbSnoc | src/ps2.cpp:98 | Receiving one more payload bit ORs it in at the next position. |
| Ps2.PackLsbFirst | src/ps2.cpp:96-99 | Packing the transmitted bit order gives back the byte: the receiver inverts the transmitter. |
| Ps2.LsbFirstPack | src/ps2.cpp:178-190 | Splitting a packed byte gives back the eight bits: the other direction of the round trip. |
| Ps2.XorAppend | src/ps2.cpp:99 | The XOR of a concatenation is the XOR of the XORs. |
| Ps2.Xor | src/ps2.cpp:141-145 | The parity accumulator: the XOR of the bits read so far (0 for none), as `parity ^= bit` builds it in read_byte and at src/ps2.cpp:99-103 in bit_received. |
| Ps2.LsbFirst | src/ps2.cpp:178-185 | write_byte's transmit order: the first n bits of the byte, least significant first, as the mask-and-shift loop produces them (n bits long; LsbFirstBits gives their content). |
| Ps2.PackLsb | src/ps2.cpp:140 | The byte assembled by OR-ing `bit << i` into `data` (and into `receive_buffer` at src/ps2.cpp:98 in bit_received) from the bits read so far; PackLsbBits gives its bits and PackLsbFirst/LsbFirstPack its round trip with LsbFirst. |
| Ps2.XorPrefix | src/ps2.cpp:141 | Extending the parity by one bit XORs that bit in. |
| Ps2.OddParity | src/ps2.cpp:175-194 | The parity bit write_byte sends makes the XOR of payload plus parity equal 1 (odd parity). |
| Ps2.Frame | src/ps2.cpp:174-200 | A transmitted frame is 11 bits long. |
| Ps2.Frames | src/ps2.cpp:236-238 | A run of bytes takes 11 bits per byte. |
| Ps2.FramesSnoc | src/ps2.cpp:236-238 | Writing one more byte appends its frame. |
| Ps2.FramesAppend | src/ps2.cpp:236-238 | The frames of two byte runs are the concatenation of their frames. |
| Ps2.FrameChecks | src/ps2.cpp:174-200 | A transmitted frame has start bit 0 and stop bit 1. Payload plus parity XOR to 1. Its payload packs back to the byte. |
| Ps2.FrameReceivedClean | src/ps2.cpp:91-117 | Fed bit by bit to the interrupt receiver, a transmitted frame raises no start, parity or stop error at any position. |
| Ps2.ReadErrors | src/ps2.cpp:127-155 | read_byte logs a start error iff bit 0 is not 0, a parity error iff payload plus parity do not XOR to 1, and a stop error iff bit 10 is not 1. It logs nothing else. |
| Ps2.FrameReadsBack | src/ps2.cpp:124-161 | Reading a transmitted frame logs no error and returns the byte that was sent. |
| Ps2.OrBitAt | src/ps2.cpp:98 | The receive buffer with the received bit ORed in at position k, as `bit << (receive_index - 1)` is ORed into it; PayloadBitStep proves the result is the packed payload with the new bit. |
| Ps2.PayloadBitStep | src/ps2.cpp:96-99 | OR-ing the received bit in at position receive_index-1 keeps the buffer equal to the packed payload received so far. |
| Ps2.ParityStep | src/ps2.cpp:99-102 | XOR-ing the received bit keeps `parity` equal to the XOR of all payload and parity bits received so far. |
| Ps2.BitErrors | src/ps2.cpp:91-117 | The interrupt receiver logs at most one error per bit: a start error iff index 0 sees a 1, a parity error iff at index 9 payload plus parity do not XOR to 1, and a stop error iff index 10 sees a 0. It never logs a line-control or missing-ACK error. |
| Ps2.Port.constructor | src/ps2.cpp:69-71 | The receiver starts idle (index, buffer and parity 0), and no byte has been delivered, logged, sent or commanded. |
| Ps2.Port.DisableInterrupt | src/ps2.cpp:73-80 | Any partial frame is abandoned: the receiver is idle and consistent again, and nothing else changes. |
| Ps2.Port.BitReceived | src/ps2.cpp:84-120 | A rising edge changes nothing. Every falling edge keeps the receiver invariant (buffer = packed payload so far, parity = XOR so far) and logs exactly that bit's error. Before the stop bit, the bit joins the frame and nothing is delivered. At the stop bit, exactly the frame's payload byte is delivered and the receiver returns to idle. |
| Ps2.Port.StartBit | src/ps2.cpp:91-95 | Index 0: the bit joins the frame, the invariant holds, and a start error is logged iff the bit is 1. |
| Ps2.Port.PayloadBit | src/ps2.cpp:96-99 | Indices 1-8: the bit joins the frame and is packed into the buffer at its position. The invariant holds and nothing is logged. |
| Ps2.Port.ParityBit | src/ps2.cpp:100-106 | Index 9: the parity check and its error, with the invariant kept. |
| Ps2.Port.StopBit | src/ps2.cpp:107-117 | Index 10: the stop check, delivery of the packed payload, and the receiver back to idle. |
| Ps2.Port.Transmit | src/ps2.cpp:174-200 | The bits driven on the data line are exactly the frame of the byte: start 0, payload least significant first, odd parity, stop 1. |
| Ps2.Port.ReadByte | src/ps2.cpp:124-161 | Returns the payload of the 11 bits read, packed least significant first, and logs exactly the start, parity and stop errors of that frame. |
| Ps2.Port.WriteByte | src/ps2.cpp:164-215 | Drives the byte's frame. Logs the line-control error, the ack frame's own errors and a missing-ACK error exactly when they occur. Returns true iff the ack byte is 0xFA (corrected result, see Findings). |
| Ps2.Port.SendArguments | src/ps2.cpp:236-238 | The argument loop drives exactly the frames of the first `send` argument bytes, in order. |
| Ps2.Port.SendCommand | src/ps2.cpp:232-238 | Sends the opcode and then exactly as many arguments as the word's send count. The line carries their frames. |
| Ps2.Port.Ps2Command | src/ps2.cpp:229-249 | Abandons any partial frame and records the command with exactly its send-count arguments. The line carries that command's frames. The first receive-count slots of a non-null result hold the response bytes and the rest are untouched. Returns true. |
| Ps2.CommandFrames | src/ps2.cpp:232-238 | A command's frames are the opcode's frame followed by its arguments' frames. |
| Ps2.TraceFrames | src/ps2.cpp:229-249 | The bits a run of ps2_command calls drives on the data line: the frames of its bytes. |
| Ps2.TraceFramesAppend | src/ps2.cpp:229-249 | The line traffic of consecutive command sequences concatenates. |
| Ps2.TraceFramesOne | src/ps2.cpp:229-249 | One command's line traffic is the frames of its bytes. |
| Ps2.PlainCommandFrames | src/ps2.cpp:251-255 | reset, enable and disable each put exactly the one frame of FF, F4 and F5 on the line. |
| Ps2.ReadResponses | src/ps2.cpp:240-245 | The response loop stores the responses in result[0..receive) when result is not null and leaves every other slot as it was. |
| Ps2.ReadStep | src/ps2.cpp:135-145 | One pass of read_byte's loop ORs bit i in at position i and XORs it into the parity. |
| Ps2.Port.Reset | src/ps2.cpp:251 | Issues RESET_BAT with no arguments and discards its two reply bytes. |
| Ps2.Port.Enable | src/ps2.cpp:253 | Issues ENABLE with no arguments. |
| Ps2.Port.Disable | src/ps2.cpp:255 | Issues DISABLE with no arguments. |
| Ps2.WriteResultAsWritten | src/ps2.cpp:210-215 | As written: false on a missing ACK, and no return value at all when the ACK arrives. |
| Ps2.WriteResult | src/ps2.cpp:210-215 | As intended: true exactly when the ACK byte 0xFA arrives. |
| Ps2.WriteResultDiffersOnAck | src/ps2.cpp:210-215 | The two differ exactly on ack 0xFA. |
| Synaptics.SetResArgs | src/synaptics.cpp:13-16 | special_command sends four arguments, each below 4 (a bit pair). |
| Synaptics.SetResArgsJoin | src/synaptics.cpp:10-17 | The four arguments reassemble to the byte that was sent. |
| Synaptics.JoinSetResArgs | src/synaptics.cpp:10-17 | Any four 2-bit arguments are the split of the byte they spell. The encoding is a bijection. |
| Synaptics.SetResArgsExamples | src/synaptics.cpp:81-83 | 0xC5 is sent as 3,0,1,1 and 0x03 as 0,0,0,3, as the mode sequence's comment lists. |
| Synaptics.BitPair | src/synaptics.cpp:14 | `(command >> i) & 0x03`: a value below 4, the resolution argument of one loop step. |
| Synaptics.StatusCommands | src/synaptics.cpp:19-23 | The commands of status_request(arg): the four SETRES of special_command(arg), then GETINFO. |
| Synaptics.SpecialCommands | src/synaptics.cpp:13-16 | special_command issues four commands. |
| Synaptics.SpecialCommandAt | src/synaptics.cpp:13-16 | The n-th command is SETRES with bits 7-2n and 6-2n of the byte, most significant pair first. |
| Synaptics.SetResSend | src/synaptics.cpp:15 | SETRES sends its one argument and reads nothing back. |
| Synaptics.SpecialBytes | src/synaptics.cpp:10-17 | special_command puts E8 a0 E8 a1 E8 a2 E8 a3 on the bus. |
| Synaptics.FourBytes | src/ps2.cpp:229-249 | Four commands in a row put their four byte groups on the bus in order. |
| Synaptics.SetResBytes | src/ps2.cpp:232-238 | A SETRES command is the bytes E8 and its argument. |
| Synaptics.SingleBytes | src/ps2.cpp:232-234 | A command without arguments is its opcode alone. |
| Synaptics.IdentityCommands | src/synaptics.cpp:31-37 | The first two queries of init: status_request(0x00), then status_request(0x02). |
| Synaptics.ModelCommands | src/synaptics.cpp:57-64 | The last two queries of init: status_request(0x08), then status_request(0x0C). |
| Synaptics.QueryCommands | src/synaptics.cpp:31-64 | All four status_request calls of init, in source order. |
| Synaptics.ModeHalf | src/synaptics.cpp:91-95 | One half of the mode sequence: SETSCALE11 twice, special_command(c), then SETRATE with the rate (the second half at src/synaptics.cpp:97-101). |
| Synaptics.ModeBody | src/synaptics.cpp:91-101 | The two halves, with 0xC5/0x14 then 0x03/0xC8. |
| Synaptics.ModeCommands | src/synaptics.cpp:89-103 | DISABLE, the two halves, ENABLE: the commands SetMode issues and ModeBytes turns into bytes. |
| Synaptics.ModeHalfBytes | src/synaptics.cpp:91-95 | Each half of the mode sequence is E6 E6, the four SETRES pairs, then F3 and the rate. |
| Synaptics.FirstHalfBytes | src/synaptics.cpp:91-95 | The first half is E6 E6 E8 03 E8 00 E8 01 E8 01 F3 14. |
| Synaptics.SecondHalfBytes | src/synaptics.cpp:97-101 | The second half is E6 E6 E8 00 E8 00 E8 00 E8 03 F3 C8. |
| Synaptics.ModeBytes | src/synaptics.cpp:81-103 | The commands the mode-setting code issues carry exactly the 26 bytes of the commented sequence (F5, the two halves, F4). |
| Synaptics.DecodeVersion | src/synaptics.cpp:32-33 | The major version is the low nibble of reply byte 2 and the minor version is reply byte 0. |
| Synaptics.DecodeCapabilities | src/synaptics.cpp:38-47 | Capabilities are reported iff bit 7 of byte 0 is set. Then the extended-query count is 0, or 8 plus bits 4-6 of byte 0 when those are nonzero (so 9-15). Middle button is byte 0 bit 2. Four buttons, multi-finger and palm detection are byte 2 bits 3, 1 and 0. |
| Synaptics.ClickpadType | src/synaptics.cpp:66-68 | The ClickPad type is below 4, so it always indexes the four-name table. |
| Synaptics.ClickpadTypeBits | src/synaptics.cpp:66 | Type bit 0 is bit 4 of byte 0 and type bit 1 is bit 0 of byte 1. No other bit is set. |
| Synaptics.DecodeExtended | src/synaptics.cpp:65-70 | The ClickPad name is the table entry for the type. Covered-pad gesture, advanced gestures and ClearPad are bits 7, 3 and 2 of byte 0. |
| Synaptics.Touchpad.constructor | src/synaptics.cpp:6-8 | The driver globals start at zero on the given port. |
| Synaptics.Touchpad.SpecialCommand | src/synaptics.cpp:10-17 | Issues exactly the four SETRES commands of the byte. The port ends idle and consistent. |
| Synaptics.Touchpad.Send | src/ps2.cpp:229-249 | Issues one command that reads nothing back, with exactly its send-count arguments. |
| Synaptics.Touchpad.StatusRequest | src/synaptics.cpp:19-23 | Issues the special command of the argument, then GETINFO. The three reply bytes land in result[0..3] and the rest of result is untouched. |
| Synaptics.Touchpad.QueryIdentity | src/synaptics.cpp:31-55 | Issues the queries 0x00 and 0x02 and returns the decoded version and capabilities of their replies. |
| Synaptics.Touchpad.QueryModel | src/synaptics.cpp:57-74 | Issues the queries 0x08 and 0x0C. It sets units per mm X and Y to reply bytes 0 and 2 and the ClickPad type from the last reply, and returns the decoded extended capabilities. |
| Synaptics.Touchpad.QueryInfo | src/synaptics.cpp:26-74 | The four queries in order, and the full decoded report. |
| Synaptics.Touchpad.SetModeHalf | src/synaptics.cpp:91-101 | Issues SETSCALE11 twice, the special command and SETRATE with the rate. |
| Synaptics.Touchpad.SetModeBody | src/synaptics.cpp:91-101 | Issues the two halves with 0xC5/0x14 and 0x03/0xC8. |
| Synaptics.Touchpad.SetMode | src/synaptics.cpp:89-103 | Issues DISABLE, the two halves and ENABLE (whose bytes ModeBytes gives). |
| Synaptics.Touchpad.Init | src/synaptics.cpp:25-104 | Issues exactly the four queries followed by the mode sequence. It sets units per mm and the ClickPad type from the replies, returns the decoded report and leaves the port idle. |
| Averaging.CDiv | src/synaptics.h:38 | Division truncating toward zero, as C's `/` on int: the remainder is smaller than the divisor in magnitude and has the sign of the dividend. |
| Averaging.WindowOf | src/synaptics.h:16-22 | The window holds the last min(count, N) samples. |
| Averaging.WindowPush | src/synaptics.h:26-36 | Pushing a sample appends it and drops the oldest once the window is full. |
| Averaging.Repeat | src/synaptics.h:26-39 | A run of one value. |
| Averaging.SumDropFirst | src/synaptics.h:30 | The sum splits off its first element, the one a full buffer subtracts. |
| Averaging.SumRepeat | src/synaptics.h:28 | The sum of n copies of v is n*v. |
| Averaging.SumBounds | src/synaptics.h:28-30 | A sum of values in [lo, hi] lies between count*lo and count*hi. |
| Averaging.CDivMultiple | src/synaptics.h:38 | Truncating division of n*v by n is exact. |
| Averaging.CDivBounds | src/synaptics.h:38 | Truncating division of a sum of count values in [lo, hi] lies in [lo, hi]. |
| Averaging.AverageWithinWindow | src/synaptics.h:26-39 | The filter's output lies between the least and greatest samples in its window. |
| Averaging.ConstantInputConverges | src/synaptics.h:26-39 | After N or more equal inputs v, the window is all v and the output is exactly v, whatever came before. |
| Averaging.AverageOf | src/synaptics.h:65-68 | What average() and filter's return (src/synaptics.h:38) report after a history: 0 when the window is empty, else the truncated mean of the window. |
| Averaging.NextSlot | src/synaptics.h:34 | The write index after `if (++m_index >= N) m_index = 0`: stays within the N slots, is index + 1 below the last slot and wraps to 0 from the last slot. |
| Averaging.RingSlot | src/synaptics.h:47-63 | The j-th oldest element's slot is within the buffer. |
| Averaging.RingPush | src/synaptics.h:30-36 | Writing at the index, advancing it with wrap-around and saturating the count keeps the buffer a ring holding the updated window. |
| Averaging.SumPush | src/synaptics.h:28-30 | Adding the new sample and subtracting the overwritten one when full gives the updated window's sum. |
| Averaging.FilterStep | src/synaptics.h:26-36 | One filter step keeps ring, count, index and running sum consistent with the history extended by the sample. |
| Averaging.EmptyConsistent | src/synaptics.h:40-44 | A reset state is consistent with the empty history. |
| SimpleAveraging.SimpleAverage.constructor | src/synaptics.h:25 | A new filter is reset: count, sum and index are 0, with an empty history. |
| SimpleAveraging.SimpleAverage.Filter | src/synaptics.h:26-39 | The sample is written at the index. The index advances with wrap-around, the count saturates at N, and the sum adds the sample and drops the overwritten value once full. The state stays consistent with the history, and the result is the truncated mean of the last min(count, N) samples. |
| SimpleAveraging.SimpleAverage.Reset | src/synaptics.h:40-44 | Count, sum and index become 0 and the buffer contents are untouched. The window is empty, and oldest, newest and average all return 0. |
| SimpleAveraging.SimpleAverage.Count | src/synaptics.h:45 | The count is the window's size, min(samples since reset, N). |
| SimpleAveraging.SimpleAverage.RunningSum | src/synaptics.h:46 | The running sum is the sum of the window. |
| SimpleAveraging.SimpleAverage.Oldest | src/synaptics.h:47-56 | Returns 0 when empty, otherwise the oldest sample in the window (slot 0 before the buffer fills, the write index after). |
| SimpleAveraging.SimpleAverage.Newest | src/synaptics.h:57-64 | Returns 0 when empty, otherwise the most recent sample. |
| SimpleAveraging.SimpleAverage.Average | src/synaptics.h:65-68 | Returns 0 when empty, otherwise the truncated mean of the window, the same value Filter returned last. |

## Left out

- Pin I/O, `wait_clock`'s busy-wait and 25 ms timeout, the microsecond delays, `cli`/`sei`, `volatile` and `attachInterrupt`/`begin` are not modelled. Clock levels, data bits, line-control bits and acknowledgement frames are parameters.
- The bytes `read_byte` returns inside `ps2_command` and `status_request` are parameters (`responses`, `reply`). The device is not modelled.
- The `Serial.println` text and the `sprintf` report are not modelled. Errors become `LineError` values in `Ps2.Port.log`, and init's report becomes the `Report` value that `Synaptics.Touchpad.Init` returns.
- Ps2.Port.Ps2Command, Ps2.Port.SendCommand, Ps2.Port.SendArguments: send every byte through `Transmit` and leave out each `write_byte`'s line-control read and acknowledgement read, and so their log entries. `ps2_command` ignores `write_byte`'s result, and this read and check are modelled once, in `Ps2.Port.WriteByte`.
- Ps2.Port.Ps2Command: the response bytes' own frames (read with `read_byte`) are not modelled at bit level; only the returned bytes are.
- Synaptics.Touchpad.Send: requires a command that reads nothing back, because every command `synaptics.cpp` issues through it is SETRES, SETSCALE11 or SETRATE, none of which has a response byte (DISABLE and ENABLE go through `Ps2.Port.Disable` and `Ps2.Port.Enable`); its `responses` argument is `[]`.
- Synaptics.Touchpad.SpecialCommand and the other `Synaptics.Touchpad` methods state the command trace (`port.commands`), not the wire bits. The bits of one command follow from `Ps2.Port.Ps2Command` and `Ps2.TraceFramesAppend`.
- Ps2.Port.BitReceived: `parity` is a `bv1`. The source keeps a `uint8_t`, but it only ever XORs pin reads of 0 or 1 into it, so the value is always 0 or 1.
- SimpleAveraging.SimpleAverage.Filter: samples are unbounded integers, so the overflow of `int m_sum` on 16-bit AVR `int` is not modelled. The element type `T` is `int`.
- SimpleAveraging.SimpleAverage.constructor: the buffer's initial contents are arbitrary, as `new int[N]` leaves them, like the indeterminate contents of the C++ array. No contract depends on them: `Averaging.EmptyConsistent` holds for any buffer.
- `src/hid.h` (the USB HID report types) is not part of this model. The touch-packet parsing and gesture code elsewhere in the repository are not part of this model either.

## Findings

| source | as written | input that shows it | evidently intended | confidence | as-written member | corrected member |
|---|---|---|---|---|---|---|
| src/ps2.cpp:210-215 | `write_byte` returns `false` when the ACK is missing, but has no `return` on the success path: control falls off the end of a `bool` function | the device answers with ack byte 0xFA | return `true` when the ACK 0xFA arrives | not executed | Ps2.WriteResultAsWritten, Ps2.WriteResultDiffersOnAck | Ps2.WriteResult, Ps2.Port.WriteByte |
