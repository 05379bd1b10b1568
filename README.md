# ESP32-C6 sensor and command server: a Dafny model

This project models the core of the `test-esp32-c6` firmware, in two parts.

The first part is the DHT11 reader in `src/bin/main.rs`:
- `wait_with_timeout` busy-waits for a pin level.
- The read cycle waits for the sensor's acknowledgement (Low, then High). It then measures how long the line stays high for each of the 40 data bits. A pulse of 40 µs or more is a 1.
- The cycle does not wait out the acknowledgement's 80 µs high, so against the DHT11 waveform, with its log lines taking no time, it reads the frame one bit late (see "## Findings").
- The 40-bit frame is decoded into five 8-bit fields (`from_buffer`, `bits_to_int`).
- The frame is checked by `is_valid`: the low byte of the four data fields' sum must equal the checksum.

The second part is the LED command server in `src/tcp_server.rs`, `src/command_handler.rs` and `src/led_control.rs`:
- `handle_client` sends a welcome message. It then reads into a 256-byte buffer, at most one socket read per pass.
- Each pass answers at most one line, the one that ends at the first `\n`. The line is decoded as UTF-8 (the empty command if that fails). Then trailing `\r` is stripped and the text is trimmed.
- After the answer, the bytes that follow the line are moved to the front of the buffer. The buffer is dropped, with an error message, when it fills without a line end.
- `process_command` upper-cases the command and answers it. `LED_ON` and `LED_OFF` write the global LED flag and `STATUS` reads it.
- `led_control` holds that global flag, its setter and getter, and the `LedControl` instance that drives the LED pin from it.

How the model is built:
- **The sensor line** is a trace of polls, `Dht11Cycle.Sample(elapsed, level)`. Each poll reads the pin level and the time elapsed since the current wait began.
- **A wait** ends at the first poll that has the goal level (success) or whose time exceeds the timeout (failure).
- **The cycle's buffers** are the two 40-entry arrays `main` keeps, fields of the class `Dht11Cycle.Dht11Sensor`.
- **The socket** is the sequence of things the peer sends: runs of bytes and, possibly, a failure.
  - A read delivers as many bytes of the next run as fit in the free part of the buffer. The rest of the run is left for the next read.
  - An empty run, or the end of the sequence, is a read of 0 bytes.
- **The server's writes** are the list of messages passed to `write_all`.
- **A session's specification** is the function `TcpServer.Run`. The imperative `TcpServer.HandleClient` loop is proved equal to it.
- **The LED flag** is one shared object, `LedControl.LedFlag`.
  - The server's own `process_command` writes the flag directly.
  - The command handler's `process_command` goes through `set_led_state` and `get_led_state`.
  - Both are proved to follow the pure transition `Commands.ProcessCommand`.

Behaviour of the code that the model keeps as written:
- **Timeouts are not acted on.** The read cycle decodes the frame whatever the waits returned. A cycle in which every wait times out decodes to five 255-valued fields, which fail the checksum. The firmware never aborts a cycle on a timeout.
- **The acknowledgement's high is read as bit 0.** `Dht11Cycle.Dht11Sensor.ReadCycle` keeps the firmware's two acknowledgement waits. Over the DHT11's waveform (`Dht11Cycle.SensorTrace`) it records the frame one bit late (`Dht11Cycle.SensorReadingShifted`). `Dht11Cycle.Dht11Sensor.CorrectedReadCycle` adds the missing wait for Low, and that cycle decodes every reading as sent (`Dht11Cycle.CorrectedSensorRoundTrip`).
- **Extra buffered lines wait.** When one read brings several lines, only the first is answered in that pass. The rest stays buffered until the next read. If the peer then closes, the rest is never answered (`TcpServer.SecondLineWaits`).
- **`is_valid` masks the sum.** It masks the i32 sum with `& 0xFF`. Byte fields sum to at most 1020, so the sum cannot overflow. The model takes the sum's 32-bit two's complement pattern and proves the mask gives the sum modulo 256; a sum wrapped to 32 bits would have the same low byte.

## Model

| member | source | states |
|---|---|---|
| Dht11.ClassifyBit | test-esp32-c6/src/bin/main.rs:125 | a bit is 0 or 1, and it is 1 exactly when the high time is at least 40 µs |
| Dht11.ClassifyBoundary | test-esp32-c6/src/bin/main.rs:125 | 39 µs reads as 0; 40 and 41 µs read as 1 |
| Dht11.BitsToInt | test-esp32-c6/src/bin/main.rs:37-44 | the shift-and-add loop computes the most-significant-first value of `buffer[start..end]`; for 0/1 entries it lies in 0 .. 2^(end-start)-1 |
| Dht11.SpanHorner | test-esp32-c6/src/bin/main.rs:40-42 | one more bit at the end doubles the value and adds the bit |
| Dht11.SpanBounds | test-esp32-c6/src/bin/main.rs:37-44 | a span of n bits has a value in 0 .. 2^n-1 |
| Dht11.SpanExamples | test-esp32-c6/src/bin/main.rs:37-44 | 00000001 is 1 and 10000000 is 128: the first bit is the most significant |
| Dht11.SpanOfOnes | test-esp32-c6/src/bin/main.rs:37-44 | a span of n ones is 2^n - 1 |
| Dht11.SpanLeadingOne | test-esp32-c6/src/bin/main.rs:37-44 | a span whose first bit is 1 is at least 2^(n-1) |
| Dht11.SpanValue | test-esp32-c6/src/bin/main.rs:37-44 | the value `bits_to_int` computes: the sum of `buffer[i] << (end - i - 1)`, 0 for an empty or reversed range; its bounds, its Horner step and its inverse `Bits` are the lemmas around it |
| Dht11.SpanOfBits | test-esp32-c6/src/bin/main.rs:37-44 | the value of the n-bit binary form of v (v < 2^n) is v |
| Dht11.BitsOfSpan | test-esp32-c6/src/bin/main.rs:37-44 | a bit string is the binary form of its own value |
| Dht11.FromBuffer | test-esp32-c6/src/bin/main.rs:27-35 | the five fields are bits 0-7, 8-15, 16-23, 24-31 and 32-39, and each is a byte when the buffer holds bits |
| Dht11.Decode | test-esp32-c6/src/bin/main.rs:27-35 | the five fields as the five 8-bit spans in wire order; `DecodeEncode` and `EncodeDecode` make it a bijection between 40-bit frames and byte readings |
| Dht11.DecodeFieldsAreBytes | test-esp32-c6/src/bin/main.rs:27-35 | decoding a 40-bit frame gives five fields in 0..255 |
| Dht11.EncodeIsBits | test-esp32-c6/src/bin/main.rs:27-35 | the frame that carries a reading of byte fields holds only 0s and 1s |
| Dht11.DecodeEncode | test-esp32-c6/src/bin/main.rs:27-35 | decoding the frame of any reading with byte fields gives that reading back |
| Dht11.EncodeDecode | test-esp32-c6/src/bin/main.rs:27-35 | every 40-bit frame is the frame of its own decoding, so decoding is one-to-one |
| Dht11.LowByte | test-esp32-c6/src/bin/main.rs:47 | `x & 0xFF` on the 32-bit two's complement pattern of x equals x mod 256 |
| Dht11.BitAndMask | test-esp32-c6/src/bin/main.rs:47 | AND with 2^n - 1 keeps the low n bits |
| Dht11.LowByteOfPattern | test-esp32-c6/src/bin/main.rs:47 | wrapping to 32 bits first does not change the low byte |
| Dht11.IsValid | test-esp32-c6/src/bin/main.rs:46-48 | valid exactly when the sum of the four data fields, mod 256, equals the checksum |
| Dht11.IsValidExample | test-esp32-c6/src/bin/main.rs:46-48 | data 25, 0, 22, 5 is valid exactly with checksum 52 |
| Dht11Cycle.FirstEnd | test-esp32-c6/src/bin/main.rs:62-72 | the poll that ends a wait is at or after its start, in the trace, and either has the goal level or is past the timeout |
| Dht11Cycle.FirstEndIsFirst | test-esp32-c6/src/bin/main.rs:64-65 | a wait ends at poll k exactly when k ends it and no earlier poll does |
| Dht11Cycle.FirstEndNone | test-esp32-c6/src/bin/main.rs:64-65 | a wait never ends exactly when no poll of the trace ends it |
| Dht11Cycle.WaitWithTimeout | test-esp32-c6/src/bin/main.rs:62-72 | the loop stops at the poll that ends the wait: success exactly when it saw the goal level, a timeout only past the limit, the poll's elapsed time returned, and every earlier poll had the wrong level within the limit |
| Dht11Cycle.BitEnds | test-esp32-c6/src/bin/main.rs:121-126 | n bit measurements end at n polls after their start, inside the trace |
| Dht11Cycle.CycleEnds | test-esp32-c6/src/bin/main.rs:108-126 | a cycle measures 40 bits, each at a poll of the trace |
| Dht11Cycle.CyclePulses | test-esp32-c6/src/bin/main.rs:124 | a cycle records 40 high times |
| Dht11Cycle.PulsesAt | test-esp32-c6/src/bin/main.rs:124 | a frame gives 40 high times, one per bit-ending poll |
| Dht11Cycle.BitsAt | test-esp32-c6/src/bin/main.rs:125 | a frame gives 40 bits, each 0 or 1 |
| Dht11Cycle.CycleBits | test-esp32-c6/src/bin/main.rs:125 | a cycle records 40 bits, each 0 or 1 |
| Dht11Cycle.AwaitAcknowledge | test-esp32-c6/src/bin/main.rs:108-116 | the two acknowledgement waits (Low, then High) stop where `AcknowledgeEnd` says |
| Dht11Cycle.MeasureBit | test-esp32-c6/src/bin/main.rs:122-124 | one bit: wait for High, then time the wait for Low; the high time is the elapsed time of the poll where the line went low, and the remaining bits start after it |
| Dht11Cycle.BitEndsAtOnce | test-esp32-c6/src/bin/main.rs:121-126 | when every level change happens on the first poll, bit i ends at poll start + 2i + 1 |
| Dht11Cycle.CycleEndsAtOnce | test-esp32-c6/src/bin/main.rs:108-126 | a line that responds on every first poll gives bit ends 3, 5, ..., 81 |
| Dht11Cycle.TimedOutEnds | test-esp32-c6/src/bin/main.rs:62-72 | when every poll is past the timeout, each wait ends on its first poll |
| Dht11Cycle.TimedOutCycleStillDecodes | test-esp32-c6/src/bin/main.rs:110-133 | when every wait times out the cycle does not abort: it records 40 ones and decodes 255, 255, 255, 255, 255, which fails the checksum |
| Dht11Cycle.AllOnesDecode | test-esp32-c6/src/bin/main.rs:27-35 | forty 1 bits decode to five fields of 255 |
| Dht11Cycle.AllOnesInvalid | test-esp32-c6/src/bin/main.rs:46-48 | five fields of 255 fail the checksum |
| Dht11Cycle.SensorAcknowledgePolls | test-esp32-c6/src/bin/main.rs:108-116 | the DHT11's acknowledgement as polled: Low after 20 µs, High after 80 µs, still High when the next wait begins, Low after 80 µs more |
| Dht11Cycle.SensorBitPolls | test-esp32-c6/src/bin/main.rs:121-126 | the DHT11 sends each bit as a 50 µs wait for High and then 70 µs (1) or 26 µs (0) high |
| Dht11Cycle.SensorBitClassified | test-esp32-c6/src/bin/main.rs:125 | each bit the sensor sends is classified back as that bit |
| Dht11Cycle.BitsFromPolls | test-esp32-c6/src/bin/main.rs:124-125 | the recorded bits are the classifications of the polls where the bits end |
| Dht11Cycle.CycleBitsAtEnds | test-esp32-c6/src/bin/main.rs:121-126 | a cycle whose bits end at given polls records those polls' classifications |
| Dht11Cycle.CorrectedCycleBitsAtEnds | test-esp32-c6/src/bin/main.rs:121-126 | the same for the corrected cycle |
| Dht11Cycle.SensorEnds | test-esp32-c6/src/bin/main.rs:108-126 | over the sensor's waveform the firmware ends bit i at poll 3 + 2i, so bit 0 times the acknowledgement's high |
| Dht11Cycle.SensorCycleBits | test-esp32-c6/src/bin/main.rs:115-126 | the firmware records a 1 and then the first 39 bits sent: the frame one bit late |
| Dht11Cycle.ShiftedPolls | test-esp32-c6/src/bin/main.rs:115-125 | poll 3 + 2i of the sensor's waveform classifies as bit i of the frame one bit late |
| Dht11Cycle.SensorReadingShifted | test-esp32-c6/src/bin/main.rs:115-131 | every reading sent decodes with a humidity of at least 128, so no reading with a humidity below 128 is decoded as sent |
| Dht11Cycle.LeadingOneHumidity | test-esp32-c6/src/bin/main.rs:29 | a frame that starts with a 1 decodes a humidity of at least 128 |
| Dht11Cycle.CorrectedAcknowledgeEnd | test-esp32-c6/src/bin/main.rs:108-117 | the acknowledgement with the wait for Low that the log line at 117 announces |
| Dht11Cycle.CorrectedAwaitAcknowledge | test-esp32-c6/src/bin/main.rs:108-117 | the two waits and then a wait for Low stop where `CorrectedAcknowledgeEnd` says |
| Dht11Cycle.CorrectedCycleEnds | test-esp32-c6/src/bin/main.rs:108-126 | a corrected cycle measures 40 bits, each at a poll of the trace |
| Dht11Cycle.CorrectedCyclePulses | test-esp32-c6/src/bin/main.rs:124 | a corrected cycle records 40 high times |
| Dht11Cycle.CorrectedCycleBits | test-esp32-c6/src/bin/main.rs:125 | a corrected cycle records 40 bits, each 0 or 1 |
| Dht11Cycle.CorrectedSensorAcknowledge | test-esp32-c6/src/bin/main.rs:108-117 | over the sensor's waveform the corrected acknowledgement ends at poll 3, on the fall of the acknowledgement's high |
| Dht11Cycle.CorrectedSensorEnds | test-esp32-c6/src/bin/main.rs:108-126 | with that wait, bit i ends at poll 5 + 2i of the sensor's waveform |
| Dht11Cycle.AlignedPolls | test-esp32-c6/src/bin/main.rs:121-125 | poll 5 + 2i of the sensor's waveform classifies as bit i |
| Dht11Cycle.CorrectedSensorCycleBits | test-esp32-c6/src/bin/main.rs:115-126 | with that wait, the cycle records exactly the 40 bits sent |
| Dht11Cycle.CorrectedSensorRoundTrip | test-esp32-c6/src/bin/main.rs:115-131 | with that wait, every reading sent is decoded as sent |
| Dht11Cycle.ByteOfOnes | test-esp32-c6/src/bin/main.rs:37-44 | eight 1 bits are 255 |
| Dht11Cycle.Fill | test-esp32-c6/src/bin/main.rs:89-90 | `fill` writes the value into every element |
| Dht11Cycle.Dht11Sensor.constructor | test-esp32-c6/src/bin/main.rs:86-87 | the two 40-entry buffers start at zero |
| Dht11Cycle.Dht11Sensor.ReadBits | test-esp32-c6/src/bin/main.rs:121-126 | entry i of the pulse buffer is bit i's high time and entry i of the bit buffer is its classification |
| Dht11Cycle.Dht11Sensor.ReadCycle | test-esp32-c6/src/bin/main.rs:88-133 | after a cycle the buffers hold exactly the cycle's pulses and bits, with nothing from an earlier cycle, and the reading is their decoding with byte fields |
| Dht11Cycle.Dht11Sensor.CorrectedReadCycle | test-esp32-c6/src/bin/main.rs:88-133 | the cycle with the extra wait for Low leaves the buffers holding the corrected cycle's pulses and bits, and decodes them |
| Text.DecodeScalar | test-esp32-c6/src/tcp_server.rs:52 | one UTF-8 sequence of 1 to 4 bytes, inside the input |
| Text.DecodeEncodeScalar | test-esp32-c6/src/tcp_server.rs:52 | the encoding of any scalar value decodes to that value, whatever follows it |
| Text.EncodeDecodeScalar | test-esp32-c6/src/tcp_server.rs:52 | every sequence the decoder accepts is exactly the encoding of the value it gives |
| Text.DecodeEncodeUtf8 | test-esp32-c6/src/tcp_server.rs:52 | `from_utf8` accepts the encoding of every string and returns that string |
| Text.DecodeUtf8 | test-esp32-c6/src/tcp_server.rs:52 | `from_utf8`: the text when every sequence is well formed, none otherwise; `DecodeEncodeUtf8` and `EncodeDecodeUtf8` make it the inverse of UTF-8 encoding |
| Text.EncodeDecodeUtf8 | test-esp32-c6/src/tcp_server.rs:52 | every byte string `from_utf8` accepts is the encoding of the text it returns |
| Text.DecodeUtf8Step | test-esp32-c6/src/tcp_server.rs:52 | a string the decoder accepts starts with the encoding of its first character, and the rest decodes to the remaining characters |
| Text.EncodeCons | test-esp32-c6/src/tcp_server.rs:52 | the encoding of a string is the encoding of its first character followed by that of the rest |
| Text.AsciiText | test-esp32-c6/src/tcp_server.rs:52 | the ASCII reading keeps one character per byte, with the byte's value |
| Text.DecodeAscii | test-esp32-c6/src/tcp_server.rs:52 | bytes below 0x80 decode one character per byte |
| Text.DecodeRejects | test-esp32-c6/src/tcp_server.rs:52-53 | a stray continuation byte, an overlong lead byte and an encoded surrogate are rejected |
| Text.LeadingSpace | test-esp32-c6/src/tcp_server.rs:55 | the longest whitespace prefix |
| Text.TrailingMatches | test-esp32-c6/src/tcp_server.rs:54 | the longest suffix made of one character |
| Text.TrailingSpace | test-esp32-c6/src/tcp_server.rs:55 | the longest whitespace suffix |
| Text.TrimShape | test-esp32-c6/src/tcp_server.rs:55 | `trim` removes exactly the leading and trailing whitespace, and the result starts and ends with non-whitespace |
| Text.Trim | test-esp32-c6/src/tcp_server.rs:55 | `trim`: the text without its longest whitespace prefix and suffix, as `TrimShape` states |
| Text.TrimEndMatches | test-esp32-c6/src/tcp_server.rs:54 | `trim_end_matches`: the text without its longest suffix of the character, which `TrailingMatches` gives |
| Text.TrimAllSpace | test-esp32-c6/src/tcp_server.rs:55 | whitespace alone trims to the empty string |
| Text.TrimIdempotent | test-esp32-c6/src/tcp_server.rs:55 | trimming twice is trimming once |
| Text.TrimAfterCarriageReturns | test-esp32-c6/src/tcp_server.rs:54-55 | stripping trailing `\r` before `trim` changes nothing, since `\r` is whitespace |
| Text.UpperChar | test-esp32-c6/src/tcp_server.rs:89 | a to z move up to A to Z; every other character is kept |
| Text.AsciiUpper | test-esp32-c6/src/tcp_server.rs:89 | upper-casing keeps the length and maps each character |
| Text.AsciiUpperIdempotent | test-esp32-c6/src/tcp_server.rs:89 | upper-casing twice is upper-casing once, and a string with no lower-case letter is kept |
| Commands.ProcessCommand | test-esp32-c6/src/tcp_server.rs:88-110 | the command protocol: the reply and new flag of each upper-cased command; both `process_command` methods are proved to follow it, and the lemmas below give its properties |
| Commands.SwitchesSetTheFlag | test-esp32-c6/src/tcp_server.rs:90-97 | LED_ON switches the flag on and LED_OFF off, whatever it was, with their replies |
| Commands.OnlySwitchesChangeTheFlag | test-esp32-c6/src/tcp_server.rs:89-109 | a command that changes the flag is the switch to the other state |
| Commands.StatusReportsTheFlag | test-esp32-c6/src/tcp_server.rs:98-104 | STATUS leaves the flag and reports ON exactly when it is set |
| Commands.OtherCommandsKeepTheFlag | test-esp32-c6/src/tcp_server.rs:105-108 | PING, HELP, the empty command and unknown commands give their fixed replies and keep the flag |
| Commands.UnknownCommands | test-esp32-c6/src/tcp_server.rs:108 | the unknown-command reply is given exactly for commands outside the known set |
| Commands.RepliesAreDistinct | test-esp32-c6/src/tcp_server.rs:92-108 | the eight replies are pairwise different |
| Commands.CaseInsensitive | test-esp32-c6/src/tcp_server.rs:89 | a command behaves as its upper-cased form |
| Commands.Idempotent | test-esp32-c6/src/tcp_server.rs:88-110 | repeating a command gives the same reply and flag |
| CommandHandler.ProcessCommand | test-esp32-c6/src/command_handler.rs:19-41 | the reply and the new flag are the transition of the command from the old flag |
| LedControl.LedFlag.constructor | test-esp32-c6/src/led_control.rs:3 | the flag starts off |
| LedControl.LedFlag.SetLedState | test-esp32-c6/src/led_control.rs:11-13 | the flag becomes the state given |
| LedControl.LedFlag.GetLedState | test-esp32-c6/src/led_control.rs:15-17 | the getter returns the flag |
| LedControl.LedControl.constructor | test-esp32-c6/src/led_control.rs:20-22 | the instance keeps the pin as given |
| LedControl.LedControl.SetOn | test-esp32-c6/src/led_control.rs:25-27 | the flag is on and the pin is not touched |
| LedControl.LedControl.SetOff | test-esp32-c6/src/led_control.rs:29-31 | the flag is off and the pin is not touched |
| LedControl.LedControl.IsOn | test-esp32-c6/src/led_control.rs:34-36 | returns the global flag |
| LedControl.LedControl.UpdateHw | test-esp32-c6/src/led_control.rs:38-44 | the pin is high exactly when the flag is on, and the flag is unchanged |
| LedControl.SetThenGet | test-esp32-c6/src/led_control.rs:11-17 | the flag reads back what was written, through the getter and through the instance |
| LedControl.SwitchAndUpdate | test-esp32-c6/src/led_control.rs:25-44 | switching and then updating leaves the pin at the state switched to |
| TcpServer.ProcessCommand | test-esp32-c6/src/tcp_server.rs:88-110 | the reply and the new flag are the transition of the command from the old flag |
| TcpServer.FirstNewline | test-esp32-c6/src/tcp_server.rs:50 | the position of the first `\n`, or none when there is none |
| TcpServer.FirstNewlineAt | test-esp32-c6/src/tcp_server.rs:50 | a `\n` with none before it is the one found |
| TcpServer.CommandText | test-esp32-c6/src/tcp_server.rs:51-55 | the command of a line: decoded as UTF-8 or the empty text, trailing `\r` stripped, trimmed; `CommandTextOfLine` and `CommandTextOfString` state it |
| TcpServer.FindNewline | test-esp32-c6/src/tcp_server.rs:50 | the search over the buffer's first `pos` bytes finds the first `\n` |
| TcpServer.CommandTextOfLine | test-esp32-c6/src/tcp_server.rs:51-55 | a well-formed line gives its text trimmed; a malformed one gives the empty command |
| TcpServer.CommandTextOfString | test-esp32-c6/src/tcp_server.rs:51-55 | text sent as UTF-8 arrives as that text, trimmed, with or without `\r` before the line end |
| TcpServer.FrameStep | test-esp32-c6/src/tcp_server.rs:50-76 | after a pass the buffer holds fewer than 256 bytes |
| TcpServer.FrameStepSpec | test-esp32-c6/src/tcp_server.rs:50-76 | a pass finds a command exactly when there is a `\n`, takes it from before the first one and keeps what follows in order; with no `\n` it keeps the bytes unless they fill the buffer, and then drops them |
| TcpServer.Receive | test-esp32-c6/src/tcp_server.rs:41 | a read delivers at most the free space, and consumes input whenever it delivers bytes |
| TcpServer.ReceiveKeepsOrder | test-esp32-c6/src/tcp_server.rs:41 | a read delivers the next bytes sent, as many as fit, leaving the rest for later, none lost or reordered |
| TcpServer.PassEffect | test-esp32-c6/src/tcp_server.rs:60-76 | what a pass writes and the flag after it: the reply and a prompt for the command found, then the too-long message if the buffer was full |
| TcpServer.Run | test-esp32-c6/src/tcp_server.rs:40-85 | a session from a buffered state: one read, then `AfterRead` |
| TcpServer.AfterRead | test-esp32-c6/src/tcp_server.rs:41-47 | a read error ends the session with it, a read of 0 bytes ends it with `Ok`, otherwise the bytes join the buffer and `Resume` runs the pass |
| TcpServer.Resume | test-esp32-c6/src/tcp_server.rs:50-84 | one pass over the buffer, its writes, and the rest of the session from the bytes it keeps |
| TcpServer.HandleClientSpec | test-esp32-c6/src/tcp_server.rs:32-86 | the welcome message, then the session from an empty buffer |
| TcpServer.RunOutcome | test-esp32-c6/src/tcp_server.rs:40-85 | a session ends with `Ok` at the stream's end and with the error of its first failure, whatever the commands |
| TcpServer.RunAtEnd | test-esp32-c6/src/tcp_server.rs:42-45 | a read of 0 bytes ends the session and writes nothing |
| TcpServer.RunFirstRead | test-esp32-c6/src/tcp_server.rs:41-47 | the first read takes the peer's first run when it fits |
| TcpServer.OneRunSession | test-esp32-c6/src/tcp_server.rs:32-47 | a peer that sends one run that fits gets the welcome message and then the passes over that run |
| TcpServer.ResumeWithLine | test-esp32-c6/src/tcp_server.rs:50-69 | a pass with a line answers it with the reply and a prompt and keeps what follows |
| TcpServer.OneLineSession | test-esp32-c6/src/tcp_server.rs:32-86 | one line and a close: welcome, reply, prompt, and the flag as the command leaves it |
| TcpServer.OverlongLineSession | test-esp32-c6/src/tcp_server.rs:72-76 | 256 bytes without a line end: welcome and the too-long message, no command run |
| TcpServer.SecondLineWaits | test-esp32-c6/src/tcp_server.rs:50-69 | of two lines in one read only the first is answered, and at the close the second never is |
| TcpServer.LineThenClose | test-esp32-c6/src/tcp_server.rs:32-86 | one run with a line end and then a close: welcome, the reply to the text before the first line end, a prompt, and nothing for what follows |
| TcpServer.OneLineData | test-esp32-c6/src/tcp_server.rs:50 | a line followed by `\n` has its first line end right after the line |
| TcpServer.TwoLinesData | test-esp32-c6/src/tcp_server.rs:50 | of two lines back to back, the first line end is the one after the first line |
| TcpServer.Read | test-esp32-c6/src/tcp_server.rs:41-47 | the read copies the bytes delivered after the buffered ones and keeps those |
| TcpServer.CopyWithin | test-esp32-c6/src/tcp_server.rs:64-69 | `copy_within` moves the tail to the front and leaves the rest |
| TcpServer.HandleBuffered | test-esp32-c6/src/tcp_server.rs:50-76 | the buffer after the pass holds the pass's kept bytes, and the writes and the flag are the pass's |
| TcpServer.FrameStepAtLine | test-esp32-c6/src/tcp_server.rs:50-69 | with the first line end at n, a pass takes the command before it, keeps what follows and never overflows |
| TcpServer.FrameStepWithoutLine | test-esp32-c6/src/tcp_server.rs:72-76 | with no line end, a pass keeps the bytes, or drops them exactly when they fill the buffer |
| TcpServer.HandleLine | test-esp32-c6/src/tcp_server.rs:50-69 | the line branch runs the command before the line end, writes its reply and a prompt, and moves what follows to the front of the buffer |
| TcpServer.ServeRead | test-esp32-c6/src/tcp_server.rs:47-76 | the handling after a read makes up the rest of the session |
| TcpServer.ServePass | test-esp32-c6/src/tcp_server.rs:41-82 | one loop pass: it stops as the session does, or writes the pass's messages and leaves the state from which the rest of the session goes on |
| TcpServer.HandleClient | test-esp32-c6/src/tcp_server.rs:32-86 | the outcome, every message written and the final flag are those of the session specification |

## Left out

- GPIO is not modelled: pin direction, output enables, the priming pulse (high 250 ms, low 20 ms, high) and the 5-second sleep between cycles. The cycle starts at the wait at main.rs:110, right after the line is released; the sensor's response follows 20 µs later.
- The clock is a parameter: each poll carries its elapsed time. `wait_with_timeout` reads the clock again when it returns, and the model returns the elapsed time of the last poll instead. Microsecond truncation of a `Duration` is not modelled.
- Dht11Cycle.WaitWithTimeout: it requires the trace to hold the poll that ends the wait. A running clock always eventually passes the timeout, but a finite trace can stop earlier.
- Dht11Cycle.Dht11Sensor.ReadCycle: for the same reason, it requires the trace to hold every wait of the cycle.
- Dht11Cycle.Dht11Sensor.CorrectedReadCycle: likewise, it requires the trace to hold every wait of the corrected cycle.
- Logging (`println!`, at main.rs:66, 109, 111, 114, 116, 117 and 118) and the `Display` of a reading are left out. The model takes every `println!` to take no time. That matters for the read cycle: the calls run between timed waits, so how long they take decides where on the sensor's waveform each `wait_with_timeout` starts. `SensorTrace` puts the bit loop's first poll at the instant the acknowledgement rises, which holds only if the three lines printed at main.rs:116-118 finish within the acknowledgement's 80 µs high.
- The i32 arithmetic of `bits_to_int` is mathematical. The five spans `from_buffer` uses are 8 bits wide, so with 0/1 entries, which is all the cycle ever stores, each value is below 256 and neither the shift nor the sum overflows i32. A span wider than 31 bits would overflow (a panic in a debug build), where the model gives the mathematical value.
- The `is_valid` sum is taken on unbounded integers and then masked through its two's complement pattern. For byte fields the i32 sum cannot overflow; for larger fields Rust would panic in a debug build and wrap in a release build, and the model gives the low byte of the unwrapped sum, which a wrapped sum shares.
- The socket is reduced to the sequence of runs the peer sends. Accepting, closing and the `recv_message` task that loops over connections are left out.
- Every `write_all` is taken to succeed. A failed write, which would end `handle_client` early with its error, is not modelled.
- Text.AsciiUpper: `to_uppercase` is modelled on ASCII letters only; other characters are kept as they are. Rust's full Unicode mapping also turns some non-ASCII letters into ASCII ones: `ſ` (U+017F) to `S`, `ı` (U+0131) to `I`, `ﬀ` (U+FB00) to `FF`. So the firmware runs STATUS for `ſtatus`, PING for `pıng` and LED_OFF for `led_oﬀ`, where the model answers with the unknown-command reply.
- The flag is a Rust `static mut`. Concurrent access from other tasks is left out.
- The server keeps its own `LED_ON` flag, separate from `led_control`'s. Both are modelled as a `LedFlag` passed in.
- These files are not part of this model: `src/main.rs`, `wifi_manager.rs`, the `test_esp32` crate and the TypeScript handler.

## Findings

| source | as written | input that shows it | evidently intended | confidence | as-written member | corrected member |
|---|---|---|---|---|---|---|
| test-esp32-c6/src/bin/main.rs:115-121 | after the acknowledgement's wait for High, the bit loop starts at once (taking the `println!` calls at 116-118 to finish within the acknowledgement's 80 µs high; if they take longer the loop starts later in the frame and the misalignment differs, but the missing wait for Low remains); its first wait for High returns on the acknowledgement's 80 µs high, and its wait for Low times that pulse as bit 0 | a DHT11 sending any reading, for example humidity 45, 0, temperature 23, 0, checksum 68: the frame is recorded as a 1 and then the first 39 bits, so the humidity decodes as at least 128 | a wait for Low before the bit loop, as the log line at 117 announces, so that each bit is timed from its own 50 µs low | high, not executed | Dht11Cycle.SensorReadingShifted | Dht11Cycle.CorrectedSensorRoundTrip |
