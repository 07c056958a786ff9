# Gill sonic anemometer decoders and acquisition session

This project models the serial anemometer core of the wind recorder in Dafny:

- **The two Gill frame decoders of `src/io/serial_gill.cxx`.**
  - `gillProcessFrame_WindSonic` decodes the 2D WindSonic "Polar, Continuous" ASCII frame.
  - `gillProcessFrame_WindMaster` decodes the 3D WindMaster ASCII frame.
  - Each port owns one element of a static decoder table. It holds a cursor into a fixed protocol template, a 100-byte frame buffer and, for the WindSonic, an XOR checksum.
  - Every received byte is checked against the class of the template slot under the cursor. A byte that fits is stored and moves the cursor on. A byte that does not fit discards the partial frame.
  - A completed frame is decoded into the port's slot of the shared `wind_data` table.
- **The acquisition session of `src/io/serial_anemometers.cxx`.**
  - `sonic_anemometer_init` opens and configures one serial port per anemometer, at 9600 baud for a WindSonic and 115200 for a WindMaster. It then starts one reader thread per port.
  - `sonic_anemometer_close` stops the readers and closes the ports, once per session.

The modules follow the program:

- `AnemometerTypes`: the `Anemometer_Data_t` record, `SERIAL_MAX_ANEMOMETERS` and an `Option` type.
- `GillProtocol`: what both decoders share:
  - the byte constants and the slot classes of the two templates;
  - C's `atoi` on a fixed-width field;
  - `Scan`, the per-byte decoding loop written once for any step function, with its splitting lemmas.
- `WindSonic` and `WindMaster`: each decoder twice over.
  - As a pure step function `Advance` on a `Matcher` value (cursor, frame, checksum, last reading), with `Run` folding it over a buffer.
  - As the program holds it: a `Decoder` class with the 100-byte `frame` array. Its `Step` method mirrors one pass of the `switch`, and `ProcessFrame` runs the `for` loop over a table of 20 decoders and the shared sample table.
  - The methods are proved against the functions. The properties of the protocol are lemmas about the functions.
- `Transport`: the operating-system calls the session makes (`serial_open`, `serial_setup`, `serial_close`, `pthread_create`, `pthread_join`). Each is an operation whose success the model does not predict. Each records its outcome in a log of events.
- `Anemometers`: the session statics (`num_ports`, `exit_thread`, `fd[]`, `read_thread_handle[]`, `thread_args[]`) as a `Session` class, with `Init` and `Close`.

Behaviour of the code worth knowing, which the model reproduces:

- **The 'X' slot class.** It admits more than digits. The WindSonic accepts any byte but `,` and `.` there. The WindMaster also rejects `+` and `-`.
- **The WindMaster ETX slot.** A byte other than ETX does not reset the cursor. It is skipped, so a frame whose ETX comes late is still accepted (`WindMaster.LateEtxDecoded`). So when a frame's ETX is lost, the decoder waits through the next frame's STX and body, and that frame's ETX completes the old frame: a stale reading is emitted and the new frame is lost.
- **Resynchronisation.** After a broken frame, the next well-formed frame with a matching checksum is decoded if no STX byte arrives between the two (`WindSonic.BrokenFrameThenResync`). An STX in between starts a false frame, which can swallow the next one. For example, a broken frame's checksum byte 0x02 right before the next frame's STX makes that STX the false frame's address.
- **The WindSonic status.** atoi's result is stored in a `char`, so a status field such as `-5`, which the 'X' slots admit, is kept as the byte 0xFB: -5 where `char` is signed, 251 where it is not (`WindSonic.NegativeStatus`). Nothing reads the status afterwards.
- **The history sequence.** It is declared but never appended to. The model has no history and no invariant linking it to the sample slot.
- **The WindMaster time stamp.** A WindMaster frame never writes it (`WindMaster.LastSampleKeepsTime`).
- **The WindMaster status words.** StaA and StaD combine their two characters with bitwise AND, so for ASCII status characters both words are 0 (`WindMaster.FrameStatusLost`). The decoder computes them as written, with the signedness of `char` a property of the platform held in the decoder state; see "## Findings".
- **The worked example.** A speed written with five characters, such as `002.3`, does not fit the template's six-byte speed field, so the worked example uses `002.30` (`WindSonic.PolarFrameDecoded`).

## Model

| member | source | states |
|---|---|---|
| GillProtocol.SonicTemplate | src/io/serial_gill.cxx:26 | the slot classes of the 21-slot WindSonic template: STX, address, direction, speed with its dot, units, status, ETX and the checksum slot |
| GillProtocol.MasterTemplate | src/io/serial_gill.cxx:42 | the slot classes of the 36-slot WindMaster template: STX, status address, status data, then U, V, W and T each as sign, two characters, dot, two characters, and ETX |
| GillProtocol.Atoi | src/io/serial_gill.cxx:206-214 | C's atoi on a copied field: leading white space skipped, one sign, then the digits up to the first non-digit |
| GillProtocol.AtoiBound | src/io/serial_gill.cxx:206-214 | atoi of an n-byte field lies strictly between -10^n and 10^n |
| GillProtocol.DigitsBound | src/io/serial_gill.cxx:206-214 | reading n more bytes onto an accumulator at most appends n digits to it |
| GillProtocol.DigitsOfDigits | src/io/serial_gill.cxx:206-208 | reading a run of digits onto an accumulator appends their positional value to it |
| GillProtocol.AtoiOfDigits | src/io/serial_gill.cxx:206-208 | atoi of a digit string, with or without a leading minus, is its decimal value (negated after a minus) |
| GillProtocol.AtoiOfNuls | src/io/serial_gill.cxx:157-161 | atoi of a field of NUL bytes is 0 |
| GillProtocol.Scan | src/io/serial_gill.cxx:144-231 | the `for` loop of a decoder: each byte of buf[lo..hi] handed to the step in order, the readings completed on the way collected in order |
| GillProtocol.ScanOne | src/io/serial_gill.cxx:144-231 | a loop over one byte is one step |
| GillProtocol.ScanSplit | src/io/serial_gill.cxx:144-231 | the loop over buf[lo..hi] is the loop over buf[lo..m] followed by the loop over buf[m..hi]: same final state, outputs concatenated |
| GillProtocol.ScanChunks | src/io/serial_gill.cxx:144-231 | looping over a + b equals looping over a, then over b from the state a left |
| WindSonic.Decode | src/io/serial_gill.cxx:205-214 | the reading of an accepted frame: address byte 1, atoi of bytes 3..5, atof of bytes 7..12, units byte 14, atoi of bytes 16..17 stored in a `char` |
| WindSonic.Sample | src/io/serial_gill.cxx:220-225 | the sample slot a decoded frame writes: (-sin d, -cos d, 0) for direction d, temperature 0 and the clock |
| WindSonic.Advance | src/io/serial_gill.cxx:145-230 | one pass of the switch on the slot under the cursor, case by case, including the low-speed comma at slot 3 and the checksum comparison |
| WindSonic.Fits | src/io/serial_gill.cxx:147-193 | the case tests of the switch: STX, any byte but ',' and '.' for 'X', ',' , '.', ETX, and any byte in the checksum slot |
| WindSonic.Checksum | src/io/serial_gill.cxx:149-198 | the XOR of the bytes between STX and the checksum slot, accumulated in order, that the checksum byte is compared with |
| WindSonic.Run | src/io/serial_gill.cxx:144-231 | the `for` loop of gillProcessFrame_WindSonic over buf[lo..hi] with the WindSonic step |
| WindSonic.LastSample | src/io/serial_gill.cxx:219-225 | what one call leaves in wind_data[index]: the sample of the last frame completed, or the slot unchanged when none is |
| WindSonic.ToChar | src/io/serial_gill.cxx:214 | an `int` stored in a `char`: its low eight bits, whatever the signedness |
| WindSonic.ToCharRoundTrip | src/io/serial_gill.cxx:214 | a value in -128..127 stored in a `char` reads back as itself where `char` is signed, and where it is unsigned exactly when it is not negative |
| WindSonic.DecodeBounds | src/io/serial_gill.cxx:205-214 | the decoded direction lies in -999..999, so it is exact as a float; atoi of the status field lies in -99..99, the stored status reads back as it where `char` is signed, and where `char` is unsigned exactly when it is not negative |
| WindSonic.NegativeStatus | src/io/serial_gill.cxx:212-214 | a status field "-5" is stored as 0xFB: -5 as a signed `char`, 251 as an unsigned one |
| WindSonic.LastSampleAppend | src/io/serial_gill.cxx:219-225 | with one clock, the sample slot after two batches of frames is the one after both at once |
| WindSonic.ChecksumSplit | src/io/serial_gill.cxx:149-182 | the XOR over a run is the XOR of the XORs over its two parts |
| WindSonic.ChecksumShift | src/io/serial_gill.cxx:149-182 | the checksum of a run depends only on the bytes in it |
| WindSonic.StartSlot | src/io/serial_gill.cxx:146-151 | in the start slot a byte other than STX changes nothing; STX is stored at frame[0], moves the cursor to 1 and clears the checksum; nothing is emitted |
| WindSonic.ViolationResets | src/io/serial_gill.cxx:152-188 | a byte outside the class of an 'X', ',' or '.' slot (other than the comma at slot 3) sets cursor and checksum to 0, keeps the buffer and emits nothing |
| WindSonic.EndSlotResets | src/io/serial_gill.cxx:189-194 | at the ETX slot any other byte sets the cursor to 0 and changes nothing else |
| WindSonic.EndStep | src/io/serial_gill.cxx:189-191 | ETX at its slot is stored and moves the cursor to the checksum slot |
| WindSonic.ChecksumGate | src/io/serial_gill.cxx:195-227 | the byte after ETX is stored and the cursor returns to 0; a reading is emitted if and only if that byte equals the running checksum, and it is the decoded buffer |
| WindSonic.EmitsOnlyAtCheck | src/io/serial_gill.cxx:145-230 | no slot but the checksum slot emits a reading |
| WindSonic.FitStep | src/io/serial_gill.cxx:152-188 | between STX and ETX a byte in its slot's class is stored at the cursor, advances it and is folded into the checksum |
| WindSonic.LowSpeedStep | src/io/serial_gill.cxx:157-163 | a comma at slot 3 stores three NULs and the comma at 3..6, moves the cursor to 7, XORs the comma into the checksum, and the direction field then reads as 0 |
| WindSonic.IdleSkips | src/io/serial_gill.cxx:146-151 | an idle decoder ignores every byte up to the next STX |
| WindSonic.BodyRun | src/io/serial_gill.cxx:152-188 | fitting bytes between STX and ETX advance the cursor by their number, XOR into the checksum and emit nothing |
| WindSonic.BodyRunStores | src/io/serial_gill.cxx:152-188 | those bytes are stored from the cursor on, and what lies before the cursor is kept |
| WindSonic.DecodeReadsFrame | src/io/serial_gill.cxx:205-214 | decoding reads only the first 21 bytes of the buffer |
| WindSonic.StxRun | src/io/serial_gill.cxx:146-151 | STX brings an idle decoder to slot 1 with STX stored and the checksum cleared |
| WindSonic.PrefixRun | src/io/serial_gill.cxx:144-188 | the first k bytes of a frame bring an idle decoder to slot k, with the checksum of the bytes after STX |
| WindSonic.PrefixRunStores | src/io/serial_gill.cxx:144-188 | ... with those k bytes in its buffer |
| WindSonic.Finish | src/io/serial_gill.cxx:189-227 | ETX and the byte after it leave the decoder idle with both stored, emitting the decoded buffer exactly when that byte equals the running checksum |
| WindSonic.FrameDecoded | src/io/serial_gill.cxx:144-227 | a well-formed frame fed to an idle decoder is emitted, decoded from its own 21 bytes, exactly when its checksum matches; either way the decoder ends idle with the frame in its buffer |
| WindSonic.FrameAfter | src/io/serial_gill.cxx:144-231 | a well-formed frame arriving while the decoder is idle appends its reading to those before it exactly when its checksum matches |
| WindSonic.Expand | src/io/serial_gill.cxx:157-161 | the buffer layout of a low-speed frame: its bytes with three NULs inserted where the direction would be |
| WindSonic.LowSpeedHead | src/io/serial_gill.cxx:146-163 | STX, address and two commas bring an idle decoder to slot 7 with the checksum of the bytes sent |
| WindSonic.LowSpeedPrefix | src/io/serial_gill.cxx:144-188 | a low-speed frame up to its ETX brings an idle decoder to the ETX slot, the checksum covering only the bytes sent |
| WindSonic.LowSpeedPrefixStores | src/io/serial_gill.cxx:144-188 | ... with the expanded frame in its buffer |
| WindSonic.LowSpeedReading | src/io/serial_gill.cxx:205-210 | a low-speed frame decodes as direction 0 with the speed field where a full frame has it |
| WindSonic.LowSpeedFrameDecoded | src/io/serial_gill.cxx:144-227 | a low-speed frame is emitted exactly when its checksum byte is the XOR of the bytes sent, reading as direction 0 with its speed; the decoder ends idle |
| WindSonic.BreakStep | src/io/serial_gill.cxx:152-194 | a byte outside its slot's class at any slot from 1 to the ETX slot (the low-speed comma aside) sends the cursor to 0 and emits nothing |
| WindSonic.BrokenFrame | src/io/serial_gill.cxx:152-194 | a frame broken at any byte k from 1 to its ETX slot leaves the decoder idle, having emitted nothing |
| WindSonic.IdleAfter | src/io/serial_gill.cxx:146-151 | an idle decoder stays idle and emits nothing while no STX arrives |
| WindSonic.BrokenFrameIdle | src/io/serial_gill.cxx:144-194 | after a frame broken at any byte up to its ETX slot and bytes without STX, the decoder is idle and has emitted nothing |
| WindSonic.BrokenFrameThenResync | src/io/serial_gill.cxx:144-231 | a frame broken at any byte up to its ETX slot yields nothing, and a well-formed frame with a matching checksum after it (with no STX in between) is decoded |
| WindSonic.TwoReads | src/io/serial_gill.cxx:136-232 | two reads processed one after the other leave the decoder and the sample slot as processing their concatenation does |
| WindSonic.PolarFrameWellFormed | src/io/serial_gill.cxx:26 | the frame "Q,045,002.30,M,00," between STX and ETX fits the template wherever it arrives |
| WindSonic.PolarChecksum | src/io/serial_gill.cxx:149-182 | the XOR of the bytes of that frame between STX and ETX is 0x1E |
| WindSonic.PolarFrameChecksum | src/io/serial_gill.cxx:195-199 | the frame's checksum matches exactly when its checksum byte is 0x1E |
| WindSonic.PolarFrameFields | src/io/serial_gill.cxx:205-214 | it decodes as address Q, direction 45, speed atof("002.30"), units M, status 0 |
| WindSonic.PolarFrameDecoded | src/io/serial_gill.cxx:136-227 | that reading is emitted exactly when the checksum byte is 0x1E, and nothing otherwise; the decoder ends idle |
| WindSonic.Decoder.constructor | src/io/serial_gill.cxx:24-39 | a zero-initialised table element is the initial matcher |
| WindSonic.Decoder.Step | src/io/serial_gill.cxx:145-230 | one pass of the switch changes the decoder as Advance does and returns what it emits; the cursor stays inside the template |
| WindSonic.ProcessFrame | src/io/serial_gill.cxx:136-232 | an index outside 0..19 or len <= 0 changes no sample; otherwise the port's decoder ends in the state of the loop over buf[0..len], its sample slot holds the last frame completed (or is unchanged), and no other decoder or sample changes |
| WindMaster.Widen | src/io/serial_gill.cxx:104-105 | the `(short)` cast of a `char`: sign extension where `char` is signed, zero extension otherwise |
| WindMaster.PackAsWritten | src/io/serial_gill.cxx:104-105 | the status word as the code computes it: the first character widened and shifted left by 8, ANDed with the second widened |
| WindMaster.Pack | src/io/serial_gill.cxx:104-105 | the corrected status word: the first character in the high byte, the second in the low byte (bitwise OR); not used by the decoder |
| WindMaster.Decode | src/io/serial_gill.cxx:104-114 | the reading of a completed frame: StaA and StaD from bytes 1-2 and 4-5 packed as the code packs them, and atof of the six bytes at 7, 14, 21 and 28 |
| WindMaster.Sample | src/io/serial_gill.cxx:120-124 | the sample slot a decoded frame writes: velocity (u, v, w) and temperature T, the time stamp kept |
| WindMaster.Advance | src/io/serial_gill.cxx:68-131 | one pass of the switch on the slot under the cursor, case by case, with ETX completing and decoding the frame |
| WindMaster.Fits | src/io/serial_gill.cxx:70-98 | the case tests of the switch: STX, any byte but ',', '.', '+' and '-' for 'X', '+' or '-' for 'S', ',' , '.', and ETX |
| WindMaster.Run | src/io/serial_gill.cxx:67-132 | the `for` loop of gillProcessFrame_WindMaster over buf[lo..hi] with the WindMaster step |
| WindMaster.LastSample | src/io/serial_gill.cxx:119-124 | what one call leaves in wind_data[index]: velocity and temperature of the last frame completed, the time stamp kept, or the slot unchanged when none is |
| WindMaster.RunKeepsSignedness | src/io/serial_gill.cxx:40-54 | the decoding loop never changes the signedness of `char` the decoder packs status words with |
| WindMaster.PackAsWrittenLosesAscii | src/io/serial_gill.cxx:104-105 | the status word as computed is 0 whenever the second character is ASCII, whatever the signedness of char |
| WindMaster.PackAsWrittenCollides | src/io/serial_gill.cxx:104-105 | the status fields "00" and "62" give the same word |
| WindMaster.PackRoundTrip | src/io/serial_gill.cxx:104-105 | the corrected packing keeps both characters: high byte first, low byte second |
| WindMaster.PackInjective | src/io/serial_gill.cxx:104-105 | the corrected packing gives equal words exactly for equal character pairs |
| WindMaster.LastSampleAppend | src/io/serial_gill.cxx:119-124 | the sample slot after two batches of frames is the one after both at once |
| WindMaster.LastSampleKeepsTime | src/io/serial_gill.cxx:119-124 | a decoded frame sets the velocity and temperature of the slot and never its time stamp |
| WindMaster.StartSlot | src/io/serial_gill.cxx:69-72 | in the start slot a byte other than STX changes nothing; STX is stored at frame[0] and moves the cursor to 1 |
| WindMaster.ViolationResets | src/io/serial_gill.cxx:73-96 | a byte outside the class of an 'X', 'S', ',' or '.' slot sets the cursor to 0 and changes nothing else |
| WindMaster.FitStep | src/io/serial_gill.cxx:73-96 | between STX and ETX a byte in its slot's class is stored at the cursor and advances it |
| WindMaster.EndSlotWaits | src/io/serial_gill.cxx:97-128 | at the ETX slot any other byte changes nothing |
| WindMaster.EndStep | src/io/serial_gill.cxx:97-128 | ETX at its slot is stored, the buffer is decoded (status words ANDed as written) and emitted, and the cursor returns to 0 |
| WindMaster.EmitsOnlyAtEnd | src/io/serial_gill.cxx:67-132 | only ETX at the ETX slot emits a reading |
| WindMaster.DecodeReadsFrame | src/io/serial_gill.cxx:104-114 | decoding reads only the first 36 bytes of the buffer |
| WindMaster.PrefixRun | src/io/serial_gill.cxx:67-96 | the first k bytes of a frame bring an idle decoder to slot k, emitting nothing |
| WindMaster.PrefixRunStores | src/io/serial_gill.cxx:67-96 | ... with those k bytes in its buffer |
| WindMaster.WaitRun | src/io/serial_gill.cxx:97-98 | at the ETX slot a run of bytes without ETX changes nothing |
| WindMaster.Finish | src/io/serial_gill.cxx:97-128 | ETX at the ETX slot leaves the decoder idle and emits the decoded buffer, status words as written |
| WindMaster.FrameDecoded | src/io/serial_gill.cxx:67-132 | a well-formed frame fed to an idle decoder is emitted, decoded from its own 36 bytes with the decoder's signedness of `char`, and the decoder ends idle |
| WindMaster.FrameStatusLost | src/io/serial_gill.cxx:104-105 | for a well-formed frame whose status characters are ASCII, the emitted StaA and StaD are both 0 |
| WindMaster.DecodeWithEtx | src/io/serial_gill.cxx:99-114 | a buffer holding the 35 bytes before ETX, completed by ETX, decodes as those bytes followed by ETX |
| WindMaster.WaitAfter | src/io/serial_gill.cxx:97-98 | a decoder waiting at the ETX slot still waits, unchanged, after bytes that hold no ETX |
| WindMaster.LateEtxWaits | src/io/serial_gill.cxx:67-98 | the 35 bytes before ETX, then bytes other than ETX, leave an idle decoder waiting at the ETX slot with those 35 bytes stored |
| WindMaster.LateEtxDecoded | src/io/serial_gill.cxx:67-128 | a frame whose ETX comes after other bytes is still emitted, decoded as written from its 35 bytes and ETX |
| WindMaster.BrokenFrame | src/io/serial_gill.cxx:73-96 | a frame broken at byte k leaves the decoder idle, having emitted nothing |
| WindMaster.TwoReads | src/io/serial_gill.cxx:59-133 | two reads processed one after the other leave the decoder and the sample slot as processing their concatenation does |
| WindMaster.Decoder.constructor | src/io/serial_gill.cxx:40-54 | a zero-initialised table element is the initial matcher for the platform's signedness of `char` |
| WindMaster.Decoder.Step | src/io/serial_gill.cxx:68-131 | one pass of the switch changes the decoder as Advance does, status words ANDed as written, and returns what it emits; the cursor stays inside the template |
| WindMaster.ProcessFrame | src/io/serial_gill.cxx:59-133 | an index outside 0..19 or len <= 0 changes no sample; otherwise the port's decoder ends in the state of the loop over buf[0..len], status words included, the velocity and temperature of its sample slot come from the last frame completed, and no other decoder or sample changes |
| Transport.Joins | src/io/serial_anemometers.cxx:79-80 | one join per handle, in order |
| Transport.Closes | src/io/serial_anemometers.cxx:82-83 | one close per descriptor, in order |
| Transport.Host.Open | src/io/serial_anemometers.cxx:37-38 | serial_open yields a non-negative descriptor or -1, and the log records which |
| Transport.Host.Setup | src/io/serial_anemometers.cxx:41-45 | serial_setup succeeds or fails, and the log records which |
| Transport.Host.Close | src/io/serial_anemometers.cxx:83 | serial_close is recorded |
| Transport.Host.Start | src/io/serial_anemometers.cxx:61-65 | pthread_create succeeds with a handle or fails, and the log records which |
| Transport.Host.Join | src/io/serial_anemometers.cxx:80 | pthread_join is recorded |
| Anemometers.ReaderFor | src/io/serial_anemometers.cxx:40-49 | "Gill WindSonic" selects the WindSonic reader and "Gill WindMaster" the WindMaster reader; any other type string is rejected (all three as if-and-only-if) |
| Anemometers.BaudRate | src/io/serial_anemometers.cxx:41-45 | a WindSonic runs at 9600 baud, a WindMaster at 115200 |
| Anemometers.OpenLog | src/io/serial_anemometers.cxx:36-50 | the open loop issues two requests per port |
| Anemometers.StartLog | src/io/serial_anemometers.cxx:56-68 | the thread loop issues one request per port |
| Anemometers.Session.constructor | src/io/serial_anemometers.cxx:17-22 | the statics start with no ports and the stop flag down |
| Anemometers.Session.OpenPorts | src/io/serial_anemometers.cxx:36-50 | on success every type is known and every port was opened and set to its type's rate, in order; whatever happens, nothing is closed or joined and no descriptor at n_ports or beyond changes |
| Anemometers.Session.StartReaders | src/io/serial_anemometers.cxx:56-68 | on success every reader of its port's model was started with the port's index and descriptor, in order; nothing is closed or joined, and no handle or argument at num_ports or beyond changes |
| Anemometers.Session.Init | src/io/serial_anemometers.cxx:28-71 | a bad port count or a null list fails with nothing changed; success means all ports opened and configured, then all readers started, num_ports set and the stop flag down; num_ports, the stop flag, the thread handles and the reader arguments change only once every port is open; no table entry at n_ports or beyond changes; no failure closes or joins anything |
| Anemometers.Session.Close | src/io/serial_anemometers.cxx:73-86 | with a session running it raises the stop flag, joins the readers of ports 0..num_ports-1, then closes exactly their descriptors, keeping num_ports; otherwise, and so on a second call, it does nothing |

## Left out

- Floating point: `atof`, `sin` and `cos` are uninterpreted. A `Float` value records the text handed to `atof`, or the integer passed to `sin`/`cos`. The direction in degrees goes to functions that expect radians; the model keeps this as written.
- The wall clock: `time(NULL)` is the parameter `now` of `WindSonic.ProcessFrame`, shared by every frame of one call.
- The reader threads `gill_windsonic_read_loop` and `gill_windmaster_read_loop`, concurrency, and the sharing of `wind_data` with the display. Each decoder is modelled as called by one reader at a time.
- The termios, open, read and write calls of `src/io/serial.cxx`. They appear only as the nondeterministic operations of `Transport.Host`.
- The `arg` pointer to the stop flag in `Anemometer_Thread_Arguments_t`. It is the same for every thread and is not kept in `ThreadArgs`.
- The `wind_record` history, which is never appended to; the port path and type getters; the debug `printf` calls.
- The configuration file reader and the GUI.
- Integer widths: `pointer` is an `int` that never leaves 0..35, and the direction is bounded by `WindSonic.DecodeBounds`, so it needs no wrap-around. The status is stored as a `char` byte (`WindSonic.ToChar`).
- The signedness of `char` is not fixed: the C standard leaves it to the platform, so each WindMaster decoder carries it (`WindMaster.State.signedChar`) and the `short` cast of the status words is modelled bit for bit for either choice (`WindMaster.Widen`).
- Anemometers.Session.OpenPorts: on failure states only that the log grew and nothing was released, not which port failed or how.
- Anemometers.Session.StartReaders: on failure states only that the log grew and nothing was released, not which readers were started before the failing one.
- Anemometers.Session.Init: after a failed thread start, states only that all ports were opened and the statics written, not the partial thread log. A later `Close` then joins handles of threads that were never started, as the code does.
- Ports opened before a failure in `sonic_anemometer_init` are left open, as the code leaves them (`NothingReleased`).

## Findings

| source | as written | input that shows it | evidently intended | confidence | as-written member | corrected member |
|---|---|---|---|---|---|---|
| src/io/serial_gill.cxx:104-105 | StaA and StaD combine the two status characters with bitwise AND of the first shifted left by 8 and the second, so for an ASCII second character the shifted first character and the second share no bit | status fields "00" and "62" (any second character below 0x80) both give the word 0 | the two characters side by side in one 16-bit word (bitwise OR); the decoder keeps the code's AND, and `WindMaster.Pack` is the corrected packing | not executed | WindMaster.FrameStatusLost | WindMaster.PackInjective |
