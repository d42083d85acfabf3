# RFID-plus-scale firmware core, modelled in Dafny

This project models the sequential core of an ESP8266 firmware that pairs an
RDM630/RDM6300 RFID reader with an HX711-style load cell, so that a scanned
card is associated with a measured weight. It covers:

- **Frame assembly** (`FrameAssembler`, `Controller`): `readRFIDSerialValue`
  feeds one serial byte per pass into the 14-byte `buffer` and
  `buffer_index`. A `0x02` byte resynchronises. A full buffer drops every
  byte except `0x02`. A `0x03` byte hands the frame to `useExtractedTag`
  only when it lands at index 13. A failed read (`-1`) still marks the read
  as started and refreshes the timestamp.
- **Frame codec** (`Hex`, `RfidFrame`): `extract_tag` and `hexstr_to_value`.
  `hexstr_to_value` is modelled as `strtol(_, NULL, 16)` on a 32-bit `long`.
  The tag is bytes 3..10. The checksum is the exclusive or of the five
  two-character cells of bytes 1..10, compared with bytes 11..12. The head
  byte and the tail byte are never validated.
- **Scan session** (`ScanSession` as functions on a value of the globals,
  `Controller.Controller` as a class whose methods update the same globals
  in place and are proved to agree with those functions): the flag logic of
  `loop()` and `useExtractedTag`. This covers the 2000 ms acquisition
  window, the tare card `10622595`, the `debounceDelay` silence that ends a
  read, and the one-shot "uploading" announcement. The source's quirks are
  kept. The expiry flag `doneReadingDueToTimeExpiring` is set only when a
  valid tag is decoded more than 2000 ms after its series' first read
  (`ScanSession.ExpiryOnlyByLateTag`); a window that runs out with no such
  tag leaves it clear. It is never cleared, so once it is set, every later
  series is announced in the pass that opens it, with the tag stored before
  that pass (`ScanSession.StaleAnnouncementAtOpening`).
  A tag of 2^31 or more saturates at `LONG_MAX` in `strtol` before it is
  converted to `unsigned` (`RfidFrame.DecodeEncode`).
- **Load cell** (`LoadCell`): `getValue` clocks 24 sampled bits into three
  bytes, most significant bit first, and flips bit 23. Tare stores a reading
  in `_offset`. The displayed `scaleValue` is the negated quotient by
  `_scale`, truncated toward zero.
- **Networking helpers** (`Networking`): the field splitter `getValue`, the
  `preparePayload` template, and the send latch of `sendDataToThingSpeak`
  with `updateRate`. The HTTPS request is an abstract event: the data that
  would be sent.

Behaviour of `src/main.cpp` that the model keeps as the code has it:

- A `-1` read is not ignored. It sets `hasReadStarted` and refreshes
  `timeSinceLastSerialReadFromRM6300`.
- On overflow the index stays at 14 and the byte is dropped. The index is
  not reset.
- A non-hex character is not an error. `strtol` reads the longest valid
  prefix, after optional white space, a sign and a `0x` prefix.
- The tag is an `unsigned` 32-bit value.
- The end of the acquisition window is not re-armed per series.

## Model

| member | source | states |
|---|---|---|
| `FrameAssembler.Feed` | src/main.cpp:246-266 | A head byte is stored at 0 and the index becomes 1, so a partial frame is discarded. With the index at 14, any other byte leaves buffer and index unchanged. Extraction happens iff a tail byte is written at index 13, and then the buffer holds it at 13 with index 14. A tail byte written earlier resets the index to 0. Any other byte is appended. The index stays within 0..14. |
| `FrameAssembler.AfterHead` | src/main.cpp:246-257 | From any state, a head byte followed by up to 13 non-marker bytes leaves exactly those bytes at the front of the buffer, with nothing extracted. |
| `FrameAssembler.FrameExtracted` | src/main.cpp:246-266 | A well-formed 14-byte frame fed from any state is assembled whole and extracted exactly once, at its tail byte. |
| `FrameAssembler.ShortFrameDiscarded` | src/main.cpp:259-265 | A tail byte after fewer than 12 data bytes extracts nothing and resets the index to 0. |
| `FrameAssembler.FullBufferIgnoresBytes` | src/main.cpp:252-255 | With a full buffer, any run of bytes without a head byte changes nothing and extracts nothing. |
| `FrameAssembler.LongFrameDropped` | src/main.cpp:252-260 | A frame with more than 12 bytes between head and tail fills the buffer with its first 14 bytes and is never extracted. |
| `FrameAssembler.RunAppend` | src/main.cpp:231-268 | Feeding two byte strings one after the other is feeding their concatenation. |
| `ScanSession.ReadSerial` | src/main.cpp:231-244 | With nothing available, nothing changes. A failed read (`-1`) only sets `hasReadStarted` and the timestamp, leaving buffer and index unchanged. A received byte also moves the assembler as `Feed` says. Only the assembler, those two globals and what `useExtractedTag` writes can change. A new `uploadTag` is never the tare tag. A new `_offset` is a raw reading. |
| `ScanSession.ReceiveByte` | src/main.cpp:246-266 | A byte that completes no frame only moves the assembler and marks the read. Otherwise `useExtractedTag` runs on the new buffer. |
| `Controller.Controller.ReadRFIDSerialValue` | src/main.cpp:231-268 | Updates the globals in place exactly as `ScanSession.ReadSerial`. |
| `Controller.Controller.HandleByte` | src/main.cpp:239-266 | Updates the globals in place exactly as `ScanSession.ReceiveByte`. |
| `Controller.Controller.StoreByte` | src/main.cpp:237-257 | Moves buffer and index exactly as `FrameAssembler.Feed`, and reports whether `useExtractedTag` is due. |
| `Controller.Controller.WriteByte` | src/main.cpp:257-266 | Writes the byte at the index, then extracts iff a tail byte made the index 14, else resets the index on a tail byte. |
| `Hex.StrToLong16` | src/main.cpp:337 | `strtol(s, NULL, 16)` with a 32-bit `long`. The result always lies in `[LONG_MIN, LONG_MAX]`. |
| `Hex.StrToLong16OfHex` | src/main.cpp:332-340 | On a window of hex digits, `strtol` gives the big-endian base-16 value of those digits, saturated at `LONG_MAX`. |
| `Hex.HexValueAppend` | src/main.cpp:332-340 | The base-16 value of two concatenated digit strings splits by place value. |
| `Hex.HexByteValue` | src/main.cpp:36-40 | The two upper-case hex characters of a byte read back as that byte. |
| `RfidFrame.HexStrToValue` | src/main.cpp:332-340 | The result of `hexstr_to_value` is a 32-bit `long`. On a window of hex digits it is their base-16 value saturated at `LONG_MAX`, and for seven digits or fewer it is exactly their value. |
| `RfidFrame.ExtractTag` | src/main.cpp:272-330 | The checksum loop folds the five cells in order. The returned tag is the `unsigned` conversion of the value of bytes 3..10. `isTagOk` holds iff the fold equals the value of bytes 11..12. |
| `RfidFrame.ChecksumFoldStep` | src/main.cpp:312-315 | Each loop step exclusive-ors the next cell's bit pattern into the checksum. |
| `RfidFrame.DecodeHexFrame` | src/main.cpp:307-324 | For a frame whose bytes 1..12 are hex digits, the tag is the value of bytes 3..10, saturated at `LONG_MAX`. The checksum holds iff the exclusive or of the five two-digit cells of bytes 1..10 equals the value of bytes 11..12. |
| `RfidFrame.HeadAndTailIgnored` | src/main.cpp:272-278 | Frames that agree on bytes 1..12 decode to the same tag and the same checksum verdict, so the head and tail bytes are never validated. |
| `RfidFrame.EncodeFrame` | src/main.cpp:36-40 | The frame a reader sends: head `0x02`, version digits, tag digits, checksum digits, tail `0x03`, all data characters hex. |
| `RfidFrame.DecodeEncode` | src/main.cpp:307-324 | Decoding an encoded frame passes the checksum and returns the tag, saturated at `LONG_MAX` for tags of 2^31 or more. |
| `RfidFrame.DigitCorruptionDetected` | src/main.cpp:311-324 | Changing one hex digit of bytes 1..10 to a digit of another value turns a valid frame into one whose checksum fails. |
| `RfidFrame.FoldsDiverge` | src/main.cpp:311-315 | Changing exactly one value of a sequence changes its exclusive-or fold. |
| `LoadCell.GetValue` | src/main.cpp:347-365 | Returns the 24 sampled bits assembled MSB-first with bit 23 flipped. Issues exactly 24 sampling clock pulses plus one extra. |
| `LoadCell.ReadByte` | src/main.cpp:353-358 | Eight pulses. `bitWrite(data[idx], 7 - i, …)` fills the byte MSB-first from the samples, and the other bytes stay unchanged. |
| `LoadCell.AssembledValue` | src/main.cpp:363 | Or-ing `data[2] << 16`, `data[1] << 8` and `data[0]` gives the value of all 24 bits, most significant first. |
| `LoadCell.RawReading` | src/main.cpp:363 | The raw reading lies in `[0, 2^24)`. |
| `LoadCell.RawReadingOffsetBinary` | src/main.cpp:363 | Flipping bit 23 turns the converter's 24-bit two's-complement sample into offset binary: the raw reading is the signed sample plus 2^23. |
| `LoadCell.ScaleValue` | src/main.cpp:342-345 | `scaleValue = -1 * readWeight()` is the negated quotient of `getValue() - _offset` by 100, truncated toward zero, with the remainder bounds of C division. |
| `LoadCell.TareShowsZero` | src/main.cpp:342-345 | Reading the same sample as the tare shows 0. |
| `LoadCell.TaredDifference` | src/main.cpp:343-363 | The bit-23 flip cancels out of `getValue() - _offset`: the tared reading is the difference of the signed samples. |
| `LoadCell.ScaleValueAntitone` | src/main.cpp:342-345 | A heavier load never shows a larger `scaleValue`. |
| `ScanSession.Boot` | src/main.cpp:86-108 | The initial globals satisfy the loop invariant, with no read under way and `_offset` equal to the boot reading. |
| `ScanSession.SessionFlags` | src/main.cpp:117-142 | Without a read under way nothing changes. Otherwise `readyToRead` is cleared, and silence longer than `debounceDelay` ends the read. The first pass of a series latches `firstReadOfSeries`, `timeOfFirstRead := now` and `initialRead`; no other pass writes `initialRead` or `timeOfFirstRead`. `uploadOnce` is armed iff the expiry flag `doneReadingDueToTimeExpiring` is set (by a valid tag decoded more than 2000 ms after its series' first read, in this or any earlier series) and the upload of this series has not started. Only `readyToRead`, the read and series flags, `timeOfFirstRead`, `initialRead`, `startUpload` and `uploadOnce` can change; the buffer, the tags, the weights, `_offset`, the timestamps and the expiry flag are kept. |
| `ScanSession.AnnounceUpload` | src/main.cpp:144-153 | The "uploading" announcement of `uploadTag` is made iff `startUpload` and `uploadOnce` both hold, and it clears `uploadOnce`. |
| `ScanSession.EndRead` | src/main.cpp:155-168 | When the read has ended, clears `hasReadEnded`, `lastTag` and `firstReadOfSeries` and sets `readyToRead`. Nothing else changes. |
| `ScanSession.ActOnTag` | src/main.cpp:195-225 | Checks in source order. A bad checksum changes nothing but `isTagOk`. More than 2000 ms after `timeOfFirstRead`, only the expiry flag is set. The tare tag sets `_offset` to a fresh raw reading and leaves `uploadTag` alone. Any other tag sets `uploadTag := tag` and `uploadWeight := scaleValue`. |
| `ScanSession.UseExtractedTag` | src/main.cpp:193-226 | Only `isTagOk`, the expiry flag, `_offset`, `uploadTag` and `uploadWeight` can change. The expiry flag is never cleared. A new `uploadTag` is a 32-bit value other than the tare tag. |
| `ScanSession.StoreTag` | src/main.cpp:211-225 | The tare card re-zeroes the scale. Any other card is stored with the current weight. |
| `ScanSession.ReceiveByteMarked` | src/main.cpp:231-244 | Setting `hasReadStarted` and the timestamp before the byte is handled, as `readRFIDSerialValue` does, does not change how the byte is handled. |
| `ScanSession.OneByteRun` | src/main.cpp:170 | A pass that reads one byte moves the assembler exactly as feeding that byte. |
| `ScanSession.RefreshWeight` | src/main.cpp:173-181 | More than `period` ms after the last refresh, `scaleValue` is recomputed from a fresh reading and `time_now` is updated. Otherwise nothing changes. |
| `ScanSession.LoopStepInv` | src/main.cpp:110-182 | One pass of `loop()` preserves the invariant: index within the buffer, `uploadOnce` and `hasReadEnded` cleared between passes, `uploadTag` never the tare tag, `_offset` a raw reading. |
| `ScanSession.AnnouncementCondition` | src/main.cpp:131-153 | A pass announces iff a read is under way, the expiry flag `doneReadingDueToTimeExpiring` was set before the pass (by a valid tag decoded more than 2000 ms after its series' first read, in this or any earlier series), and this series' upload has not started. The announced tag is the stored `uploadTag`, never the tare tag. |
| `ScanSession.DoneNeverResets` | src/main.cpp:200-206 | Once set, `doneReadingDueToTimeExpiring` stays set: this assignment of `true` is its only write after its initialisation. |
| `ScanSession.ReadSetsExpiry` | src/main.cpp:193-206 | `readRFIDSerialValue` sets the expiry flag only on a frame it completes whose checksum holds, more than 2000 ms after `timeOfFirstRead`. |
| `ScanSession.ExpiryOnlyByLateTag` | src/main.cpp:193-206 | A pass sets the expiry flag only by reading the tail of a frame that passes the checksum more than 2000 ms after its series' first read; time passing alone never sets it. |
| `ScanSession.StaleAnnouncementAtOpening` | src/main.cpp:124-141 | Once the expiry flag is set, the pass that opens any later series announces the previously stored tag. |
| `ScanSession.FirstReadLatched` | src/main.cpp:117-168 | `timeOfFirstRead` changes only in the pass that opens a series, and then becomes that pass's time. |
| `ScanSession.SilenceEndsSeries` | src/main.cpp:117-168 | Silence longer than `debounceDelay` ends the series in the same pass: `firstReadOfSeries` and `hasReadEnded` are cleared and `readyToRead` is set. |
| `ScanSession.StepBound` | src/main.cpp:137-153 | One pass's announcements plus the pending upload never exceed what was pending, and a pass that opens a series re-arms at most one. |
| `ScanSession.NoOpeningBound` | src/main.cpp:137-153 | Across passes that open no series, at most one upload is announced, and none once it has started. |
| `ScanSession.AtMostOneAnnouncementPerSeries` | src/main.cpp:137-153 | A series announces at most one upload. |
| `ScanSession.LoopStep` | src/main.cpp:110-182 | One pass of `loop()`. At most one serial byte reaches the assembler, as `Feed` says. Any read, even a failed one, marks the read as under way at the pass's time. `timeOfFirstRead` is written only by a pass that opens a series. An announcement names the tag stored before the pass. The expiry flag is never cleared. |
| `ScanSession.PrologueKeeps` | src/main.cpp:117-168 | The flag block, the announcement and the end-of-read reset keep the buffer, `scaleValue`, `uploadTag`, `_offset` and the expiry flag. |
| `ScanSession.TailByteRead` | src/main.cpp:239-266 | Reading the tail byte of a card's frame whose first 13 bytes are assembled completes the frame, which passes the checksum and yields the card's tag. |
| `ScanSession.TailPass` | src/main.cpp:110-226 | In the pass that reads a frame's tail, the frame is assembled and `isTagOk` holds. After the window (measured from the start latched in that pass), only the expiry flag is set. Within it, the tag is stored with the weight shown before the pass, or the tare card re-zeroes the scale and keeps `uploadTag`. |
| `ScanSession.LoopAssembler` | src/main.cpp:110-182 | Over passes that each read one byte, the buffer and index move exactly as the bytes fed to `Feed` in order; nothing else in `loop()` writes them. |
| `ScanSession.ScannedCardStored` | src/main.cpp:110-268 | A card's frame delivered one byte per pass of `loop()`, from any reader state (pass times are not required to increase, see Left out), is assembled and passes the checksum at its tail byte. With the window measured from the series' start as latched by then, the tag is stored with the weight shown before the tail's pass, the tare card re-zeroes the scale instead, or after the window only the expiry flag is set. |
| `ScanSession.SeriesContinues` | src/main.cpp:117-130 | While bytes keep arriving within `debounceDelay` of each other, a series under way stays under way and keeps its start time. |
| `ScanSession.OpeningFrameStored` | src/main.cpp:110-268 | From an idle reader, a card's frame read one byte per pass, paced within `debounceDelay`, latches the series' start in the pass after the head byte. If the tail arrives within 2000 ms of that start, the tag is stored with the weight shown before the tail's pass, or the tare card re-zeroes the scale. |
| `Controller.Controller.constructor` | src/main.cpp:86-108 | The globals' static initial values, then `_offset = getValue()`. |
| `Controller.Controller.UseExtractedTag` | src/main.cpp:193-226 | Updates the globals in place exactly as `ScanSession.UseExtractedTag`. |
| `Controller.Controller.ActOnTag` | src/main.cpp:195-225 | Updates the globals in place exactly as `ScanSession.ActOnTag`. |
| `Controller.Controller.StoreTag` | src/main.cpp:211-225 | Updates the globals in place exactly as `ScanSession.StoreTag`, reading the tare through `GetValue`. |
| `Controller.Controller.UpdateSessionFlags` | src/main.cpp:117-142 | Updates the globals in place exactly as `ScanSession.SessionFlags`. |
| `Controller.Controller.EndReadOnSilence` | src/main.cpp:119-123 | Ends the read iff the silence exceeds `debounceDelay`, and changes nothing else. |
| `Controller.Controller.LatchFirstRead` | src/main.cpp:124-130 | Latches the first read of a series once, and changes nothing else. |
| `Controller.Controller.StartUploadOnExpiry` | src/main.cpp:131-141 | Starts and arms the upload once after expiry, and changes nothing else. |
| `Controller.Controller.AnnounceUpload` | src/main.cpp:144-153 | Updates the globals in place and reports the announcement exactly as `ScanSession.AnnounceUpload`. |
| `Controller.Controller.EndRead` | src/main.cpp:155-168 | Updates the globals in place exactly as `ScanSession.EndRead`. |
| `Controller.Controller.RefreshWeight` | src/main.cpp:173-181 | Updates the globals in place exactly as `ScanSession.RefreshWeight`. |
| `Controller.Controller.Loop` | src/main.cpp:110-182 | One pass of `loop()` matches `ScanSession.LoopStep` and keeps the invariant. |
| `Networking.GetValue` | src/networking.cpp:135-150 | The loop returns field `index` of `data`, as defined by `Field`, or `""` when there are not that many fields. |
| `Networking.FieldShape` | src/networking.cpp:141-149 | Field `k` is a contiguous substring of `data` that starts right after the k-th separator. A non-final field ends just before the next separator and holds none. The final field runs to the end, keeping its last character even when that character is the separator. |
| `Networking.FewFieldsEmpty` | src/networking.cpp:139-149 | With fewer than `index + 1` fields, including empty `data`, the result is `""`. |
| `Networking.JoinFields` | src/networking.cpp:135-150 | Splitting separator-free fields joined by the separator gives back each field and the field count, provided the last field is non-empty. |
| `Networking.TrailingSeparatorKept` | src/networking.cpp:142-145 | `getValue("a;", ';', 0)` is `"a;"` and field 1 is `""`. |
| `Networking.PreparePayload` | src/networking.cpp:181-188 | The payload is `{"weight":` + `data` + `,"timestamp":{".sv": "timestamp"}}`, whose length is the length of `data` plus 44. |
| `Networking.PayloadRoundTrip` | src/networking.cpp:181-188 | The weight text is recovered from the payload, so different data give different payloads. |
| `Networking.Gate` | src/networking.cpp:57-67 | A send happens iff the phase is odd and `sendData` holds, and it sends the data. After the call `sendData` is false in an odd phase and true in an even one. |
| `Networking.SendAtOddRunStart` | src/networking.cpp:57-67 | Over a series of calls, a call sends iff it is in an odd phase and the previous call was in an even phase (for the first call: iff the latch was set). |
| `Networking.OneSendPerOddRun` | src/networking.cpp:57-67 | A run of consecutive odd-phase calls sends at most once, at its first call. |
| `Networking.ThingSpeakLink.constructor` | src/networking.cpp:29-34 | Initial latch set and a delay of 20000 ms. |
| `Networking.ThingSpeakLink.UpdateRate` | src/networking.cpp:47-49 | Changes only `delayTime`. |
| `Networking.ThingSpeakLink.SendDataToThingSpeak` | src/networking.cpp:52-68 | Updates `sendData` and reports the send exactly as `Gate` on the phase of `now / delayTime`, with `delayTime` unchanged. |

## Left out

- LCD output, `Serial` logging, WiFi and `WiFiMulti`, the `network.isConnected()` test in `loop()` (it only drives the LCD), the LED writes (`readyToRead` is kept as a flag), `blinkLight`, `wifiStatusLED`, `Networking::setup`, `Networking::isConnected` and `setup`: display and communication I/O with no state the core reads back.
- The `SoftwareSerial` transport: `ssrfid.available()` / `ssrfid.read()` become the per-pass input `SerialInput` (nothing available, a failed read, or one byte).
- `thingSpeakWriteREST` and `writeDataToFireBaseDatabase`: the HTTPS requests are represented by the data that would be sent.
- `prepareJSON`: it depends on `toDouble` (floating point) and an external JSON document.
- The pin level of `getValue`: the busy-wait on DOUT (src/main.cpp:350), which may never end, and the `digitalRead`/`digitalWrite` timing. The 24 DOUT samples are an input sequence, and `prepareScale`'s pin set-up is not modelled.
- `LoadCell.ScaleValue`: models `(float) val / _scale` followed by `-1 *` and the conversion to `long` as exact truncating integer division. This holds because both readings are below 2^24, so the difference is exact in a float and the rounding error is below the distance to the nearest integer. No floating-point arithmetic is modelled.
- `millis()`: time is an unbounded `nat`, one value per pass of `loop()`. `millis() - t` is unbounded subtraction, which agrees with the source's unsigned subtraction only when `now` is not earlier than the stored time, as holds for a monotone clock that does not wrap. The overflow of `time_now + period` is not modelled.
- `ScanSession.ScannedCardStored`: the passes' times are not required to increase. `Elapsed` agrees with the firmware's unsigned subtraction only for times that do not run backwards, so runs with decreasing times do not describe the firmware. `ScanSession.OpeningFrameStored` requires paced, increasing times.
- `debounceDelay` (1000) and `period` (20) are fixed at the source's values.
- `Networking.GetValue`: `index` is a `nat`. For a negative `index` the result depends on Arduino's `String::substring`, which is not part of this model.
- `Networking.ThingSpeakLink.SendDataToThingSpeak`: requires `delayTime != 0`, because a zero delay divides by zero in the source.
- `src/networking.h` holds only declarations.
