/** The firmware's globals and the functions of `src/main.cpp` that update
    them in place: `prepareScale`'s tare, `readRFIDSerialValue`,
    `useExtractedTag` and the session part of `loop()`. Each method is proved
    to move the globals exactly as the matching function of `ScanSession`. */
module Controller {
  import opened Common
  import RfidFrame
  import FrameAssembler
  import LoadCell
  import ScanSession

  class Controller {
    var buffer: array<byte>
    var bufferIndex: int
    var lastSerialRead: nat
    var hasReadStarted: bool
    var hasReadEnded: bool
    var lastTag: nat
    var isTagOk: bool
    var firstReadOfSeries: bool
    var timeOfFirstRead: nat
    var doneReadingDueToTimeExpiring: bool
    var initialRead: bool
    var uploadTag: nat
    var uploadWeight: int
    var readyToRead: bool
    var startUpload: bool
    var uploadOnce: bool
    var offset: int
    var scaleValue: int
    var timeNow: nat

    /** The globals as a value. */
    ghost function State(): ScanSession.Globals
      reads this, buffer
    {
      ScanSession.Globals(FrameAssembler.Assembler(buffer[..], bufferIndex), lastSerialRead, hasReadStarted,
        hasReadEnded, lastTag, isTagOk, firstReadOfSeries, timeOfFirstRead, doneReadingDueToTimeExpiring,
        initialRead, uploadTag, uploadWeight, readyToRead, startUpload, uploadOnce, offset, scaleValue, timeNow)
    }

    ghost predicate Valid()
      reads this, buffer
    {
      buffer.Length == RfidFrame.BUFFER_SIZE && ScanSession.Inv(State())
    }

    /** The globals' static initial values, then `prepareScale`: `_offset = getValue()`. */
    constructor (bootSample: seq<bool>)
      requires |bootSample| == LoadCell.BITS
      ensures Valid() && State() == ScanSession.Boot(bootSample) && fresh(buffer)
    {
      buffer := new byte[RfidFrame.BUFFER_SIZE](_ => 0);
      bufferIndex := 0;
      lastSerialRead := 0;
      hasReadStarted := false;
      hasReadEnded := false;
      lastTag := 0;
      isTagOk := false;
      firstReadOfSeries := false;
      timeOfFirstRead := 0;
      doneReadingDueToTimeExpiring := false;
      initialRead := false;
      uploadTag := 0;
      uploadWeight := 0;
      readyToRead := true;
      startUpload := false;
      uploadOnce := false;
      scaleValue := 0;
      timeNow := 0;
      new;
      var raw, _ := LoadCell.GetValue(bootSample);
      offset := raw;
      assert buffer[..] == seq(RfidFrame.BUFFER_SIZE, _ => 0);
    }

    /** `useExtractedTag`: `extract_tag` on the buffer, then the checks on its result. */
    method UseExtractedTag(now: nat, tareSample: seq<bool>)
      requires buffer.Length == RfidFrame.BUFFER_SIZE && |tareSample| == LoadCell.BITS
      modifies this
      ensures buffer == old(buffer)
      ensures State() == ScanSession.UseExtractedTag(old(State()), now, tareSample)
    {
      var tag, ok := RfidFrame.ExtractTag(buffer);
      ActOnTag(now, tag, ok, tareSample);
    }

    /** The checks of `useExtractedTag` after `extract_tag`, in their order. */
    method ActOnTag(now: nat, tag: nat, ok: bool, tareSample: seq<bool>)
      requires |tareSample| == LoadCell.BITS
      modifies this
      ensures buffer == old(buffer)
      ensures State() == ScanSession.ActOnTag(old(State()), now, tag, ok, tareSample)
    {
      isTagOk := ok;
      if isTagOk {
        if now - timeOfFirstRead > ScanSession.ACQUISITION_WINDOW {
          doneReadingDueToTimeExpiring := true;
        } else {
          StoreTag(tag, tareSample);
        }
      }
    }

    /** A valid tag read in time: the tare card re-zeroes the scale, any other card is kept for upload. */
    method StoreTag(tag: nat, tareSample: seq<bool>)
      requires |tareSample| == LoadCell.BITS
      modifies this
      ensures buffer == old(buffer)
      ensures State() == ScanSession.StoreTag(old(State()), tag, tareSample)
    {
      if tag == ScanSession.TARE_TAG {
        var raw, _ := LoadCell.GetValue(tareSample);
        offset := raw;
      } else {
        uploadTag := tag;
        uploadWeight := scaleValue;
      }
    }

    /** The buffer handling of `readRFIDSerialValue` for one received byte;
        `extract` is `call_extract_tag` on the path that reaches `useExtractedTag`. */
    method StoreByte(value: byte) returns (extract: bool)
      requires buffer.Length == RfidFrame.BUFFER_SIZE && 0 <= bufferIndex <= RfidFrame.BUFFER_SIZE
      modifies this, buffer
      ensures buffer == old(buffer)
      ensures State() == old(State()).(assembler := FrameAssembler.Feed(old(State()).assembler, value).next)
      ensures extract == FrameAssembler.Feed(old(State()).assembler, value).extract
    {
      var callExtractTag := false;
      if value == FrameAssembler.HEAD {
        bufferIndex := 0;
      } else if value == FrameAssembler.TAIL {
        callExtractTag := true;
      }
      if bufferIndex >= RfidFrame.BUFFER_SIZE {
        return false;
      }
      extract := WriteByte(value, callExtractTag);
    }

    /** `buffer[buffer_index++] = ssvalue`, then the length check on a tail byte. */
    method WriteByte(value: byte, callExtractTag: bool) returns (extract: bool)
      requires buffer.Length == RfidFrame.BUFFER_SIZE && 0 <= bufferIndex < RfidFrame.BUFFER_SIZE
      modifies this, buffer
      ensures buffer == old(buffer)
      ensures extract <==> callExtractTag && old(bufferIndex) == RfidFrame.BUFFER_SIZE - 1
      ensures State() == old(State()).(assembler := FrameAssembler.Assembler(old(buffer[..])[old(bufferIndex) := value],
                                         if callExtractTag && !extract then 0 else old(bufferIndex) + 1))
    {
      buffer[bufferIndex] := value;
      assert buffer[..] == old(buffer[..])[bufferIndex := value];
      bufferIndex := bufferIndex + 1;
      extract := false;
      if callExtractTag {
        if bufferIndex == RfidFrame.BUFFER_SIZE {
          extract := true;
        } else {
          bufferIndex := 0;
        }
      }
    }

    /** `readRFIDSerialValue`. */
    method ReadRFIDSerialValue(now: nat, input: ScanSession.SerialInput, tareSample: seq<bool>)
      requires buffer.Length == RfidFrame.BUFFER_SIZE && 0 <= bufferIndex <= RfidFrame.BUFFER_SIZE
      requires |tareSample| == LoadCell.BITS
      modifies this, buffer
      ensures buffer == old(buffer)
      ensures State() == ScanSession.ReadSerial(old(State()), now, input, tareSample)
    {
      if input.NothingAvailable? {
        return;
      }
      ghost var s0 := State();
      hasReadStarted := true;
      lastSerialRead := now;
      if input.Received? {
        HandleByte(now, input.value, tareSample);
        ScanSession.ReceiveByteMarked(s0, now, input.value, tareSample);
      }
    }

    /** The rest of `readRFIDSerialValue` once a byte has been read. */
    method HandleByte(now: nat, value: byte, tareSample: seq<bool>)
      requires buffer.Length == RfidFrame.BUFFER_SIZE && 0 <= bufferIndex <= RfidFrame.BUFFER_SIZE
      requires |tareSample| == LoadCell.BITS && hasReadStarted && lastSerialRead == now
      modifies this, buffer
      ensures buffer == old(buffer)
      ensures State() == ScanSession.ReceiveByte(old(State()), now, value, tareSample)
    {
      var extract := StoreByte(value);
      if extract {
        UseExtractedTag(now, tareSample);
      }
    }

    /** The `if (hasReadStarted == true)` block of `loop()`. */
    method UpdateSessionFlags(now: nat)
      modifies this
      ensures buffer == old(buffer)
      ensures State() == ScanSession.SessionFlags(old(State()), now)
    {
      ghost var s0 := State();
      if hasReadStarted {
        readyToRead := false;
        EndReadOnSilence(now);
        LatchFirstRead(now);
        StartUploadOnExpiry();
        ScanSession.SessionFlagsSteps(s0, now);
      }
    }

    /** Silence on the serial line for longer than `debounceDelay` ends the read. */
    method EndReadOnSilence(now: nat)
      modifies this
      ensures buffer == old(buffer)
      ensures ScanSession.Elapsed(now, old(lastSerialRead), ScanSession.DEBOUNCE_DELAY)
              ==> State() == old(State()).(hasReadStarted := false, hasReadEnded := true)
      ensures !ScanSession.Elapsed(now, old(lastSerialRead), ScanSession.DEBOUNCE_DELAY) ==> State() == old(State())
      ensures State() == ScanSession.EndOnSilence(old(State()), now)
    {
      if now - lastSerialRead > ScanSession.DEBOUNCE_DELAY {
        hasReadStarted := false;
        hasReadEnded := true;
      }
    }

    /** The first pass of a series records when it started. */
    method LatchFirstRead(now: nat)
      modifies this
      ensures buffer == old(buffer)
      ensures !old(firstReadOfSeries)
              ==> State() == old(State()).(firstReadOfSeries := true, timeOfFirstRead := now, initialRead := true, startUpload := false)
      ensures old(firstReadOfSeries) ==> State() == old(State())
      ensures State() == ScanSession.LatchFirst(old(State()), now)
    {
      if !firstReadOfSeries {
        firstReadOfSeries := true;
        timeOfFirstRead := now;
        initialRead := true;
        startUpload := false;
      }
    }

    /** Once the expiry flag is set, the upload is started, and armed once. */
    method StartUploadOnExpiry()
      modifies this
      ensures buffer == old(buffer)
      ensures old(doneReadingDueToTimeExpiring && !startUpload)
              ==> State() == old(State()).(startUpload := true, uploadOnce := true)
      ensures !old(doneReadingDueToTimeExpiring && !startUpload) ==> State() == old(State())
      ensures State() == ScanSession.ArmUpload(old(State()))
    {
      if doneReadingDueToTimeExpiring {
        if !startUpload {
          startUpload := true;
          uploadOnce := true;
        }
      }
    }

    /** The `if (startUpload == true)` block: the one-shot "uploading" announcement. */
    method AnnounceUpload() returns (announced: Option<nat>)
      modifies this
      ensures buffer == old(buffer)
      ensures (State(), announced) == ScanSession.AnnounceUpload(old(State()))
    {
      announced := None;
      if startUpload {
        if uploadOnce {
          uploadOnce := false;
          announced := Some(uploadTag);
        }
      }
    }

    /** The `if (hasReadEnded == true)` block. */
    method EndRead()
      modifies this
      ensures buffer == old(buffer)
      ensures State() == ScanSession.EndRead(old(State()))
    {
      if hasReadEnded {
        hasReadEnded := false;
        lastTag := 0;
        firstReadOfSeries := false;
        readyToRead := true;
      }
    }

    /** The weight refresh at the end of `loop()`: `scaleValue = -1 * readWeight()` every `period` ms. */
    method RefreshWeight(now: nat, weightSample: seq<bool>)
      requires |weightSample| == LoadCell.BITS
      modifies this
      ensures buffer == old(buffer)
      ensures State() == ScanSession.RefreshWeight(old(State()), now, weightSample)
    {
      if now > timeNow + ScanSession.PERIOD {
        timeNow := now;
        var raw, _ := LoadCell.GetValue(weightSample);
        scaleValue := LoadCell.ScaleValue(raw, offset);
      }
    }

    /** One pass of `loop()`, returning the tag of the "uploading" announcement if one is made. */
    method Loop(now: nat, input: ScanSession.SerialInput, tareSample: seq<bool>, weightSample: seq<bool>)
      returns (announced: Option<nat>)
      requires Valid() && |tareSample| == LoadCell.BITS && |weightSample| == LoadCell.BITS
      modifies this, buffer
      ensures Valid()
      ensures (State(), announced) == ScanSession.LoopStep(old(State()), ScanSession.Tick(now, input, tareSample, weightSample))
    {
      UpdateSessionFlags(now);
      announced := AnnounceUpload();
      EndRead();
      ReadRFIDSerialValue(now, input, tareSample);
      RefreshWeight(now, weightSample);
      ScanSession.LoopStepInv(old(State()), ScanSession.Tick(now, input, tareSample, weightSample));
    }
  }
}
