/** The scan-session logic of `src/main.cpp` as a function of the firmware's
    globals: one pass of `loop()` (the flag block, the upload announcement,
    the end-of-read reset, `readRFIDSerialValue` with `useExtractedTag`, and
    the weight refresh). One value of `millis()` is used per pass. */
module ScanSession {
  import opened Common
  import opened RfidFrame
  import opened FrameAssembler
  import opened LoadCell
  import opened Hex

  /** `debounceDelay`: silence on the serial line that ends a read. */
  const DEBOUNCE_DELAY: nat := 1000
  /** `period`: minimum time between weight refreshes. */
  const PERIOD: nat := 20
  /** Tags are stored only within this many milliseconds of the series' first read. */
  const ACQUISITION_WINDOW: nat := 2000
  /** The tag whose card tares the scale instead of being uploaded. */
  const TARE_TAG: nat := 10622595

  /** What `ssrfid.available()` / `ssrfid.read()` report in one pass. */
  datatype SerialInput = NothingAvailable | ReadFailed | Received(value: byte)

  /** The globals the session logic reads and writes. */
  datatype Globals = Globals(
    assembler: Assembler,            // buffer, buffer_index
    lastSerialRead: nat,             // timeSinceLastSerialReadFromRM6300
    hasReadStarted: bool,
    hasReadEnded: bool,
    lastTag: nat,
    isTagOk: bool,
    firstReadOfSeries: bool,
    timeOfFirstRead: nat,
    doneReadingDueToTimeExpiring: bool,
    initialRead: bool,
    uploadTag: nat,
    uploadWeight: int,
    readyToRead: bool,
    startUpload: bool,
    uploadOnce: bool,
    offset: int,                     // _offset
    scaleValue: int,
    timeNow: nat)                    // time_now

  /** The globals after `setup()`: static initial values and the tare of `prepareScale`. */
  function Boot(bootSample: seq<bool>): (g: Globals)
    requires |bootSample| == BITS
    ensures Inv(g) && !g.hasReadStarted && !g.firstReadOfSeries && !g.startUpload
    ensures g.offset == RawReading(bootSample)
  {
    Globals(Assembler(seq(BUFFER_SIZE, _ => 0), 0), 0, false, false, 0, false, false, 0,
            false, false, 0, 0, true, false, false, RawReading(bootSample), 0, 0)
  }

  /** What holds between two passes of `loop()`. */
  predicate Inv(g: Globals) {
    && Valid(g.assembler)
    && !g.uploadOnce
    && !g.hasReadEnded
    && g.uploadTag != TARE_TAG && g.uploadTag <= UINT_MAX
    && 0 <= g.offset < Pow2(BITS)
  }

  /** A pass opens a series when a read is under way and no first read is latched yet. */
  predicate Opens(g: Globals) {
    g.hasReadStarted && !g.firstReadOfSeries
  }

  /** `millis() - t > d` for a time `t` not later than `now`. */
  predicate Elapsed(now: nat, t: nat, d: nat) {
    now - t > d
  }

  /** The `if (hasReadStarted == true)` block of `loop()`. */
  function SessionFlags(g: Globals, now: nat): (r: Globals)
    ensures !g.hasReadStarted ==> r == g
    // Silence longer than the debounce delay ends the read.
    ensures g.hasReadStarted ==> (r.hasReadEnded <==> g.hasReadEnded || Elapsed(now, g.lastSerialRead, DEBOUNCE_DELAY))
    ensures g.hasReadStarted ==> (r.hasReadStarted <==> !Elapsed(now, g.lastSerialRead, DEBOUNCE_DELAY))
    // The first read of a series is latched once.
    ensures Opens(g) ==> r.firstReadOfSeries && r.timeOfFirstRead == now && r.initialRead
    ensures !Opens(g) ==> r.timeOfFirstRead == g.timeOfFirstRead && r.firstReadOfSeries == g.firstReadOfSeries
    // Once the expiry flag is set (by a valid tag decoded late in this or an earlier series), the upload is started once.
    ensures r.uploadOnce <==> g.uploadOnce || (g.hasReadStarted && g.doneReadingDueToTimeExpiring && (Opens(g) || !g.startUpload))
    ensures g.hasReadStarted ==> (r.startUpload <==> g.doneReadingDueToTimeExpiring || (g.startUpload && !Opens(g)))
    // The reader LED is switched off while a read is under way; `initialRead` is set only by an opening pass.
    ensures g.hasReadStarted ==> !r.readyToRead
    ensures !Opens(g) ==> r.initialRead == g.initialRead
    // Nothing but the session flags changes.
    ensures r == g.(readyToRead := r.readyToRead, hasReadStarted := r.hasReadStarted, hasReadEnded := r.hasReadEnded,
                    firstReadOfSeries := r.firstReadOfSeries, timeOfFirstRead := r.timeOfFirstRead,
                    initialRead := r.initialRead, startUpload := r.startUpload, uploadOnce := r.uploadOnce)
  {
    if !g.hasReadStarted then g
    else
      var g1 := g.(readyToRead := false);
      var g2 := if Elapsed(now, g.lastSerialRead, DEBOUNCE_DELAY) then g1.(hasReadStarted := false, hasReadEnded := true) else g1;
      var g3 := if !g2.firstReadOfSeries then g2.(firstReadOfSeries := true, timeOfFirstRead := now, initialRead := true, startUpload := false) else g2;
      if g3.doneReadingDueToTimeExpiring && !g3.startUpload then g3.(startUpload := true, uploadOnce := true) else g3
  }

  /** The flag block as its three steps, in their order. */
  lemma SessionFlagsSteps(g: Globals, now: nat)
    requires g.hasReadStarted
    ensures SessionFlags(g, now) == ArmUpload(LatchFirst(EndOnSilence(g.(readyToRead := false), now), now))
  {
    var g1 := g.(readyToRead := false);
    var g2 := if Elapsed(now, g.lastSerialRead, DEBOUNCE_DELAY) then g1.(hasReadStarted := false, hasReadEnded := true) else g1;
    assert EndOnSilence(g1, now) == g2;
    var g3 := if !g2.firstReadOfSeries then g2.(firstReadOfSeries := true, timeOfFirstRead := now, initialRead := true, startUpload := false) else g2;
    assert LatchFirst(g2, now) == g3;
  }

  /** The three steps of the flag block of src/main.cpp:117-142, in their
      order, split out so that the in-place methods can be proved one step at
      a time; `SessionFlagsSteps` ties them to `SessionFlags`. This one is
      the silence test. */
  function EndOnSilence(g: Globals, now: nat): Globals {
    if Elapsed(now, g.lastSerialRead, DEBOUNCE_DELAY) then g.(hasReadStarted := false, hasReadEnded := true) else g
  }

  /** The latch of the series' first read. */
  function LatchFirst(g: Globals, now: nat): Globals {
    if !g.firstReadOfSeries then g.(firstReadOfSeries := true, timeOfFirstRead := now, initialRead := true, startUpload := false) else g
  }

  /** The arming of the upload once the expiry flag is set. */
  function ArmUpload(g: Globals): Globals {
    if g.doneReadingDueToTimeExpiring && !g.startUpload then g.(startUpload := true, uploadOnce := true) else g
  }

  /** The `if (startUpload == true)` block: the one-shot "uploading" announcement of `uploadTag`. */
  function AnnounceUpload(g: Globals): (r: (Globals, Option<nat>))
    ensures r.1.Some? <==> g.startUpload && g.uploadOnce
    ensures r.1.Some? ==> r.1.value == g.uploadTag && r.0 == g.(uploadOnce := false)
    ensures r.1.None? ==> r.0 == g
  {
    if g.startUpload && g.uploadOnce then (g.(uploadOnce := false), Some(g.uploadTag)) else (g, None)
  }

  /** The `if (hasReadEnded == true)` block: back to "Ready to read tag". */
  function EndRead(g: Globals): (r: Globals)
    ensures g.hasReadEnded ==> r == g.(hasReadEnded := false, lastTag := 0, firstReadOfSeries := false, readyToRead := true)
    ensures !g.hasReadEnded ==> r == g
  {
    if g.hasReadEnded then g.(hasReadEnded := false, lastTag := 0, firstReadOfSeries := false, readyToRead := true) else g
  }

  /** The globals that `readRFIDSerialValue` never writes: all but the
      assembler, the read-started flag and timestamp, and what
      `useExtractedTag` writes. */
  predicate SerialKeeps(g: Globals, r: Globals) {
    && r.hasReadEnded == g.hasReadEnded && r.lastTag == g.lastTag && r.firstReadOfSeries == g.firstReadOfSeries
    && r.timeOfFirstRead == g.timeOfFirstRead && r.initialRead == g.initialRead && r.readyToRead == g.readyToRead
    && r.startUpload == g.startUpload && r.uploadOnce == g.uploadOnce && r.scaleValue == g.scaleValue
    && r.timeNow == g.timeNow
  }

  /** The globals that `useExtractedTag` never writes: all but `isTagOk`, the
      expiry flag, `_offset`, `uploadTag` and `uploadWeight`. */
  predicate TagKeeps(g: Globals, r: Globals) {
    && SerialKeeps(g, r) && r.assembler == g.assembler
    && r.hasReadStarted == g.hasReadStarted && r.lastSerialRead == g.lastSerialRead
  }

  /** `useExtractedTag` on the assembled frame: `extract_tag` yields the tag
      and `isTagOk`, and the decision below acts on them. The tare sample is
      what `getValue()` would read. */
  function UseExtractedTag(g: Globals, now: nat, tareSample: seq<bool>): (r: Globals)
    requires |g.assembler.buffer| == BUFFER_SIZE && |tareSample| == BITS
    ensures TagKeeps(g, r)
    ensures g.doneReadingDueToTimeExpiring ==> r.doneReadingDueToTimeExpiring
    ensures r.uploadTag == g.uploadTag || (r.uploadTag != TARE_TAG && r.uploadTag <= UINT_MAX)
    ensures r.offset == g.offset || r.offset == RawReading(tareSample)
  {
    ActOnTag(g, now, ExtractedTag(g.assembler.buffer), ChecksumOk(g.assembler.buffer), tareSample)
  }

  /** The checks of `useExtractedTag`, in their order, on an extracted tag. */
  function ActOnTag(g: Globals, now: nat, tag: nat, ok: bool, tareSample: seq<bool>): (r: Globals)
    requires |tareSample| == BITS
    // A bad checksum changes nothing but `isTagOk`.
    ensures !ok ==> r == g.(isTagOk := false)
    // Late in the series, only the expiry flag is set.
    ensures ok && Elapsed(now, g.timeOfFirstRead, ACQUISITION_WINDOW)
            ==> r == g.(isTagOk := true, doneReadingDueToTimeExpiring := true)
    // The tare card re-zeroes the scale and is never stored for upload.
    ensures ok && !Elapsed(now, g.timeOfFirstRead, ACQUISITION_WINDOW) && tag == TARE_TAG
            ==> r == g.(isTagOk := true, offset := RawReading(tareSample))
    // Any other valid card in time is stored with the current weight.
    ensures ok && !Elapsed(now, g.timeOfFirstRead, ACQUISITION_WINDOW) && tag != TARE_TAG
            ==> r == g.(isTagOk := true, uploadTag := tag, uploadWeight := g.scaleValue)
    // Hence only the tag result, the expiry flag, the tare and the stored upload can change.
    ensures TagKeeps(g, r) && r.isTagOk == ok
    ensures g.doneReadingDueToTimeExpiring ==> r.doneReadingDueToTimeExpiring
    ensures r.uploadTag == g.uploadTag || (r.uploadTag == tag && tag != TARE_TAG)
    ensures r.offset == g.offset || r.offset == RawReading(tareSample)
  {
    var g1 := g.(isTagOk := ok);
    if !ok then g1
    else if Elapsed(now, g.timeOfFirstRead, ACQUISITION_WINDOW) then g1.(doneReadingDueToTimeExpiring := true)
    else StoreTag(g1, tag, tareSample)
  }

  /** A valid tag read within the window: the tare card re-zeroes the scale
      with a fresh reading, any other card is stored with the current weight. */
  function StoreTag(g: Globals, tag: nat, tareSample: seq<bool>): (r: Globals)
    requires |tareSample| == BITS
    ensures tag == TARE_TAG ==> r == g.(offset := RawReading(tareSample))
    ensures tag != TARE_TAG ==> r == g.(uploadTag := tag, uploadWeight := g.scaleValue)
  {
    if tag == TARE_TAG then g.(offset := RawReading(tareSample))
    else g.(uploadTag := tag, uploadWeight := g.scaleValue)
  }

  /** `readRFIDSerialValue`. */
  function ReadSerial(g: Globals, now: nat, input: SerialInput, tareSample: seq<bool>): (r: Globals)
    requires Valid(g.assembler) && |tareSample| == BITS
    ensures Valid(r.assembler)
    // Only the assembler, the read-started flag and timestamp, and what `useExtractedTag` writes can change.
    ensures SerialKeeps(g, r)
    ensures input.NothingAvailable? ==> r == g
    // A failed read still marks the read as started and refreshes the timestamp.
    ensures input.ReadFailed? ==> r == g.(hasReadStarted := true, lastSerialRead := now)
    ensures !input.NothingAvailable? ==> r.hasReadStarted && r.lastSerialRead == now
    ensures input.Received? ==> r.assembler == Feed(g.assembler, input.value).next
    ensures g.doneReadingDueToTimeExpiring ==> r.doneReadingDueToTimeExpiring
    // A newly stored tag is a 32-bit pattern and never the tare tag; a new offset is a raw reading.
    ensures r.uploadTag == g.uploadTag || (r.uploadTag != TARE_TAG && r.uploadTag <= UINT_MAX)
    ensures r.offset == g.offset || r.offset == RawReading(tareSample)
  {
    match input
    case NothingAvailable => g
    case ReadFailed => g.(hasReadStarted := true, lastSerialRead := now)
    case Received(b) => ReceiveByte(g, now, b, tareSample)
  }

  /** A successful `ssrfid.read()`: the byte goes to the assembler, and a completed frame to `useExtractedTag`. */
  function ReceiveByte(g: Globals, now: nat, b: byte, tareSample: seq<bool>): (r: Globals)
    requires Valid(g.assembler) && |tareSample| == BITS
    ensures SerialKeeps(g, r) && r.hasReadStarted && r.lastSerialRead == now
    ensures r.assembler == Feed(g.assembler, b).next
    ensures !Feed(g.assembler, b).extract ==> r == g.(assembler := r.assembler, hasReadStarted := true, lastSerialRead := now)
    ensures g.doneReadingDueToTimeExpiring ==> r.doneReadingDueToTimeExpiring
    ensures r.uploadTag == g.uploadTag || (r.uploadTag != TARE_TAG && r.uploadTag <= UINT_MAX)
    ensures r.offset == g.offset || r.offset == RawReading(tareSample)
  {
    var f := Feed(g.assembler, b);
    var g1 := g.(hasReadStarted := true, lastSerialRead := now, assembler := f.next);
    if f.extract then UseExtractedTag(g1, now, tareSample) else g1
  }

  /** Marking the read before the byte is handled, as `readRFIDSerialValue`
      does, makes no difference to the byte's handling. */
  lemma ReceiveByteMarked(g: Globals, now: nat, b: byte, tareSample: seq<bool>)
    requires Valid(g.assembler) && |tareSample| == BITS
    ensures ReceiveByte(g.(hasReadStarted := true, lastSerialRead := now), now, b, tareSample) == ReceiveByte(g, now, b, tareSample)
  {
    var m := g.(hasReadStarted := true, lastSerialRead := now);
    var f := Feed(g.assembler, b);
    assert m.(hasReadStarted := true, lastSerialRead := now, assembler := f.next)
        == g.(hasReadStarted := true, lastSerialRead := now, assembler := f.next);
  }

  /** The weight refresh at the end of `loop()`. */
  function RefreshWeight(g: Globals, now: nat, sample: seq<bool>): (r: Globals)
    requires |sample| == BITS
    ensures now > g.timeNow + PERIOD ==> r == g.(timeNow := now, scaleValue := ScaleValue(RawReading(sample), g.offset))
    ensures now <= g.timeNow + PERIOD ==> r == g
    ensures r == g.(timeNow := r.timeNow, scaleValue := r.scaleValue)
  {
    if now > g.timeNow + PERIOD then g.(timeNow := now, scaleValue := ScaleValue(RawReading(sample), g.offset)) else g
  }

  /** The inputs of one pass: the time, the serial line, and the DOUT samples
      a tare and a weight refresh would read. */
  datatype Tick = Tick(now: nat, input: SerialInput, tareSample: seq<bool>, weightSample: seq<bool>)

  predicate WellFormed(t: Tick) {
    |t.tareSample| == BITS && |t.weightSample| == BITS
  }

  /** One pass of `loop()`: the new globals and the announced upload, if any. */
  function LoopStep(g: Globals, t: Tick): (r: (Globals, Option<nat>))
    requires Valid(g.assembler) && WellFormed(t)
    ensures Valid(r.0.assembler)
    // At most one byte per pass reaches the assembler.
    ensures t.input.NothingAvailable? ==> r.0.assembler == g.assembler
    ensures t.input.Received? ==> r.0.assembler == Feed(g.assembler, t.input.value).next
    // Any read, even a failed one, marks the read as under way at this pass's time.
    ensures !t.input.NothingAvailable? ==> r.0.hasReadStarted && r.0.lastSerialRead == t.now
    // The series' start time is written only by the pass that opens it.
    ensures r.0.timeOfFirstRead == if Opens(g) then t.now else g.timeOfFirstRead
    // An announcement names the tag stored before the pass.
    ensures r.1.Some? ==> r.1.value == g.uploadTag
    ensures g.doneReadingDueToTimeExpiring ==> r.0.doneReadingDueToTimeExpiring
  {
    var g1 := SessionFlags(g, t.now);
    var a := AnnounceUpload(g1);
    var g3 := EndRead(a.0);
    assert g3.assembler == g.assembler && g3.uploadTag == g.uploadTag;
    assert g3.timeOfFirstRead == g1.timeOfFirstRead && g3.doneReadingDueToTimeExpiring == g.doneReadingDueToTimeExpiring;
    var g4 := ReadSerial(g3, t.now, t.input, t.tareSample);
    assert g4.timeOfFirstRead == g3.timeOfFirstRead;
    assert !t.input.NothingAvailable? ==> g4.hasReadStarted && g4.lastSerialRead == t.now;
    (RefreshWeight(g4, t.now, t.weightSample), a.1)
  }

  /** The invariant holds from pass to pass. In particular the tare card is
      never stored for upload, and `uploadOnce` never outlives its pass. */
  lemma LoopStepInv(g: Globals, t: Tick)
    requires Inv(g) && WellFormed(t)
    ensures Inv(LoopStep(g, t).0)
  {
    var g1 := SessionFlags(g, t.now);
    var a := AnnounceUpload(g1);
    var g3 := EndRead(a.0);
    assert Valid(g3.assembler) && !g3.uploadOnce && !g3.hasReadEnded;
    assert g3.uploadTag == g.uploadTag && g3.offset == g.offset;
    var g4 := ReadSerial(g3, t.now, t.input, t.tareSample);
    assert Inv(g4);
  }

  /** A pass announces an upload exactly when a read is under way, the
      expiry flag was set before the pass (by a valid tag decoded more than
      2000 ms after its series' first read, in this or any earlier series),
      and the upload of this series has not been started yet (a series
      opening in this very pass counts as not started). The announced tag is
      the one stored before the pass. */
  lemma AnnouncementCondition(g: Globals, t: Tick)
    requires Inv(g) && WellFormed(t)
    ensures LoopStep(g, t).1.Some? <==> g.hasReadStarted && g.doneReadingDueToTimeExpiring && (Opens(g) || !g.startUpload)
    ensures LoopStep(g, t).1.Some? ==> LoopStep(g, t).1.value == g.uploadTag && g.uploadTag != TARE_TAG
  {
  }

  /** `doneReadingDueToTimeExpiring` is set but never cleared. */
  lemma DoneNeverResets(g: Globals, t: Tick)
    requires Valid(g.assembler) && WellFormed(t) && g.doneReadingDueToTimeExpiring
    ensures LoopStep(g, t).0.doneReadingDueToTimeExpiring
  {
  }

  /** The serial read sets the expiry flag only on a frame it completes,
      whose checksum holds, more than 2000 ms after the series' first read. */
  lemma ReadSetsExpiry(p: Globals, now: nat, input: SerialInput, tareSample: seq<bool>)
    requires Valid(p.assembler) && |tareSample| == BITS && !p.doneReadingDueToTimeExpiring
    requires ReadSerial(p, now, input, tareSample).doneReadingDueToTimeExpiring
    ensures input.Received? && Feed(p.assembler, input.value).extract
    ensures ChecksumOk(Feed(p.assembler, input.value).next.buffer)
    ensures Elapsed(now, p.timeOfFirstRead, ACQUISITION_WINDOW)
  {
    assert input.Received?;
    var f := Feed(p.assembler, input.value);
    var p1 := p.(hasReadStarted := true, lastSerialRead := now, assembler := f.next);
    assert f.extract;
    assert ReadSerial(p, now, input, tareSample)
        == ActOnTag(p1, now, ExtractedTag(f.next.buffer), ChecksumOk(f.next.buffer), tareSample);
  }

  /** The expiry flag is not set by time alone: a pass sets it only by
      reading the tail of a frame that passes the checksum more than 2000 ms
      after its series' first read. */
  lemma ExpiryOnlyByLateTag(g: Globals, t: Tick)
    requires Inv(g) && WellFormed(t) && !g.doneReadingDueToTimeExpiring
    requires LoopStep(g, t).0.doneReadingDueToTimeExpiring
    ensures t.input.Received? && Feed(g.assembler, t.input.value).extract
    ensures ChecksumOk(Feed(g.assembler, t.input.value).next.buffer)
    ensures Elapsed(t.now, LoopStep(g, t).0.timeOfFirstRead, ACQUISITION_WINDOW)
  {
    var p := EndRead(AnnounceUpload(SessionFlags(g, t.now)).0);
    PrologueKeeps(g, t.now);
    var q := ReadSerial(p, t.now, t.input, t.tareSample);
    assert LoopStep(g, t).0 == RefreshWeight(q, t.now, t.weightSample);
    ReadSetsExpiry(p, t.now, t.input, t.tareSample);
  }

  /** Consequence of the sticky flag: once it is set, every later series is
      announced in the pass that opens it, with the tag stored before that
      pass (the previous series' tag), before any card of the new series has
      been read. */
  lemma StaleAnnouncementAtOpening(g: Globals, t: Tick)
    requires Inv(g) && WellFormed(t) && Opens(g) && g.doneReadingDueToTimeExpiring
    ensures LoopStep(g, t).1 == Some(g.uploadTag)
  {
  }

  /** `timeOfFirstRead` is written only by the pass that opens a series, and
      then holds that pass's time. */
  lemma FirstReadLatched(g: Globals, t: Tick)
    requires Inv(g) && WellFormed(t)
    ensures LoopStep(g, t).0.timeOfFirstRead == if Opens(g) then t.now else g.timeOfFirstRead
    ensures Opens(g) ==> LoopStep(g, t).0.firstReadOfSeries != Elapsed(t.now, g.lastSerialRead, DEBOUNCE_DELAY)
    ensures !Opens(g) && g.firstReadOfSeries && !g.hasReadStarted ==> LoopStep(g, t).0.firstReadOfSeries
  {
  }

  /** Silence longer than `debounceDelay` ends the series in the same pass:
      every series flag is cleared and the reader is ready again; a byte
      arriving in that pass starts a new read. */
  lemma SilenceEndsSeries(g: Globals, t: Tick)
    requires Inv(g) && WellFormed(t) && g.hasReadStarted && Elapsed(t.now, g.lastSerialRead, DEBOUNCE_DELAY)
    ensures !LoopStep(g, t).0.firstReadOfSeries && !LoopStep(g, t).0.hasReadEnded && LoopStep(g, t).0.readyToRead
    ensures LoopStep(g, t).0.hasReadStarted <==> !t.input.NothingAvailable?
  {
  }

  /** 1 while the upload of the current series may still be started, else 0. */
  function Pending(g: Globals): nat {
    if g.startUpload then 0 else 1
  }

  function Count(e: Option<nat>): nat {
    if e.Some? then 1 else 0
  }

  /** The one-step accounting behind "at most one upload per series". */
  lemma StepBound(g: Globals, t: Tick)
    requires Inv(g) && WellFormed(t)
    ensures Count(LoopStep(g, t).1) + Pending(LoopStep(g, t).0) <= if Opens(g) then 1 else Pending(g)
  {
  }

  /** Every pass carries 24 DOUT samples for a tare and for a refresh. */
  predicate AllWellFormed(ticks: seq<Tick>) {
    forall i :: 0 <= i < |ticks| ==> WellFormed(ticks[i])
  }

  /** The globals after a sequence of passes. Nothing requires the passes'
      times to increase; `Elapsed` agrees with the firmware's unsigned
      `millis()` subtraction only for times that do not run backwards, so
      results about runs whose times are not monotone say nothing about the
      firmware. */
  function RunLoop(g: Globals, ticks: seq<Tick>): (r: Globals)
    requires Inv(g) && AllWellFormed(ticks)
    ensures Inv(r)
    decreases |ticks|
  {
    if ticks == [] then g
    else
      LoopStepInv(g, ticks[0]);
      RunLoop(LoopStep(g, ticks[0]).0, ticks[1..])
  }

  /** The number of passes that announce an upload. */
  function Announcements(g: Globals, ticks: seq<Tick>): nat
    requires Inv(g) && AllWellFormed(ticks)
    decreases |ticks|
  {
    if ticks == [] then 0
    else
      LoopStepInv(g, ticks[0]);
      Count(LoopStep(g, ticks[0]).1) + Announcements(LoopStep(g, ticks[0]).0, ticks[1..])
  }

  /** The number of passes that open a series. */
  function Openings(g: Globals, ticks: seq<Tick>): nat
    requires Inv(g) && AllWellFormed(ticks)
    decreases |ticks|
  {
    if ticks == [] then 0
    else
      LoopStepInv(g, ticks[0]);
      (if Opens(g) then 1 else 0) + Openings(LoopStep(g, ticks[0]).0, ticks[1..])
  }

  /** Within a series (no pass opens a new one), at most one upload is
      announced, and none once the series' upload has started. */
  lemma {:induction false} NoOpeningBound(g: Globals, ticks: seq<Tick>)
    requires Inv(g) && AllWellFormed(ticks)
    requires Openings(g, ticks) == 0
    ensures Announcements(g, ticks) + Pending(RunLoop(g, ticks)) <= Pending(g)
    decreases |ticks|
  {
    if ticks != [] {
      LoopStepInv(g, ticks[0]);
      StepBound(g, ticks[0]);
      NoOpeningBound(LoopStep(g, ticks[0]).0, ticks[1..]);
    }
  }

  /** A series (the pass that opens it and every pass up to the next
      opening) announces at most one upload. */
  lemma AtMostOneAnnouncementPerSeries(g: Globals, ticks: seq<Tick>)
    requires Inv(g) && AllWellFormed(ticks)
    requires ticks != [] && Opens(g)
    requires Openings(g, ticks) == 1
    ensures Announcements(g, ticks) <= 1
  {
    LoopStepInv(g, ticks[0]);
    StepBound(g, ticks[0]);
    NoOpeningBound(LoopStep(g, ticks[0]).0, ticks[1..]);
  }

  /** The passes deliver the bytes `bs`, one successful read per pass. */
  predicate Delivers(ticks: seq<Tick>, bs: seq<byte>) {
    |ticks| == |bs| && forall i :: 0 <= i < |ticks| ==> ticks[i].input == Received(bs[i])
  }

  /** Consecutive passes come in time order, never further apart than `debounceDelay`. */
  predicate Paced(ticks: seq<Tick>) {
    forall i :: 0 <= i < |ticks| - 1 ==> ticks[i].now <= ticks[i + 1].now <= ticks[i].now + DEBOUNCE_DELAY
  }

  lemma {:induction false} RunLoopSnoc(g: Globals, ticks: seq<Tick>, t: Tick)
    requires Inv(g) && AllWellFormed(ticks) && WellFormed(t)
    ensures AllWellFormed(ticks + [t])
    ensures RunLoop(g, ticks + [t]) == LoopStep(RunLoop(g, ticks), t).0
    decreases |ticks|
  {
    if ticks == [] {
      assert ticks + [t] == [t];
      LoopStepInv(g, t);
      assert [t][1..] == [];
    } else {
      LoopStepInv(g, ticks[0]);
      assert (ticks + [t])[1..] == ticks[1..] + [t];
      RunLoopSnoc(LoopStep(g, ticks[0]).0, ticks[1..], t);
    }
  }

  /** Over passes that each read one byte, the assembler moves exactly as the
      frame assembler fed those bytes in order; the rest of `loop()` never
      touches it. */
  /** The passes after the first deliver the bytes after the first. */
  lemma DeliversRest(ticks: seq<Tick>, bs: seq<byte>)
    requires Delivers(ticks, bs) && ticks != []
    ensures Delivers(ticks[1..], bs[1..]) && ticks[0].input == Received(bs[0])
  {
    forall i | 0 <= i < |ticks| - 1 ensures ticks[1..][i].input == Received(bs[1..][i]) {
      assert ticks[1..][i] == ticks[i + 1] && bs[1..][i] == bs[i + 1];
    }
  }

  /** A pass that reads one byte moves the assembler as feeding that byte. */
  lemma OneByteRun(g: Globals, t: Tick, b: byte)
    requires Valid(g.assembler) && WellFormed(t) && t.input == Received(b)
    ensures LoopStep(g, t).0.assembler == Run(g.assembler, [b]).0
  {
    assert [b][..0] == [];
  }

  lemma {:induction false} LoopAssembler(g: Globals, ticks: seq<Tick>, bs: seq<byte>)
    requires Inv(g) && AllWellFormed(ticks) && Delivers(ticks, bs)
    ensures RunLoop(g, ticks).assembler == Run(g.assembler, bs).0
    decreases |ticks|
  {
    if ticks != [] {
      LoopStepInv(g, ticks[0]);
      var g' := LoopStep(g, ticks[0]).0;
      DeliversRest(ticks, bs);
      LoopAssembler(g', ticks[1..], bs[1..]);
      assert RunLoop(g, ticks) == RunLoop(g', ticks[1..]);
      OneByteRun(g, ticks[0], bs[0]);
      assert [bs[0]] + bs[1..] == bs;
      RunAppend(g.assembler, [bs[0]], bs[1..]);
    }
  }

  /** What the flag block, the announcement and the end-of-read reset leave
      untouched before the serial line is read. */
  lemma PrologueKeeps(g: Globals, now: nat)
    ensures var p := EndRead(AnnounceUpload(SessionFlags(g, now)).0);
            && p.assembler == g.assembler && p.scaleValue == g.scaleValue
            && p.uploadTag == g.uploadTag && p.offset == g.offset
            && p.timeOfFirstRead == SessionFlags(g, now).timeOfFirstRead
            && p.doneReadingDueToTimeExpiring == g.doneReadingDueToTimeExpiring
  {
  }

  /** Reading the tail byte of a card's frame whose first thirteen bytes are
      assembled completes the frame, which passes the checksum and carries
      the card's tag. */
  lemma TailByteRead(p: Globals, now: nat, version: byte, id: seq<byte>, tareSample: seq<bool>)
    requires Valid(p.assembler) && |id| == 4 && |tareSample| == BITS
    requires p.assembler.index == BUFFER_SIZE - 1 && p.assembler.buffer[..BUFFER_SIZE - 1] == EncodeFrame(version, id)[..BUFFER_SIZE - 1]
    ensures ReadSerial(p, now, Received(TAIL), tareSample)
            == ActOnTag(p.(hasReadStarted := true, lastSerialRead := now, assembler := Assembler(EncodeFrame(version, id), BUFFER_SIZE)),
                        now, PositiveValue(TagNumber(id)), true, tareSample)
  {
    var f := EncodeFrame(version, id);
    assert p.assembler.buffer[BUFFER_SIZE - 1 := TAIL] == f;
    DecodeEncode(version, id);
    assert Feed(p.assembler, TAIL) == Fed(Assembler(f, BUFFER_SIZE), true);
  }

  /** The pass that reads a frame's tail byte: with the first thirteen
      bytes of a card's frame already assembled, the frame is extracted and
      passes the checksum. The window is measured from the series' start as
      latched in this pass. Within it, the tag (saturated at `LONG_MAX`) is
      stored with the weight shown before the pass, or the tare card
      re-zeroes the scale instead; after it, only the expiry flag is set. */
  lemma TailPass(h: Globals, t: Tick, version: byte, id: seq<byte>)
    requires Inv(h) && WellFormed(t) && |id| == 4 && t.input == Received(TAIL)
    requires h.assembler.index == BUFFER_SIZE - 1 && h.assembler.buffer[..BUFFER_SIZE - 1] == EncodeFrame(version, id)[..BUFFER_SIZE - 1]
    ensures var r, tag := LoopStep(h, t).0, PositiveValue(TagNumber(id));
            && r.assembler == Assembler(EncodeFrame(version, id), BUFFER_SIZE) && r.isTagOk
            && (Elapsed(t.now, r.timeOfFirstRead, ACQUISITION_WINDOW) ==>
                  r.doneReadingDueToTimeExpiring && r.uploadTag == h.uploadTag && r.offset == h.offset)
            && (!Elapsed(t.now, r.timeOfFirstRead, ACQUISITION_WINDOW) && tag != TARE_TAG ==>
                  r.uploadTag == tag && r.uploadWeight == h.scaleValue)
            && (!Elapsed(t.now, r.timeOfFirstRead, ACQUISITION_WINDOW) && tag == TARE_TAG ==>
                  r.offset == RawReading(t.tareSample) && r.uploadTag == h.uploadTag)
  {
    var p := EndRead(AnnounceUpload(SessionFlags(h, t.now)).0);
    PrologueKeeps(h, t.now);
    TailByteRead(p, t.now, version, id, t.tareSample);
    var q := p.(hasReadStarted := true, lastSerialRead := t.now, assembler := Assembler(EncodeFrame(version, id), BUFFER_SIZE));
    var s := ActOnTag(q, t.now, PositiveValue(TagNumber(id)), true, t.tareSample);
    assert LoopStep(h, t).0 == RefreshWeight(s, t.now, t.weightSample);
  }

  /** End to end over passes of `loop()`: the frame a reader sends for a
      card, delivered one byte per pass from any reader state, is assembled
      and decided as `TailPass` says in the pass that reads its tail. The
      passes' times are not constrained here; for the firmware's clock they
      must not run backwards (see `RunLoop`), as `OpeningFrameStored`
      requires through `Paced`. */
  lemma ScannedCardStored(g: Globals, ticks: seq<Tick>, version: byte, id: seq<byte>)
    requires Inv(g) && |id| == 4 && AllWellFormed(ticks)
    requires Delivers(ticks, EncodeFrame(version, id))
    ensures AllWellFormed(ticks[..BUFFER_SIZE - 1])
    ensures var r, before, tag := RunLoop(g, ticks), RunLoop(g, ticks[..BUFFER_SIZE - 1]), PositiveValue(TagNumber(id));
            && r.assembler == Assembler(EncodeFrame(version, id), BUFFER_SIZE) && r.isTagOk
            && (Elapsed(ticks[BUFFER_SIZE - 1].now, r.timeOfFirstRead, ACQUISITION_WINDOW) ==>
                  r.doneReadingDueToTimeExpiring && r.uploadTag == before.uploadTag && r.offset == before.offset)
            && (!Elapsed(ticks[BUFFER_SIZE - 1].now, r.timeOfFirstRead, ACQUISITION_WINDOW) && tag != TARE_TAG ==>
                  r.uploadTag == tag && r.uploadWeight == before.scaleValue)
            && (!Elapsed(ticks[BUFFER_SIZE - 1].now, r.timeOfFirstRead, ACQUISITION_WINDOW) && tag == TARE_TAG ==>
                  r.offset == RawReading(ticks[BUFFER_SIZE - 1].tareSample) && r.uploadTag == before.uploadTag)
  {
    var f := EncodeFrame(version, id);
    var pre, t := ticks[..BUFFER_SIZE - 1], ticks[BUFFER_SIZE - 1];
    assert ticks == pre + [t];
    var m := f[1..13];
    assert Plain(m) by {
      forall i | 0 <= i < |m| ensures m[i] != HEAD && m[i] != TAIL {
        assert IsHexDigit(m[i]);
      }
    }
    assert f[..13] == [HEAD] + m;
    assert Delivers(pre, f[..13]);
    LoopAssembler(g, pre, f[..13]);
    AfterHead(g.assembler, m);
    RunLoopSnoc(g, pre, t);
    assert t.input == Received(TAIL);
    TailPass(RunLoop(g, pre), t, version, id);
  }

  /** The passes of a series that is under way keep it under way and keep
      its start time, as long as bytes keep coming within `debounceDelay`. */
  lemma {:induction false} SeriesContinues(g: Globals, ticks: seq<Tick>)
    requires Inv(g) && AllWellFormed(ticks)
    requires g.hasReadStarted && g.firstReadOfSeries
    requires Paced(ticks) && (ticks != [] ==> ticks[0].now <= g.lastSerialRead + DEBOUNCE_DELAY)
    requires forall i :: 0 <= i < |ticks| ==> ticks[i].input.Received?
    ensures RunLoop(g, ticks).timeOfFirstRead == g.timeOfFirstRead
    ensures RunLoop(g, ticks).hasReadStarted && RunLoop(g, ticks).firstReadOfSeries
    decreases |ticks|
  {
    if ticks != [] {
      LoopStepInv(g, ticks[0]);
      var g' := LoopStep(g, ticks[0]).0;
      assert g'.hasReadStarted && g'.firstReadOfSeries && g'.lastSerialRead == ticks[0].now;
      assert Paced(ticks[1..]) by {
        forall i | 0 <= i < |ticks| - 2
          ensures ticks[1..][i].now <= ticks[1..][i + 1].now <= ticks[1..][i].now + DEBOUNCE_DELAY
        {
          assert ticks[1..][i] == ticks[i + 1] && ticks[1..][i + 1] == ticks[i + 2];
        }
      }
      assert ticks[1..] != [] ==> ticks[1..][0] == ticks[1];
      SeriesContinues(g', ticks[1..]);
    }
  }

  /** The opening frame of a series: from an idle reader, a card's frame read
      one byte per pass, paced within `debounceDelay`, latches the series'
      start in the pass after the head byte. If the tail arrives within the
      acquisition window of that start, the tag is stored with the weight
      shown before the tail's pass, or the tare card re-zeroes the scale. */
  lemma OpeningFrameStored(g: Globals, ticks: seq<Tick>, version: byte, id: seq<byte>)
    requires Inv(g) && !g.hasReadStarted && !g.firstReadOfSeries && |id| == 4
    requires AllWellFormed(ticks) && Paced(ticks)
    requires Delivers(ticks, EncodeFrame(version, id))
    requires ticks[BUFFER_SIZE - 1].now <= ticks[1].now + ACQUISITION_WINDOW
    ensures AllWellFormed(ticks[..BUFFER_SIZE - 1])
    ensures RunLoop(g, ticks).timeOfFirstRead == ticks[1].now
    ensures RunLoop(g, ticks).isTagOk
    ensures PositiveValue(TagNumber(id)) != TARE_TAG ==>
              RunLoop(g, ticks).uploadTag == PositiveValue(TagNumber(id))
              && RunLoop(g, ticks).uploadWeight == RunLoop(g, ticks[..BUFFER_SIZE - 1]).scaleValue
    ensures PositiveValue(TagNumber(id)) == TARE_TAG ==>
              RunLoop(g, ticks).offset == RawReading(ticks[BUFFER_SIZE - 1].tareSample)
  {
    LoopStepInv(g, ticks[0]);
    var g0 := LoopStep(g, ticks[0]).0;
    assert g0.hasReadStarted && !g0.firstReadOfSeries && g0.lastSerialRead == ticks[0].now;
    LoopStepInv(g0, ticks[1]);
    var g1 := LoopStep(g0, ticks[1]).0;
    assert g1.timeOfFirstRead == ticks[1].now;
    assert g1.hasReadStarted && g1.firstReadOfSeries && g1.lastSerialRead == ticks[1].now;
    assert ticks[1..][1..] == ticks[2..];
    assert RunLoop(g, ticks) == RunLoop(g1, ticks[2..]);
    assert Paced(ticks[2..]) by {
      forall i | 0 <= i < |ticks| - 3
        ensures ticks[2..][i].now <= ticks[2..][i + 1].now <= ticks[2..][i].now + DEBOUNCE_DELAY
      {
        assert ticks[2..][i] == ticks[i + 2] && ticks[2..][i + 1] == ticks[i + 3];
      }
    }
    assert ticks[2..][0] == ticks[2];
    SeriesContinues(g1, ticks[2..]);
    ScannedCardStored(g, ticks, version, id);
  }
}
