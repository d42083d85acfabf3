/** The byte-level frame assembly of `readRFIDSerialValue`: how one received
    byte moves `buffer[14]` and `buffer_index`, and when a complete frame is
    handed to `useExtractedTag`. */
module FrameAssembler {
  import opened Common
  import opened RfidFrame

  const HEAD: byte := 2
  const TAIL: byte := 3

  /** The global `buffer[BUFFER_SIZE]` and `buffer_index`. */
  datatype Assembler = Assembler(buffer: seq<byte>, index: int)

  /** `buffer_index` is never negative and never beyond the buffer. */
  predicate Valid(a: Assembler) {
    |a.buffer| == BUFFER_SIZE && 0 <= a.index <= BUFFER_SIZE
  }

  /** The state after one byte, and whether `useExtractedTag` is called. */
  datatype Fed = Fed(next: Assembler, extract: bool)

  /** One received byte (the path after a successful `ssrfid.read()`). */
  function Feed(a: Assembler, b: byte): (r: Fed)
    requires Valid(a)
    ensures Valid(r.next)
    // A head byte resynchronises: the partial frame is given up and the head is stored at 0.
    ensures b == HEAD ==> r.next == Assembler(a.buffer[0 := HEAD], 1) && !r.extract
    // The overflow guard: with a full buffer every other byte is dropped.
    ensures a.index == BUFFER_SIZE && b != HEAD ==> r.next == a && !r.extract
    // Extraction fires exactly for a tail byte written at index 13 ...
    ensures r.extract <==> b == TAIL && a.index == BUFFER_SIZE - 1
    // ... and then the buffer holds the tail at 13, the earlier bytes untouched.
    ensures r.extract ==> r.next == Assembler(a.buffer[BUFFER_SIZE - 1 := TAIL], BUFFER_SIZE)
    // A tail byte anywhere earlier is written, and the assembler starts over.
    ensures b == TAIL && a.index < BUFFER_SIZE - 1 ==> r.next == Assembler(a.buffer[a.index := TAIL], 0)
    // Any other byte is appended.
    ensures b != HEAD && b != TAIL && a.index < BUFFER_SIZE ==> r.next == Assembler(a.buffer[a.index := b], a.index + 1)
  {
    var index := if b == HEAD then 0 else a.index;
    if index >= BUFFER_SIZE then Fed(Assembler(a.buffer, index), false)
    else
      var buffer := a.buffer[index := b];
      var index' := index + 1;
      if b == TAIL then
        if index' == BUFFER_SIZE then Fed(Assembler(buffer, index'), true)
        else Fed(Assembler(buffer, 0), false)
      else Fed(Assembler(buffer, index'), false)
  }

  /** Feeding a sequence of bytes: the final state and, per byte, whether it
      completed a frame. */
  function Run(a: Assembler, bs: seq<byte>): (r: (Assembler, seq<bool>))
    requires Valid(a)
    ensures Valid(r.0) && |r.1| == |bs|
  {
    if bs == [] then (a, [])
    else
      var p := Run(a, bs[..|bs| - 1]);
      var f := Feed(p.0, bs[|bs| - 1]);
      (f.next, p.1 + [f.extract])
  }

  function Falses(n: nat): (s: seq<bool>)
    ensures |s| == n && forall i :: 0 <= i < n ==> !s[i]
  {
    seq(n, _ => false)
  }

  lemma WholePrefix<T>(s: seq<T>)
    ensures s[..|s|] == s
  {
  }

  lemma FalsesAppend(n: nat, k: nat)
    ensures Falses(n) + Falses(k) == Falses(n + k)
  {
  }

  /** Bytes that are neither a head nor a tail, like the ASCII hex digits of a frame. */
  predicate Plain(m: seq<byte>) {
    forall i :: 0 <= i < |m| ==> m[i] != HEAD && m[i] != TAIL
  }

  lemma RunSnoc(a: Assembler, bs: seq<byte>, b: byte)
    requires Valid(a)
    ensures Run(a, bs + [b]) == (Feed(Run(a, bs).0, b).next, Run(a, bs).1 + [Feed(Run(a, bs).0, b).extract])
  {
    assert (bs + [b])[..|bs|] == bs;
  }

  /** From any state, a head byte followed by at most 13 plain bytes leaves
      exactly those bytes at the front of the buffer, with nothing extracted. */
  lemma {:induction false} AfterHead(a: Assembler, m: seq<byte>)
    requires Valid(a) && Plain(m) && |m| < BUFFER_SIZE
    ensures Run(a, [HEAD] + m).0.index == 1 + |m|
    ensures Run(a, [HEAD] + m).0.buffer[..1 + |m|] == [HEAD] + m
    ensures Run(a, [HEAD] + m).1 == Falses(1 + |m|)
  {
    if m == [] {
      assert Run(a, [HEAD]) == Run(a, [] + [HEAD]);
      RunSnoc(a, [], HEAD);
    } else {
      var m' := m[..|m| - 1];
      var b := m[|m| - 1];
      AfterHead(a, m');
      assert [HEAD] + m == ([HEAD] + m') + [b];
      RunSnoc(a, [HEAD] + m', b);
      var p := Run(a, [HEAD] + m').0;
      assert p.buffer[p.index := b][..1 + |m|] == p.buffer[..1 + |m'|] + [b];
    }
  }

  /** A well-formed 14-byte frame received from any state is assembled whole
      and extracted exactly once, at its tail byte. */
  lemma FrameExtracted(a: Assembler, m: seq<byte>)
    requires Valid(a) && Plain(m) && |m| == BUFFER_SIZE - 2
    ensures Run(a, [HEAD] + m + [TAIL]).0 == Assembler([HEAD] + m + [TAIL], BUFFER_SIZE)
    ensures Run(a, [HEAD] + m + [TAIL]).1 == Falses(BUFFER_SIZE - 1) + [true]
  {
    AfterHead(a, m);
    RunSnoc(a, [HEAD] + m, TAIL);
    var p := Run(a, [HEAD] + m).0;
    assert p.buffer[..BUFFER_SIZE - 1] == [HEAD] + m;
    assert p.buffer[BUFFER_SIZE - 1 := TAIL] == [HEAD] + m + [TAIL];
  }

  /** A frame cut short (the tail arrives early) is discarded: nothing is
      extracted and the assembler restarts at index 0. */
  lemma ShortFrameDiscarded(a: Assembler, m: seq<byte>)
    requires Valid(a) && Plain(m) && |m| < BUFFER_SIZE - 2
    ensures Run(a, [HEAD] + m + [TAIL]).0.index == 0
    ensures Run(a, [HEAD] + m + [TAIL]).1 == Falses(|m| + 2)
  {
    AfterHead(a, m);
    RunSnoc(a, [HEAD] + m, TAIL);
  }

  /** With a full buffer, any run of bytes without a head byte changes nothing
      and extracts nothing. */
  lemma {:induction false} FullBufferIgnoresBytes(a: Assembler, bs: seq<byte>)
    requires Valid(a) && a.index == BUFFER_SIZE
    requires forall i :: 0 <= i < |bs| ==> bs[i] != HEAD
    ensures Run(a, bs) == (a, Falses(|bs|))
  {
    if bs != [] {
      FullBufferIgnoresBytes(a, bs[..|bs| - 1]);
      assert Falses(|bs| - 1) + [false] == Falses(|bs|);
    }
  }

  /** A frame that is too long (more than twelve bytes between head and tail)
      fills the buffer and is then never extracted: its tail is dropped. */
  lemma LongFrameDropped(a: Assembler, m: seq<byte>)
    requires Valid(a) && Plain(m) && |m| > BUFFER_SIZE - 2
    ensures Run(a, [HEAD] + m + [TAIL]).0 == Assembler(([HEAD] + m)[..BUFFER_SIZE], BUFFER_SIZE)
    ensures Run(a, [HEAD] + m + [TAIL]).1 == Falses(|m| + 2)
  {
    var m1, m2 := m[..BUFFER_SIZE - 1], m[BUFFER_SIZE - 1..];
    assert m == m1 + m2;
    assert Plain(m1) && Plain(m2);
    var xs, ys := [HEAD] + m1, m2 + [TAIL];
    assert forall i :: 0 <= i < |ys| ==> ys[i] != HEAD;
    assert [HEAD] + m + [TAIL] == xs + ys;
    assert ([HEAD] + m)[..BUFFER_SIZE] == xs;
    FillThenIgnore(a, m1, ys);
  }

  lemma FillThenIgnore(a: Assembler, m1: seq<byte>, ys: seq<byte>)
    requires Valid(a) && Plain(m1) && |m1| == BUFFER_SIZE - 1
    requires forall i :: 0 <= i < |ys| ==> ys[i] != HEAD
    ensures Run(a, [HEAD] + m1 + ys) == (Assembler([HEAD] + m1, BUFFER_SIZE), Falses(BUFFER_SIZE + |ys|))
  {
    var xs := [HEAD] + m1;
    AfterHead(a, m1);
    var q := Run(a, xs).0;
    WholePrefix(q.buffer);
    FullBufferIgnoresBytes(q, ys);
    RunAppend(a, xs, ys);
    FalsesAppend(BUFFER_SIZE, |ys|);
  }

  lemma {:induction false} RunAppend(a: Assembler, xs: seq<byte>, ys: seq<byte>)
    requires Valid(a)
    ensures Run(a, xs + ys) == (Run(Run(a, xs).0, ys).0, Run(a, xs).1 + Run(Run(a, xs).0, ys).1)
    decreases |ys|
  {
    if ys == [] {
      assert xs + ys == xs;
      assert Run(a, xs).1 + [] == Run(a, xs).1;
    } else {
      var ys', y := ys[..|ys| - 1], ys[|ys| - 1];
      RunAppend(a, xs, ys');
      assert ys == ys' + [y] && xs + ys == (xs + ys') + [y];
      RunSnoc(a, xs + ys', y);
      RunSnoc(Run(a, xs).0, ys', y);
      var r := Run(Run(a, xs).0, ys');
      var f := Feed(r.0, y);
      assert (Run(a, xs).1 + r.1) + [f.extract] == Run(a, xs).1 + (r.1 + [f.extract]);
    }
  }
}
