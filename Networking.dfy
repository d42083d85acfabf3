/** The string and gating helpers of `src/networking.cpp`: the field splitter
    `getValue`, the Firebase payload template `preparePayload`, and the
    one-shot send latch of `sendDataToThingSpeak` with `updateRate`. The
    HTTPS request itself is an abstract event: the data that would be sent. */
module Networking {
  import opened Common

  // ---------------------------------------------------------------------
  // getValue: the fields of a separated string

  /** No character of `s` is the separator. */
  predicate NoSep(s: string, sep: char) {
    forall i :: 0 <= i < |s| ==> s[i] != sep
  }

  /** Number of separators in `s`. */
  function Count(s: string, sep: char): nat {
    if s == [] then 0 else (if s[0] == sep then 1 else 0) + Count(s[1..], sep)
  }

  /** Where the field starting at `st` ends: at the first separator before
      the last character, or at `|d|` when the field reaches the last
      character, which it keeps even when that character is the separator. */
  function FieldEnd(d: string, sep: char, st: nat): (e: nat)
    requires st < |d|
    ensures st <= e <= |d|
    ensures e < |d| ==> e < |d| - 1 && d[e] == sep
    decreases |d| - st
  {
    if st == |d| - 1 then |d|
    else if d[st] == sep then st
    else FieldEnd(d, sep, st + 1)
  }

  /** Number of fields from the one starting at `st` to the end. */
  function FieldsFrom(d: string, sep: char, st: nat): (n: nat)
    requires st < |d|
    ensures n >= 1
    decreases |d| - st
  {
    var e := FieldEnd(d, sep, st);
    if e == |d| then 1 else 1 + FieldsFrom(d, sep, e + 1)
  }

  /** Where field `k` starts, counting from the field starting at `st`. */
  function FieldStart(d: string, sep: char, st: nat, k: nat): (a: nat)
    requires st < |d| && k < FieldsFrom(d, sep, st)
    ensures st <= a < |d|
    decreases |d| - st
  {
    if k == 0 then st else FieldStart(d, sep, FieldEnd(d, sep, st) + 1, k - 1)
  }

  /** The number of fields `getValue` sees in `d`; the empty string has none. */
  function NumFields(d: string, sep: char): nat {
    if |d| == 0 then 0 else FieldsFrom(d, sep, 0)
  }

  /** The reference meaning of `getValue(data, separator, index)`: field
      number `index`, or the empty string when there are not that many. */
  function Field(d: string, sep: char, index: nat): string {
    if index < NumFields(d, sep) then
      var a := FieldStart(d, sep, 0, index);
      d[a..FieldEnd(d, sep, a)]
    else ""
  }

  /** `getValue`: one pass over `data`, counting fields in `found` and
      keeping the bounds of the last field in `strIndex[0..1]`. */
  method GetValue(data: string, separator: char, index: nat) returns (r: string)
    ensures r == Field(data, separator, index)
  {
    var found := 0;
    var strIndex0, strIndex1 := 0, -1;
    var maxIndex := |data| - 1;
    ghost var finished := |data| == 0;
    var i := 0;
    while i <= maxIndex && found <= index
      invariant 0 <= i <= |data| && found <= index + 1
      invariant finished ==> i == |data| && (found <= index ==> NumFields(data, separator) <= index)
      invariant !finished ==> 0 <= strIndex1 + 1 <= i < |data|
      invariant !finished ==> FieldEnd(data, separator, strIndex1 + 1) == FieldEnd(data, separator, i)
      invariant !finished && found <= index ==>
        (index < NumFields(data, separator) <==> index - found < FieldsFrom(data, separator, strIndex1 + 1))
      invariant !finished && found <= index && index < NumFields(data, separator) ==>
        FieldStart(data, separator, 0, index) == FieldStart(data, separator, strIndex1 + 1, index - found)
      invariant found > index ==>
        index < NumFields(data, separator) && FieldStart(data, separator, 0, index) == strIndex0 &&
        0 <= strIndex0 < |data| && strIndex1 == FieldEnd(data, separator, strIndex0)
      decreases |data| - i
    {
      if data[i] == separator || i == maxIndex {
        found := found + 1;
        strIndex0 := strIndex1 + 1;
        strIndex1 := if i == maxIndex then i + 1 else i;
        finished := i == maxIndex;
      }
      i := i + 1;
    }
    if found > index {
      r := data[strIndex0..strIndex1];
    } else {
      r := "";
    }
  }

  /** The separators among the positions `lo..hi-1` of `d`. */
  function Seps(d: string, sep: char, lo: nat, hi: nat): nat
    requires lo <= hi <= |d|
    decreases hi - lo
  {
    if lo == hi then 0 else (if d[lo] == sep then 1 else 0) + Seps(d, sep, lo + 1, hi)
  }

  /** `Count` on a slice is `Seps` on its positions. */
  lemma {:induction false} CountSlice(d: string, sep: char, lo: nat, hi: nat)
    requires lo <= hi <= |d|
    ensures Count(d[lo..hi], sep) == Seps(d, sep, lo, hi)
    decreases hi - lo
  {
    if lo < hi {
      assert d[lo..hi][0] == d[lo];
      assert d[lo..hi][1..] == d[lo + 1..hi];
      CountSlice(d, sep, lo + 1, hi);
    }
  }

  /** No separator in positions `lo..hi-1`: no separator there to count. */
  lemma {:induction false} SepsClear(d: string, sep: char, lo: nat, hi: nat)
    requires lo <= hi <= |d| && forall i :: lo <= i < hi ==> d[i] != sep
    ensures Seps(d, sep, lo, hi) == 0
    decreases hi - lo
  {
    if lo < hi {
      SepsClear(d, sep, lo + 1, hi);
    }
  }

  /** A separator-free stretch, one separator, then more text. */
  lemma {:induction false} SepsAcross(d: string, sep: char, st: nat, e: nat, a: nat)
    requires st <= e < a <= |d| && d[e] == sep && forall i :: st <= i < e ==> d[i] != sep
    ensures Seps(d, sep, st, a) == 1 + Seps(d, sep, e + 1, a)
    decreases e - st
  {
    if st < e {
      SepsAcross(d, sep, st + 1, e, a);
    }
  }

  /** No separator lies inside a field (the last field's final character aside). */
  lemma {:induction false} FieldEndClear(d: string, sep: char, st: nat)
    requires st < |d|
    ensures forall i :: st <= i < FieldEnd(d, sep, st) && i < |d| - 1 ==> d[i] != sep
    decreases |d| - st
  {
    if st < |d| - 1 && d[st] != sep {
      FieldEndClear(d, sep, st + 1);
    }
  }

  /** Field k counted from `st` is field k - 1 counted from the start of the next field. */
  lemma FieldStartNext(d: string, sep: char, st: nat, next: nat, k: nat)
    requires st < |d| && 0 < k < FieldsFrom(d, sep, st) && next == FieldEnd(d, sep, st) + 1
    ensures next < |d| && k - 1 < FieldsFrom(d, sep, next)
    ensures FieldStart(d, sep, st, k) == FieldStart(d, sep, next, k - 1)
  {
  }

  /** The separators before the start of field `k`. */
  lemma {:induction false} StartAfterSeps(d: string, sep: char, st: nat, k: nat)
    requires st < |d| && k < FieldsFrom(d, sep, st)
    ensures Seps(d, sep, st, FieldStart(d, sep, st, k)) == k
    ensures FieldStart(d, sep, st, k) == st || d[FieldStart(d, sep, st, k) - 1] == sep
    decreases |d| - st
  {
    if k > 0 {
      var e := FieldEnd(d, sep, st);
      StartAfterSeps(d, sep, e + 1, k - 1);
      FieldEndClear(d, sep, st);
      SepsAcross(d, sep, st, e, FieldStart(d, sep, e + 1, k - 1));
    }
  }

  /** Every field but the last ends at a separator; the last one runs to the end of `d`. */
  lemma {:induction false} FieldEndOfStart(d: string, sep: char, st: nat, k: nat)
    requires st < |d| && k < FieldsFrom(d, sep, st)
    ensures k + 1 < FieldsFrom(d, sep, st) ==> FieldEnd(d, sep, FieldStart(d, sep, st, k)) < |d|
    ensures k + 1 == FieldsFrom(d, sep, st) ==> FieldEnd(d, sep, FieldStart(d, sep, st, k)) == |d|
    decreases |d| - st
  {
    if k > 0 {
      FieldEndOfStart(d, sep, FieldEnd(d, sep, st) + 1, k - 1);
    }
  }

  /** Where field `k` lies in `d`: it is the contiguous substring `d[a..b]`
      that starts right after the k-th separator (or at 0). A field before the
      last one ends at the next separator, which it excludes; the last field
      runs to the end of `d` and keeps its final character even when that
      character is the separator. */
  lemma FieldShape(d: string, sep: char, k: nat) returns (a: nat, b: nat)
    requires k < NumFields(d, sep)
    ensures a <= b <= |d| && Field(d, sep, k) == d[a..b]
    ensures Count(d[..a], sep) == k && (a == 0 || d[a - 1] == sep)
    ensures k + 1 < NumFields(d, sep) ==> b < |d| - 1 && d[b] == sep && NoSep(d[a..b], sep)
    ensures k + 1 == NumFields(d, sep) ==> a < b == |d| && NoSep(d[a..|d| - 1], sep)
  {
    a := FieldStart(d, sep, 0, k);
    b := FieldEnd(d, sep, a);
    StartAfterSeps(d, sep, 0, k);
    FieldEndOfStart(d, sep, 0, k);
    CountSlice(d, sep, 0, a);
    assert d[0..a] == d[..a];
    FieldEndClear(d, sep, a);
    var c := if b < |d| then b else |d| - 1;
    forall i | 0 <= i < c - a ensures d[a..c][i] != sep {
      assert d[a..c][i] == d[a + i];
    }
  }

  /** The fields from `st` on: one more than the separators before the last character. */
  lemma {:induction false} FieldsFromCount(d: string, sep: char, st: nat)
    requires st < |d|
    ensures FieldsFrom(d, sep, st) == 1 + Seps(d, sep, st, |d| - 1)
    decreases |d| - st
  {
    var e := FieldEnd(d, sep, st);
    FieldEndClear(d, sep, st);
    if e == |d| {
      SepsClear(d, sep, st, |d| - 1);
    } else {
      FieldsFromCount(d, sep, e + 1);
      SepsAcross(d, sep, st, e, |d| - 1);
    }
  }

  /** `getValue` returns the empty string when `data` has fewer than
      `index + 1` fields, in particular when `data` is empty. */
  lemma FewFieldsEmpty(d: string, sep: char, index: nat)
    requires d == [] || Count(d[..|d| - 1], sep) < index
    ensures Field(d, sep, index) == ""
  {
    if d != [] {
      FieldsFromCount(d, sep, 0);
      CountSlice(d, sep, 0, |d| - 1);
      assert d[0..|d| - 1] == d[..|d| - 1];
    }
  }

  /** The string with the given fields, separated by `sep`. */
  function Join(fs: seq<string>, sep: char): (d: string)
    requires |fs| > 0
    ensures |d| >= |fs[|fs| - 1]|
  {
    if |fs| == 1 then fs[0] else fs[0] + [sep] + Join(fs[1..], sep)
  }

  /** `FieldEnd` finds the end of a separator-free stretch. */
  lemma {:induction false} FieldEndAt(d: string, sep: char, st: nat, e: nat)
    requires st <= e < |d| && NoSep(d[st..e], sep)
    requires e < |d| - 1 ==> d[e] == sep
    ensures FieldEnd(d, sep, st) == if e == |d| - 1 then |d| else e
    decreases e - st
  {
    if st < e {
      assert d[st..e][0] == d[st];
      assert d[st + 1..e] == d[st..e][1..];
      assert NoSep(d[st + 1..e], sep) by {
        var t := d[st + 1..e];
        forall i | 0 <= i < |t| ensures t[i] != sep {
          assert t[i] == d[st..e][i + 1];
        }
      }
      FieldEndAt(d, sep, st + 1, e);
    }
  }

  /** The first field of a join that starts at position `st` of `d`. */
  lemma JoinFirstField(d: string, st: nat, fs: seq<string>, sep: char)
    requires |fs| > 0 && fs[|fs| - 1] != [] && st <= |d| && d[st..] == Join(fs, sep)
    requires forall i :: 0 <= i < |fs| ==> NoSep(fs[i], sep)
    ensures st + |fs[0]| <= |d| && st < |d| && d[st..st + |fs[0]|] == fs[0]
    ensures |fs| == 1 ==> FieldEnd(d, sep, st) == |d| == st + |fs[0]|
    ensures |fs| > 1 ==> FieldEnd(d, sep, st) == st + |fs[0]| < |d| - 1
    ensures |fs| > 1 ==> d[st + |fs[0]| + 1..] == Join(fs[1..], sep)
  {
    var e := st + |fs[0]|;
    assert NoSep(fs[0], sep);
    if |fs| == 1 {
      assert d[st..e - 1] == fs[0][..|fs[0]| - 1];
      FieldEndAt(d, sep, st, e - 1);
    } else {
      var rest := Join(fs[1..], sep);
      assert d[st..] == fs[0] + [sep] + rest;
      assert d[st..e] == fs[0];
      assert d[e] == sep;
      assert d[e + 1..] == rest;
      FieldEndAt(d, sep, st, e);
    }
  }

  /** Joining separator-free fields and splitting again gives as many fields
      as were joined, provided the last field is not empty (an empty last
      field would leave the joining separator in last position, where it
      belongs to the field before it). */
  lemma {:induction false} JoinCount(d: string, st: nat, fs: seq<string>, sep: char)
    requires |fs| > 0 && fs[|fs| - 1] != [] && st <= |d| && d[st..] == Join(fs, sep)
    requires forall i :: 0 <= i < |fs| ==> NoSep(fs[i], sep)
    ensures st < |d| && FieldsFrom(d, sep, st) == |fs|
    decreases |fs|
  {
    JoinFirstField(d, st, fs, sep);
    if |fs| > 1 {
      JoinRest(fs, sep);
      JoinCount(d, st + |fs[0]| + 1, fs[1..], sep);
    }
  }

  /** The fields after the first meet the requirements on joined fields. */
  lemma JoinRest(fs: seq<string>, sep: char)
    requires |fs| > 1 && fs[|fs| - 1] != []
    requires forall i :: 0 <= i < |fs| ==> NoSep(fs[i], sep)
    ensures fs[1..][|fs| - 2] != [] && forall i :: 0 <= i < |fs| - 1 ==> NoSep(fs[1..][i], sep)
  {
    forall i | 0 <= i < |fs| - 1 ensures NoSep(fs[1..][i], sep) {
      assert fs[1..][i] == fs[i + 1];
    }
    assert fs[1..][|fs| - 2] == fs[|fs| - 1];
  }

  /** ... and field `k` of the split is the k-th joined field. */
  lemma {:induction false} JoinFieldAt(d: string, st: nat, fs: seq<string>, sep: char, k: nat)
    requires |fs| > 0 && fs[|fs| - 1] != [] && k < |fs| && st <= |d| && d[st..] == Join(fs, sep)
    requires forall i :: 0 <= i < |fs| ==> NoSep(fs[i], sep)
    ensures st < |d| && FieldsFrom(d, sep, st) == |fs|
    ensures var a := FieldStart(d, sep, st, k); d[a..FieldEnd(d, sep, a)] == fs[k]
    decreases |fs|
  {
    JoinCount(d, st, fs, sep);
    JoinFirstField(d, st, fs, sep);
    if k == 0 {
      assert FieldStart(d, sep, st, 0) == st;
      assert FieldEnd(d, sep, st) == st + |fs[0]|;
    } else {
      var st' := st + |fs[0]| + 1;
      JoinRest(fs, sep);
      JoinFieldAt(d, st', fs[1..], sep, k - 1);
      DropIndex(fs, k);
      FieldStartNext(d, sep, st, st', k);
      var a := FieldStart(d, sep, st', k - 1);
      assert d[a..FieldEnd(d, sep, a)] == fs[k];
    }
  }

  lemma DropIndex<T>(s: seq<T>, k: nat)
    requires 0 < k < |s|
    ensures s[1..][k - 1] == s[k]
  {
  }

  /** Splitting a join gives the joined fields back. */
  lemma JoinFields(fs: seq<string>, sep: char, k: nat)
    requires |fs| > 0 && fs[|fs| - 1] != [] && k < |fs|
    requires forall i :: 0 <= i < |fs| ==> NoSep(fs[i], sep)
    ensures NumFields(Join(fs, sep), sep) == |fs| && Field(Join(fs, sep), sep, k) == fs[k]
  {
    var d := Join(fs, sep);
    assert d[0..] == d;
    JoinFieldAt(d, 0, fs, sep, k);
  }

  /** The last field keeps a trailing separator: `getValue("a;", ';', 0)` is `"a;"`. */
  lemma TrailingSeparatorKept()
    ensures Field("a;", ';', 0) == "a;" && Field("a;", ';', 1) == ""
  {
    assert FieldEnd("a;", ';', 0) == 2;
  }

  // ---------------------------------------------------------------------
  // preparePayload

  const PAYLOAD_HEAD: string := "{\"weight\":"
  const PAYLOAD_TAIL: string := ",\"timestamp\":{\".sv\": \"timestamp\"}}"

  /** `preparePayload`: the Firebase body holding `data` as the weight and a server timestamp. */
  function PreparePayload(data: string): (p: string)
    ensures |p| == |data| + 44
    ensures p[..10] == PAYLOAD_HEAD && p[10..10 + |data|] == data && p[10 + |data|..] == PAYLOAD_TAIL
  {
    var payload := "{" + "\"weight\":" + data + "," + "\"timestamp\":{\".sv\": \"timestamp\"}}";
    assert payload == PAYLOAD_HEAD + data + PAYLOAD_TAIL;
    payload
  }

  /** The weight text of a payload. */
  function PayloadData(p: string): string
    requires |p| >= 44
  {
    p[10..|p| - 34]
  }

  /** The weight text is recovered from the payload, so different data give different payloads. */
  lemma PayloadRoundTrip(data: string, other: string)
    ensures PayloadData(PreparePayload(data)) == data
    ensures PreparePayload(data) == PreparePayload(other) ==> data == other
  {
    var p, q := PreparePayload(data), PreparePayload(other);
    assert PayloadData(p) == p[10..10 + |data|];
    assert PayloadData(q) == q[10..10 + |other|];
  }

  // ---------------------------------------------------------------------
  // The send gate of sendDataToThingSpeak

  /** `(millis() / delayTime) % 2` is 1: the `int` delay is converted to
      `unsigned long` for the division, so a negative delay divides by its
      bit pattern. */
  predicate OddPhase(now: nat, delayTime: int32)
    requires delayTime != 0
  {
    (now / ToUnsigned(delayTime)) % 2 == 1
  }

  /** One call of the gate: the new `sendData` and the data sent, if any. */
  function Gate(sendData: bool, odd: bool, data: string): (r: (bool, Option<string>))
    // A send happens exactly in an odd phase with the latch set, and sends `data`.
    ensures r.1.Some? <==> odd && sendData
    ensures r.1.Some? ==> r.1.value == data
    // An odd phase leaves the latch cleared, an even phase sets it.
    ensures r.0 == !odd
  {
    if odd then
      if sendData then (false, Some(data)) else (sendData, None)
    else (true, None)
  }

  /** The latch after a series of calls at the given times. */
  function Latch(sendData: bool, delayTime: int32, times: seq<nat>): bool
    requires delayTime != 0
  {
    if times == [] then sendData
    else Gate(Latch(sendData, delayTime, times[..|times| - 1]), OddPhase(times[|times| - 1], delayTime), "").0
  }

  /** For each call at the given times, whether it sent. */
  function Sends(sendData: bool, delayTime: int32, times: seq<nat>): (r: seq<bool>)
    requires delayTime != 0
    ensures |r| == |times|
  {
    if times == [] then []
    else
      var n := |times| - 1;
      Sends(sendData, delayTime, times[..n]) + [Gate(Latch(sendData, delayTime, times[..n]), OddPhase(times[n], delayTime), "").1.Some?]
  }

  /** A call sends exactly when it is in an odd phase and the call before it
      was in an even phase (or, for the first call, the latch was set): one
      send at the start of each run of odd-phase calls and none elsewhere. */
  lemma {:induction false} SendAtOddRunStart(sendData: bool, delayTime: int32, times: seq<nat>, i: nat)
    requires delayTime != 0 && i < |times|
    ensures Sends(sendData, delayTime, times)[i]
            <==> OddPhase(times[i], delayTime) && (if i == 0 then sendData else !OddPhase(times[i - 1], delayTime))
    decreases |times|
  {
    var n := |times| - 1;
    assert times[..n][..n] == times[..n];
    if i < n {
      SendAtOddRunStart(sendData, delayTime, times[..n], i);
      assert times[..n][i] == times[i];
      if i > 0 {
        assert times[..n][i - 1] == times[i - 1];
      }
    } else if n > 0 {
      assert times[..n][..n - 1] == times[..n - 1];
    }
  }

  /** At most one send in a run of calls that all fall in odd phases. */
  lemma {:induction false} OneSendPerOddRun(sendData: bool, delayTime: int32, times: seq<nat>, i: nat, j: nat)
    requires delayTime != 0 && i < j < |times|
    requires forall k :: i <= k <= j ==> OddPhase(times[k], delayTime)
    ensures !Sends(sendData, delayTime, times)[j]
  {
    SendAtOddRunStart(sendData, delayTime, times, j);
    assert OddPhase(times[j - 1], delayTime);
  }

  /** The globals `sendData` and `delayTime` of `src/networking.cpp`. */
  class ThingSpeakLink {
    var sendData: bool
    var delayTime: int32

    /** The static initial values: the latch set, a delay of 20000 ms. */
    constructor ()
      ensures sendData && delayTime == 20000
    {
      sendData := true;
      delayTime := 10000 * 2;
    }

    /** `updateRate`: a new delay; the latch is untouched. */
    method UpdateRate(rate: int32)
      modifies this
      ensures delayTime == rate && sendData == old(sendData)
    {
      delayTime := rate;
    }

    /** `sendDataToThingSpeak`: `sent` is the data `thingSpeakWriteREST` is
        called with, if it is called. A zero delay would divide by zero. */
    method SendDataToThingSpeak(now: nat, data: string) returns (sent: Option<string>)
      requires delayTime != 0
      modifies this
      ensures delayTime == old(delayTime)
      ensures (sendData, sent) == Gate(old(sendData), OddPhase(now, delayTime), data)
    {
      sent := None;
      if (now / ToUnsigned(delayTime)) % 2 == 1 {
        if sendData {
          sent := Some(data);
          sendData := false;
        }
      } else {
        sendData := true;
      }
    }
  }
}
