/** The RDM630/RDM6300 frame codec of `src/main.cpp`: `extract_tag` and
    `hexstr_to_value` over the 14-byte ASCII frame
    [head 0x02][2 version chars][8 tag chars][2 checksum chars][tail 0x03]. */
module RfidFrame {
  import opened Common
  import opened Hex

  const BUFFER_SIZE: nat := 14
  const DATA_SIZE: nat := 10
  const DATA_VERSION_SIZE: nat := 2
  const DATA_TAG_SIZE: nat := 8
  const CHECKSUM_SIZE: nat := 2
  /** Number of two-character cells folded into the checksum. */
  const CELLS: nat := 5

  /** `hexstr_to_value(str, length)`: `strtol(_, NULL, 16)` on a NUL-terminated
      copy of exactly the `length` characters at `start`; nothing outside that
      window is read. */
  function HexStrToValue(frame: seq<byte>, start: nat, length: nat): (r: int)
    requires start + length <= |frame|
    ensures LONG_MIN <= r <= LONG_MAX
    ensures AllHex(frame[start..start + length]) ==> r == PositiveValue(HexValue(frame[start..start + length]))
    ensures AllHex(frame[start..start + length]) && length <= 7 ==> r == HexValue(frame[start..start + length])
  {
    var w := frame[start..start + length];
    assert AllHex(w) ==> StrToLong16(w) == PositiveValue(HexValue(w)) by {
      if AllHex(w) { StrToLong16OfHex(w); }
    }
    assert AllHex(w) && length <= 7 ==> HexValue(w) <= LONG_MAX by {
      if AllHex(w) && length <= 7 { Pow16Seven(length); }
    }
    StrToLong16(w)
  }

  /** `long tag = hexstr_to_value(msg_data_tag, DATA_TAG_SIZE)`: bytes 3..10. */
  function TagValue(frame: seq<byte>): int
    requires |frame| == BUFFER_SIZE
  {
    HexStrToValue(frame, 1 + DATA_VERSION_SIZE, DATA_TAG_SIZE)
  }

  /** The value `extract_tag` returns: the `long` tag converted to `unsigned`. */
  function ExtractedTag(frame: seq<byte>): (t: nat)
    requires |frame| == BUFFER_SIZE
    ensures t <= UINT_MAX
  {
    ToUnsigned(TagValue(frame))
  }

  /** The k-th two-character cell of the data region (bytes 1..10). */
  function CellValue(frame: seq<byte>, k: nat): int
    requires |frame| == BUFFER_SIZE && k < CELLS
  {
    HexStrToValue(frame, 1 + CHECKSUM_SIZE * k, CHECKSUM_SIZE)
  }

  /** The bit patterns (`long` converted to `unsigned`) of the five cells, in order. */
  function CellPatterns(frame: seq<byte>): (p: seq<nat>)
    requires |frame| == BUFFER_SIZE
    ensures |p| == CELLS
  {
    seq(CELLS, k requires 0 <= k < CELLS => ToUnsigned(CellValue(frame, k)))
  }

  /** `checksum ^= val` over a sequence of values, starting from 0. */
  function XorFold(vals: seq<nat>): nat {
    if vals == [] then 0 else Xor(XorFold(vals[..|vals| - 1]), vals[|vals| - 1])
  }

  /** The bit pattern of the `long checksum` after folding the first n cells. */
  function ChecksumFold(frame: seq<byte>, n: nat): nat
    requires |frame| == BUFFER_SIZE && n <= CELLS
  {
    XorFold(CellPatterns(frame)[..n])
  }

  /** The transmitted checksum, bytes 11..12. */
  function TransmittedChecksum(frame: seq<byte>): int
    requires |frame| == BUFFER_SIZE
  {
    HexStrToValue(frame, 1 + DATA_SIZE, CHECKSUM_SIZE)
  }

  /** `isTagOk`: the fold of all five cells equals the transmitted checksum. */
  predicate ChecksumOk(frame: seq<byte>)
    requires |frame| == BUFFER_SIZE
  {
    ChecksumFold(frame, CELLS) == ToUnsigned(TransmittedChecksum(frame))
  }

  /** `extract_tag`: reads the tag window, folds the five data cells into the
      checksum in positional order and compares with the transmitted one.
      The head byte and the tail byte are never looked at. */
  method ExtractTag(buffer: array<byte>) returns (tag: nat, isTagOk: bool)
    requires buffer.Length == BUFFER_SIZE
    ensures tag == ExtractedTag(buffer[..])
    ensures isTagOk == ChecksumOk(buffer[..])
  {
    var t := HexStrToValue(buffer[..], 1 + DATA_VERSION_SIZE, DATA_TAG_SIZE);
    var checksum: nat := 0;
    var i := 0;
    ghost var cells := 0;
    while i < DATA_SIZE
      invariant 0 <= cells <= CELLS && i == CHECKSUM_SIZE * cells
      invariant checksum == ChecksumFold(buffer[..], cells)
    {
      var val := HexStrToValue(buffer[..], 1 + i, CHECKSUM_SIZE);
      ChecksumFoldStep(buffer[..], cells);
      checksum := Xor(checksum, ToUnsigned(val));
      i := i + CHECKSUM_SIZE;
      cells := cells + 1;
    }
    isTagOk := checksum == ToUnsigned(HexStrToValue(buffer[..], 1 + DATA_SIZE, CHECKSUM_SIZE));
    tag := ToUnsigned(t);
  }

  /** Folding one more cell exclusive-ors its bit pattern into the checksum. */
  lemma ChecksumFoldStep(frame: seq<byte>, n: nat)
    requires |frame| == BUFFER_SIZE && n < CELLS
    ensures ChecksumFold(frame, n + 1) == Xor(ChecksumFold(frame, n), ToUnsigned(CellValue(frame, n)))
  {
    assert CellPatterns(frame)[..n + 1][..n] == CellPatterns(frame)[..n];
  }

  /** The base-16 value of the k-th cell of an all-hex data region. */
  function CellHex(frame: seq<byte>, k: nat): (v: nat)
    requires |frame| == BUFFER_SIZE && k < CELLS && AllHex(frame[1..1 + DATA_SIZE])
    ensures v < 256
  {
    assert Pow16(2) == 256;
    HexValue(frame[1..1 + DATA_SIZE][2 * k..2 * k + 2])
  }

  /** The base-16 values of the five cells of an all-hex data region. */
  function HexCells(frame: seq<byte>): (p: seq<nat>)
    requires |frame| == BUFFER_SIZE && AllHex(frame[1..1 + DATA_SIZE])
    ensures |p| == CELLS
  {
    seq(CELLS, k requires 0 <= k < CELLS => CellHex(frame, k))
  }

  /** On a frame whose data and checksum characters are all hex digits, the
      tag is the base-16 value of bytes 3..10 (saturated at `LONG_MAX`), and
      the checksum holds iff the exclusive or of the five two-digit cells of
      bytes 1..10 equals the value of bytes 11..12. */
  lemma DecodeHexFrame(frame: seq<byte>)
    requires |frame| == BUFFER_SIZE && AllHex(frame[1..13])
    ensures AllHex(frame[3..11]) && AllHex(frame[11..13]) && AllHex(frame[1..11])
    ensures ExtractedTag(frame) == PositiveValue(HexValue(frame[3..11]))
    ensures ChecksumOk(frame) <==> XorFold(HexCells(frame)) == HexValue(frame[11..13])
  {
    SliceOfSlice(frame, 1, 13, 2, 10);
    SliceOfSlice(frame, 1, 13, 10, 12);
    SliceOfSlice(frame, 1, 13, 0, 10);
    assert ExtractedTag(frame) == PositiveValue(HexValue(frame[3..11]));
    assert Pow16(2) == 256;
    HexCellsAgree(frame);
  }

  /** On an all-hex data region, the `long` cell values are the plain base-16 values. */
  lemma HexCellsAgree(frame: seq<byte>)
    requires |frame| == BUFFER_SIZE && AllHex(frame[1..11])
    ensures CellPatterns(frame)[..CELLS] == HexCells(frame)
  {
    forall k | 0 <= k < CELLS ensures CellPatterns(frame)[k] == HexCells(frame)[k] {
      HexCellAgrees(frame, k);
    }
    assert CellPatterns(frame)[..CELLS] == CellPatterns(frame);
  }

  lemma HexCellAgrees(frame: seq<byte>, k: nat)
    requires |frame| == BUFFER_SIZE && AllHex(frame[1..11]) && k < CELLS
    ensures ToUnsigned(CellValue(frame, k)) == CellHex(frame, k)
  {
    SliceOfSlice(frame, 1, 11, 2 * k, 2 * k + 2);
    AllHexSlice(frame[1..11], 2 * k, 2 * k + 2);
    CellValueOfHex(frame, k);
  }

  /** Neither the head byte nor the tail byte influences the decoded tag or
      the checksum verdict. */
  lemma HeadAndTailIgnored(f: seq<byte>, g: seq<byte>)
    requires |f| == BUFFER_SIZE && |g| == BUFFER_SIZE && f[1..13] == g[1..13]
    ensures ExtractedTag(f) == ExtractedTag(g)
    ensures ChecksumOk(f) == ChecksumOk(g)
  {
    WindowsAgree(f, g, 3, 11);
    WindowsAgree(f, g, 11, 13);
    CellsAgree(f, g);
  }

  lemma CellsAgree(f: seq<byte>, g: seq<byte>)
    requires |f| == BUFFER_SIZE && |g| == BUFFER_SIZE && f[1..13] == g[1..13]
    ensures CellPatterns(f) == CellPatterns(g)
  {
    forall k | 0 <= k < CELLS ensures CellValue(f, k) == CellValue(g, k) {
      CellAgrees(f, g, k);
    }
  }

  lemma CellAgrees(f: seq<byte>, g: seq<byte>, k: nat)
    requires |f| == BUFFER_SIZE && |g| == BUFFER_SIZE && f[1..13] == g[1..13] && k < CELLS
    ensures CellValue(f, k) == CellValue(g, k)
  {
    WindowsAgree(f, g, 1 + 2 * k, 3 + 2 * k);
  }

  /** Frames that agree on bytes 1..12 agree on every window inside them. */
  lemma WindowsAgree(f: seq<byte>, g: seq<byte>, a: nat, b: nat)
    requires |f| == BUFFER_SIZE && |g| == BUFFER_SIZE && f[1..13] == g[1..13] && 1 <= a <= b <= 13
    ensures f[a..b] == g[a..b]
  {
    SliceOfSlice(f, 1, 13, a - 1, b - 1);
    SliceOfSlice(g, 1, 13, a - 1, b - 1);
  }

  /** The big-endian number carried by the four tag bytes. */
  function TagNumber(id: seq<byte>): nat
    requires |id| == 4
  {
    ((id[0] as int * 256 + id[1]) * 256 + id[2]) * 256 + id[3]
  }

  function Xor8(a: byte, b: byte): (r: byte)
    ensures r == Xor(a, b)
  {
    assert Pow2(8) == 256;
    XorBound(a, b, 8);
    Xor(a, b)
  }

  /** The checksum byte a reader sends: the exclusive or of the version byte and the four tag bytes. */
  function FrameChecksum(version: byte, id: seq<byte>): byte
    requires |id| == 4
  {
    Xor8(Xor8(Xor8(Xor8(version, id[0]), id[1]), id[2]), id[3])
  }

  /** The frame a reader sends for a version byte and four tag bytes, with
      upper-case hex digits and the exclusive-or checksum of the five bytes. */
  function EncodeFrame(version: byte, id: seq<byte>): (f: seq<byte>)
    requires |id| == 4
    ensures |f| == BUFFER_SIZE && f[0] == 2 && f[13] == 3 && AllHex(f[1..13])
    ensures f[1..3] == HexByte(version)
    ensures f[3..11] == HexByte(id[0]) + HexByte(id[1]) + HexByte(id[2]) + HexByte(id[3])
    ensures forall k :: 0 <= k < 4 ==> f[3 + 2 * k..5 + 2 * k] == HexByte(id[k])
    ensures f[11..13] == HexByte(FrameChecksum(version, id))
  {
    var tag := HexByte(id[0]) + HexByte(id[1]) + HexByte(id[2]) + HexByte(id[3]);
    TagCells(id, tag);
    var f := [2] + HexByte(version) + tag + HexByte(FrameChecksum(version, id)) + [3];
    FrameLayout(HexByte(version), tag, HexByte(FrameChecksum(version, id)), f);
    assert forall k :: 0 <= k < 4 ==> f[3 + 2 * k..5 + 2 * k] == tag[2 * k..2 * k + 2] by {
      forall k | 0 <= k < 4 ensures f[3 + 2 * k..5 + 2 * k] == tag[2 * k..2 * k + 2] {
        SliceOfSlice(f, 3, 11, 2 * k, 2 * k + 2);
      }
    }
    f
  }

  /** Where the parts of a frame assembled from a head byte, the version
      digits, the tag digits, the checksum digits and a tail byte land. */
  lemma FrameLayout(v: seq<byte>, t: seq<byte>, c: seq<byte>, f: seq<byte>)
    requires |v| == 2 && |t| == 8 && |c| == 2 && AllHex(v) && AllHex(t) && AllHex(c)
    requires f == [2] + v + t + c + [3]
    ensures |f| == BUFFER_SIZE && f[0] == 2 && f[13] == 3 && AllHex(f[1..13])
    ensures f[1..3] == v && f[3..11] == t && f[11..13] == c
  {
    assert f[1..13] == v + t + c;
    assert f[1..3] == v;
    assert f[3..11] == t;
    assert f[11..13] == c;
  }

  /** The k-th two characters of four concatenated hex bytes spell the k-th byte. */
  lemma TagCells(id: seq<byte>, tag: seq<byte>)
    requires |id| == 4 && tag == HexByte(id[0]) + HexByte(id[1]) + HexByte(id[2]) + HexByte(id[3])
    ensures |tag| == 8 && AllHex(tag)
    ensures forall k :: 0 <= k < 4 ==> tag[2 * k..2 * k + 2] == HexByte(id[k])
  {
    forall k | 0 <= k < 4 ensures tag[2 * k..2 * k + 2] == HexByte(id[k]) {
      assert tag[2 * k] == HexByte(id[k])[0] && tag[2 * k + 1] == HexByte(id[k])[1];
    }
  }

  /** Decoding an encoded frame: the checksum holds and the tag comes back,
      except that a tag of 2^31 or more saturates at `LONG_MAX` in `strtol`
      before it is converted to `unsigned`. */
  lemma DecodeEncode(version: byte, id: seq<byte>)
    requires |id| == 4
    ensures ChecksumOk(EncodeFrame(version, id))
    ensures ExtractedTag(EncodeFrame(version, id)) == PositiveValue(TagNumber(id))
  {
    var f := EncodeFrame(version, id);
    DecodeHexFrame(f);
    EncodedCells(version, id);
    XorFoldFive(version, id[0], id[1], id[2], id[3]);
    HexByteValue(FrameChecksum(version, id));
    EncodedTagValue(version, id);
  }

  lemma EncodedCells(version: byte, id: seq<byte>)
    requires |id| == 4
    ensures AllHex(EncodeFrame(version, id)[1..11])
    ensures HexCells(EncodeFrame(version, id)) == [version, id[0], id[1], id[2], id[3]]
  {
    var f := EncodeFrame(version, id);
    SliceOfSlice(f, 1, 13, 0, 10);
    var cells: seq<nat> := [version, id[0], id[1], id[2], id[3]];
    SliceOfSlice(f, 1, 11, 0, 2);
    HexByteValue(version);
    forall k | 1 <= k < CELLS ensures HexCells(f)[k] == cells[k] {
      EncodedTagCell(version, id, k - 1);
    }
  }

  /** Cell j + 1 of an encoded frame carries tag byte j. */
  lemma EncodedTagCell(version: byte, id: seq<byte>, j: nat)
    requires |id| == 4 && j < 4
    ensures AllHex(EncodeFrame(version, id)[1..11])
    ensures CellHex(EncodeFrame(version, id), j + 1) == id[j]
  {
    var f := EncodeFrame(version, id);
    SliceOfSlice(f, 1, 13, 0, 10);
    SliceOfSlice(f, 1, 11, 2 * j + 2, 2 * j + 4);
    assert f[3 + 2 * j..5 + 2 * j] == HexByte(id[j]);
    HexByteValue(id[j]);
  }

  lemma XorFoldSnoc(vals: seq<nat>, x: nat)
    ensures XorFold(vals + [x]) == Xor(XorFold(vals), x)
  {
    assert (vals + [x])[..|vals|] == vals;
  }

  lemma XorFoldFive(a: nat, b: nat, c: nat, d: nat, e: nat)
    ensures XorFold([a, b, c, d, e]) == Xor(Xor(Xor(Xor(a, b), c), d), e)
  {
    XorFoldSnoc([], a);
    XorFoldSnoc([a], b);
    XorFoldSnoc([a, b], c);
    XorFoldSnoc([a, b, c], d);
    XorFoldSnoc([a, b, c, d], e);
    assert [a] == [] + [a] && [a, b] == [a] + [b] && [a, b, c] == [a, b] + [c];
    assert [a, b, c, d] == [a, b, c] + [d] && [a, b, c, d, e] == [a, b, c, d] + [e];
  }

  lemma EncodedTagValue(version: byte, id: seq<byte>)
    requires |id| == 4
    ensures AllHex(EncodeFrame(version, id)[3..11])
    ensures HexValue(EncodeFrame(version, id)[3..11]) == TagNumber(id)
  {
    HexByteValue(id[0]); HexByteValue(id[1]); HexByteValue(id[2]); HexByteValue(id[3]);
    assert Pow16(2) == 256;
    HexValueAppend(HexByte(id[0]), HexByte(id[1]));
    HexValueAppend(HexByte(id[0]) + HexByte(id[1]), HexByte(id[2]));
    HexValueAppend(HexByte(id[0]) + HexByte(id[1]) + HexByte(id[2]), HexByte(id[3]));
  }

  lemma {:induction false} XorComm(a: nat, b: nat)
    ensures Xor(a, b) == Xor(b, a)
    decreases a + b
  {
    if a != 0 && b != 0 {
      XorComm(a / 2, b / 2);
    }
  }

  /** Two hex cells whose digits differ in value have different values. */
  lemma CellDigitsDetermineValue(c: seq<byte>, d: seq<byte>)
    requires |c| == 2 && |d| == 2 && AllHex(c) && AllHex(d)
    requires DigitValue(c[0]) != DigitValue(d[0]) || DigitValue(c[1]) != DigitValue(d[1])
    ensures HexValue(c) != HexValue(d)
  {
    assert c[..1] == [c[0]] && d[..1] == [d[0]];
    assert c[..1][..0] == [] && d[..1][..0] == [];
  }

  /** Replacing one hex digit of the data region (bytes 1..10) by a digit of
      another value turns a frame whose checksum holds into one whose
      checksum fails. */
  lemma DigitCorruptionDetected(f: seq<byte>, g: seq<byte>, p: nat)
    requires |f| == BUFFER_SIZE && |g| == BUFFER_SIZE && AllHex(f[1..13]) && AllHex(g[1..13])
    requires 1 <= p <= DATA_SIZE
    requires forall i :: 0 <= i < BUFFER_SIZE && i != p ==> f[i] == g[i]
    requires IsHexDigit(f[p]) && IsHexDigit(g[p]) && DigitValue(f[p]) != DigitValue(g[p])
    requires ChecksumOk(f)
    ensures !ChecksumOk(g)
  {
    AgreeAwayFrom(f, g, p, 11, 13);
    assert TransmittedChecksum(f) == TransmittedChecksum(g);
    var c := (p - 1) / 2;
    OtherCellsUnchanged(f, g, p);
    CorruptedCellChanged(f, g, p);
    var u, v := CellPatterns(f), CellPatterns(g);
    FoldsDiverge(u, v, c);
    assert u[..CELLS] == u && v[..CELLS] == v;
  }

  lemma OtherCellsUnchanged(f: seq<byte>, g: seq<byte>, p: nat)
    requires |f| == BUFFER_SIZE && |g| == BUFFER_SIZE && 1 <= p <= DATA_SIZE
    requires forall i :: 0 <= i < BUFFER_SIZE && i != p ==> f[i] == g[i]
    ensures forall k :: 0 <= k < CELLS && k != (p - 1) / 2 ==> CellPatterns(f)[k] == CellPatterns(g)[k]
  {
    var c := (p - 1) / 2;
    assert 2 * c <= p - 1 <= 2 * c + 1;
    forall k | 0 <= k < CELLS && k != c ensures CellValue(f, k) == CellValue(g, k) {
      AgreeAwayFrom(f, g, p, 1 + 2 * k, 3 + 2 * k);
    }
  }

  /** Frames that differ at most at position p agree on every window that leaves p out. */
  lemma AgreeAwayFrom(f: seq<byte>, g: seq<byte>, p: nat, a: nat, b: nat)
    requires |f| == BUFFER_SIZE && |g| == BUFFER_SIZE && a <= b <= BUFFER_SIZE && (p < a || b <= p)
    requires forall i :: 0 <= i < BUFFER_SIZE && i != p ==> f[i] == g[i]
    ensures f[a..b] == g[a..b]
  {
    forall i | 0 <= i < b - a ensures f[a..b][i] == g[a..b][i] {
      assert f[a..b][i] == f[a + i] && g[a..b][i] == g[a + i];
    }
  }

  lemma CorruptedCellChanged(f: seq<byte>, g: seq<byte>, p: nat)
    requires |f| == BUFFER_SIZE && |g| == BUFFER_SIZE && AllHex(f[1..13]) && AllHex(g[1..13])
    requires 1 <= p <= DATA_SIZE
    requires forall i :: 0 <= i < BUFFER_SIZE && i != p ==> f[i] == g[i]
    requires IsHexDigit(f[p]) && IsHexDigit(g[p]) && DigitValue(f[p]) != DigitValue(g[p])
    ensures CellPatterns(f)[(p - 1) / 2] != CellPatterns(g)[(p - 1) / 2]
  {
    var c := (p - 1) / 2;
    SliceOfSlice(f, 1, 13, 2 * c, 2 * c + 2);
    SliceOfSlice(g, 1, 13, 2 * c, 2 * c + 2);
    var fc, gc := f[1 + 2 * c..3 + 2 * c], g[1 + 2 * c..3 + 2 * c];
    assert fc[0] == f[1 + 2 * c] && fc[1] == f[2 + 2 * c];
    assert gc[0] == g[1 + 2 * c] && gc[1] == g[2 + 2 * c];
    CellDigitsDetermineValue(fc, gc);
    CellValueOfHex(f, c);
    CellValueOfHex(g, c);
    ToUnsignedInjective(CellValue(f, c), CellValue(g, c));
  }

  /** A cell of two hex digits has the value those digits spell. */
  lemma CellValueOfHex(f: seq<byte>, c: nat)
    requires |f| == BUFFER_SIZE && c < CELLS && AllHex(f[1 + 2 * c..3 + 2 * c])
    ensures CellValue(f, c) == HexValue(f[1 + 2 * c..3 + 2 * c])
  {
    assert HexStrToValue(f, 1 + 2 * c, 2) == HexValue(f[1 + 2 * c..3 + 2 * c]);
  }

  /** Changing exactly one value of a sequence changes its exclusive-or fold. */
  lemma {:induction false} FoldsDiverge(u: seq<nat>, v: seq<nat>, c: nat)
    requires |u| == |v| && c < |u|
    requires forall k :: 0 <= k < |u| && k != c ==> u[k] == v[k]
    requires u[c] != v[c]
    ensures XorFold(u) != XorFold(v)
    decreases |u|
  {
    var n := |u| - 1;
    if c == n {
      assert u[..n] == v[..n];
      if XorFold(u) == XorFold(v) {
        XorCancel(XorFold(u[..n]), u[n], v[n]);
      }
    } else {
      FoldsDiverge(u[..n], v[..n], c);
      if XorFold(u) == XorFold(v) {
        XorComm(XorFold(u[..n]), u[n]);
        XorComm(XorFold(v[..n]), u[n]);
        XorCancel(u[n], XorFold(u[..n]), XorFold(v[..n]));
      }
    }
  }
}
