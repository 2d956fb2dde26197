/** The binary PPM ("P6") debug dump of the Netpbm ppm(5) format: the writer
    used for frame dumps and the reader plus pixel accessor the tests use to
    check them. Files are byte sequences. */
module Ppm {
  import opened Wrappers
  import opened MachineInts
  import Arith

  /** The only maximum sample value written and accepted. */
  const PPM_MAX_VALUE: nat := 255

  const NOT_P6 := "PPM is not P6 format"
  const BAD_MAX_VALUE := "Unexpected PPM max value"
  const TRUNCATED := "PPM data truncated"
  const BAD_DIMENSIONS := "Invalid frame dimensions for PPM dump"
  const BUFFER_TOO_SMALL := "Frame buffer is smaller than expected"

  /** A readback frame handed to the writer: `stride` bytes between rows. */
  datatype PPMDebugFrame = PPMDebugFrame(width: u32, height: u32, stride: u32, rgb: seq<byte>)

  /** A decoded image: the dimensions from the header and the data bytes
      read after it, `width * height` packed RGB triples when `WellFormed`. */
  datatype PPMImage = PPMImage(width: u32, height: u32, data: seq<byte>)

  /** Bytes of RGB data for a `width` x `height` image. */
  function PayloadSize(width: nat, height: nat): nat {
    width * height * 3
  }

  predicate WellFormed(img: PPMImage) {
    |img.data| == PayloadSize(img.width, img.height)
  }

  /** How the reader computes its byte count: as written, as a `size_t`
      product that wraps modulo 2^64, or exactly. */
  datatype SizeArith = WrapsSizeT | ExactSize

  /** `dataSize` of `readPPM`: the number of data bytes it allocates and
      reads. Only a count of 2^64 or more differs from the exact one. */
  function DataSize(arith: SizeArith, width: u32, height: u32): (n: nat)
    ensures n <= PayloadSize(width, height)
    ensures n == PayloadSize(width, height) <==> arith == ExactSize || PayloadSize(width, height) < U64_LIMIT
    ensures arith == WrapsSizeT ==> n < U64_LIMIT
  {
    match arith
    case WrapsSizeT => WrapU64(PayloadSize(width, height))
    case ExactSize => PayloadSize(width, height)
  }

  // ---------------------------------------------------------------------
  // Bytes of text

  /** `std::isspace` on a byte in the "C" locale. */
  predicate IsSpaceByte(b: byte) {
    b == 32 || 9 <= b <= 13
  }

  predicate IsDigitByte(b: byte) {
    48 <= b <= 57
  }

  predicate AllDigitBytes(bs: seq<byte>) {
    forall i :: 0 <= i < |bs| ==> IsDigitByte(bs[i])
  }

  /** The number a run of ASCII digits denotes, most significant first. */
  function DigitsValue(bs: seq<byte>): nat
    requires AllDigitBytes(bs)
  {
    if |bs| == 0 then 0
    else
      assert IsDigitByte(bs[|bs| - 1]);
      DigitsValue(bs[..|bs| - 1]) * 10 + (bs[|bs| - 1] - 48)
  }

  /** How `operator<<` prints an unsigned integer: ASCII decimal digits, no
      sign, no leading zeros. */
  function DecimalBytes(n: nat): (b: seq<byte>)
    ensures 0 < |b| && AllDigitBytes(b)
    ensures DigitsValue(b) == n
    ensures 1 < |b| ==> b[0] != 48
    decreases n
  {
    if n < 10 then [48 + n]
    else
      var prefix := DecimalBytes(n / 10);
      var b := prefix + [48 + n % 10];
      assert b[..|b| - 1] == prefix;
      b
  }

  // ---------------------------------------------------------------------
  // Writer

  /** The magic word of a binary PPM file, "P6". */
  const MAGIC: seq<byte> := [80, 54]

  /** The header as the writer streams it: "P6\n", the width, a space, the
      height and "\n255\n". */
  function Header(width: u32, height: u32): seq<byte> {
    MAGIC + [10] + DecimalBytes(width) + [32] + DecimalBytes(height) + [10, 50, 53, 53, 10]
  }

  lemma MulMonotonic(a: nat, b: nat, m: nat)
    requires a <= b
    ensures a * m <= b * m
  {
  }

  /** The first `rowBytes` bytes of each of `count` rows spaced `stride` apart. */
  function Rows(rgb: seq<byte>, stride: nat, rowBytes: nat, count: nat): (r: seq<byte>)
    requires count == 0 || (count - 1) * stride + rowBytes <= |rgb|
    ensures |r| == count * rowBytes
  {
    if count == 0 then []
    else
      var o := (count - 1) * stride;
      MulMonotonic(if count > 1 then count - 2 else 0, count - 1, stride);
      Rows(rgb, stride, rowBytes, count - 1) + rgb[o..o + rowBytes]
  }

  /** Byte `k` of output row `y` is byte `k` of the frame's row `y`. */
  lemma {:induction false} RowsAt(rgb: seq<byte>, stride: nat, rowBytes: nat, count: nat, y: nat, k: nat)
    requires 0 < count && (count - 1) * stride + rowBytes <= |rgb|
    requires y < count && k < rowBytes
    ensures y * stride + k < |rgb|
    ensures y * rowBytes + k < count * rowBytes
    ensures Rows(rgb, stride, rowBytes, count)[y * rowBytes + k] == rgb[y * stride + k]
  {
    RowBounds(stride, rowBytes, count, y, k);
    if y < count - 1 {
      RowsPrefix(rgb, stride, rowBytes, count, y * rowBytes + k);
      RowsAt(rgb, stride, rowBytes, count - 1, y, k);
    } else {
      RowsLast(rgb, stride, rowBytes, count, k);
    }
  }

  /** The earlier rows of `Rows` are the rows of one row fewer. */
  lemma RowsPrefix(rgb: seq<byte>, stride: nat, rowBytes: nat, count: nat, j: nat)
    requires 1 < count && (count - 1) * stride + rowBytes <= |rgb|
    requires j < (count - 1) * rowBytes
    ensures (count - 2) * stride + rowBytes <= |rgb|
    ensures j < count * rowBytes
    ensures Rows(rgb, stride, rowBytes, count)[j] == Rows(rgb, stride, rowBytes, count - 1)[j]
  {
    MulMonotonic(count - 2, count - 1, stride);
    MulMonotonic(count - 1, count, rowBytes);
  }

  /** The last row of `Rows` is the frame's row `count - 1`. */
  lemma RowsLast(rgb: seq<byte>, stride: nat, rowBytes: nat, count: nat, k: nat)
    requires 0 < count && (count - 1) * stride + rowBytes <= |rgb| && k < rowBytes
    ensures (count - 1) * rowBytes + k < count * rowBytes
    ensures Rows(rgb, stride, rowBytes, count)[(count - 1) * rowBytes + k] == rgb[(count - 1) * stride + k]
  {
    var c := count - 1;
    var o, n := c * stride, c * rowBytes;
    MulSucc(c, rowBytes);
    MulMonotonic(if count > 1 then count - 2 else 0, c, stride);
    var prev := Rows(rgb, stride, rowBytes, c);
    var last := rgb[o..o + rowBytes];
    assert Rows(rgb, stride, rowBytes, count) == prev + last;
    assert |prev| == n;
    assert (prev + last)[n + k] == last[k];
  }

  lemma MulSucc(c: nat, m: nat)
    ensures (c + 1) * m == c * m + m
  {
  }

  lemma RowBounds(stride: nat, rowBytes: nat, count: nat, y: nat, k: nat)
    requires 0 < count && y < count && k < rowBytes
    ensures y * stride <= (count - 1) * stride
    ensures y * rowBytes + k < count * rowBytes
    ensures y < count - 1 ==> (count - 2) * stride <= (count - 1) * stride
    ensures y < count - 1 ==> y * rowBytes + k < (count - 1) * rowBytes
    ensures y == count - 1 ==> y * rowBytes == (count - 1) * rowBytes
  {
    MulMonotonic(y, count - 1, stride);
    MulMonotonic(y + 1, count, rowBytes);
    if y < count - 1 {
      MulMonotonic(count - 2, count - 1, stride);
      MulMonotonic(y + 1, count - 1, rowBytes);
    }
  }

  /** The size check of `writePPM` as written: non-zero dimensions and at
      least `stride * height` bytes. */
  predicate AcceptedAsWritten(f: PPMDebugFrame) {
    f.width != 0 && f.height != 0 && f.stride != 0 && f.stride * f.height <= |f.rgb|
  }

  /** Every row the writer copies (width * 3 bytes from offset y * stride)
      lies inside the buffer. */
  predicate RowsInBuffer(f: PPMDebugFrame) {
    f.height == 0 || (f.height - 1) * f.stride + f.width * 3 <= |f.rgb|
  }

  /** The check as written lets through a frame whose stride is shorter than
      a row: 2x1 pixels, stride 1, one byte of data, of which the writer
      would copy six. */
  lemma AsWrittenCheckAdmitsOverRead()
    ensures var f := PPMDebugFrame(2, 1, 1, [0]);
            AcceptedAsWritten(f) && !RowsInBuffer(f)
            && WritePPMAsWritten(f, true, "f.ppm") == ReadsPastBuffer
            && WritePPM(f, true, "f.ppm") == Err(BAD_DIMENSIONS)
  {
  }

  /** What `writePPM` as written does with a frame: writes the file,
      throws, or, when its check has let through a frame whose rows run past
      the buffer, reads out of bounds (undefined behaviour in C++). */
  datatype Dump = Dumped(bytes: seq<byte>) | Refused(error: string) | ReadsPastBuffer

  /** `writePPM` as written; `canOpen` is whether the output file could be
      opened. */
  function WritePPMAsWritten(f: PPMDebugFrame, canOpen: bool, path: string): (d: Dump)
    ensures d.Refused? <==> !AcceptedAsWritten(f) || !canOpen
    ensures d.ReadsPastBuffer? <==> AcceptedAsWritten(f) && canOpen && !RowsInBuffer(f)
    ensures (f.width == 0 || f.height == 0 || f.stride == 0) ==> d == Refused(BAD_DIMENSIONS)
    ensures d.Dumped? ==> |d.bytes| == |Header(f.width, f.height)| + PayloadSize(f.width, f.height)
    ensures d.Dumped? ==> RowsInBuffer(f) && d.bytes[..|Header(f.width, f.height)|] == Header(f.width, f.height)
                          && d.bytes[|Header(f.width, f.height)|..] == PPMPayload(f)
  {
    if f.width == 0 || f.height == 0 || f.stride == 0 then
      Refused(BAD_DIMENSIONS)
    else if |f.rgb| < f.stride * f.height then
      Refused(BUFFER_TOO_SMALL)
    else if !canOpen then
      Refused("Failed to open PPM output: " + path)
    else if !RowsInBuffer(f) then
      ReadsPastBuffer
    else
      var h := Header(f.width, f.height);
      var out := h + PPMPayload(f);
      assert out[..|h|] == h && out[|h|..] == PPMPayload(f);
      Dumped(out)
  }

  /** Rows closer together than `width * 3` bytes but inside the buffer are
      written as written, overlapping, and refused by the corrected check:
      a 2x2 frame with stride 3 and 12 bytes. */
  lemma AsWrittenDumpsOverlappingRows()
    ensures var f := PPMDebugFrame(2, 2, 3, seq(12, i => 0));
            WritePPMAsWritten(f, true, "f.ppm").Dumped? && WritePPM(f, true, "f.ppm") == Err(BAD_DIMENSIONS)
  {
  }

  /** The corrected check: the written one plus rows at least `width * 3`
      bytes apart, as the layout comment of `writePPM` describes. */
  predicate Accepted(f: PPMDebugFrame) {
    AcceptedAsWritten(f) && f.width * 3 <= f.stride
  }

  lemma AcceptedRowsInBuffer(f: PPMDebugFrame)
    requires Accepted(f)
    ensures RowsInBuffer(f)
  {
    assert (f.height - 1) * f.stride + f.width * 3 <= (f.height - 1) * f.stride + f.stride;
  }

  /** `writePPM` with the corrected check; `canOpen` is whether the output
      file could be opened. */
  function WritePPM(f: PPMDebugFrame, canOpen: bool, path: string): (r: Result<seq<byte>>)
    ensures r.Ok? <==> Accepted(f) && canOpen
    ensures !AcceptedAsWritten(f) ==> r.Err?
    ensures r.Ok? ==> |r.value| == |Header(f.width, f.height)| + PayloadSize(f.width, f.height)
    ensures r.Ok? ==> r.value[..|Header(f.width, f.height)|] == Header(f.width, f.height)
    ensures r.Ok? ==> RowsInBuffer(f) && r.value[|Header(f.width, f.height)|..] == PPMPayload(f)
  {
    if f.width == 0 || f.height == 0 || f.stride == 0 || f.stride < f.width * 3 then
      Err(BAD_DIMENSIONS)
    else if |f.rgb| < f.stride * f.height then
      Err(BUFFER_TOO_SMALL)
    else if !canOpen then
      Err("Failed to open PPM output: " + path)
    else
      AcceptedRowsInBuffer(f);
      Ok(Header(f.width, f.height) + PPMPayload(f))
  }

  /** The corrected writer writes what the one as written writes, on every
      frame it accepts; a frame refused as written is refused by both. */
  lemma WritersAgree(f: PPMDebugFrame, canOpen: bool, path: string)
    ensures WritePPM(f, canOpen, path).Ok? ==>
              WritePPMAsWritten(f, canOpen, path) == Dumped(WritePPM(f, canOpen, path).value)
    ensures WritePPMAsWritten(f, canOpen, path).Refused? ==> WritePPM(f, canOpen, path).Err?
    ensures WritePPMAsWritten(f, canOpen, path).ReadsPastBuffer? ==> WritePPM(f, canOpen, path) == Err(BAD_DIMENSIONS)
  {
    if WritePPM(f, canOpen, path).Ok? {
      AcceptedRowsInBuffer(f);
    }
  }

  /** What follows the header: the first `width * 3` bytes of each row. */
  function PPMPayload(f: PPMDebugFrame): (p: seq<byte>)
    requires RowsInBuffer(f)
    ensures |p| == PayloadSize(f.width, f.height)
  {
    var rows := Rows(f.rgb, f.stride, f.width * 3, f.height);
    assert f.height * (f.width * 3) == f.width * f.height * 3;
    rows
  }

  // ---------------------------------------------------------------------
  // Reader

  /** The byte classes the stream extractors scan over. */
  datatype ByteClass = Space | Digit | NonSpace

  predicate InClass(b: byte, c: ByteClass) {
    match c
    case Space => IsSpaceByte(b)
    case Digit => IsDigitByte(b)
    case NonSpace => !IsSpaceByte(b)
  }

  /** The end of the run of bytes of class `c` that starts at `i`. */
  function RunEnd(s: seq<byte>, i: nat, c: ByteClass): (j: nat)
    requires i <= |s|
    ensures i <= j <= |s|
    ensures j < |s| ==> !InClass(s[j], c)
    decreases |s| - i
  {
    if i == |s| || !InClass(s[i], c) then i else RunEnd(s, i + 1, c)
  }

  /** Every byte the run covers is of class `c`. */
  lemma {:induction false} RunEndCovers(s: seq<byte>, i: nat, c: ByteClass)
    requires i <= |s|
    ensures forall k :: i <= k < RunEnd(s, i, c) ==> InClass(s[k], c)
    decreases |s| - i
  {
    if i < |s| && InClass(s[i], c) {
      RunEndCovers(s, i + 1, c);
    }
  }

  /** A run of class `c` bytes from `i` to `j`, stopped by the end or by a
      byte of another class, is what `RunEnd` finds. */
  lemma {:induction false} RunEndAt(s: seq<byte>, i: nat, j: nat, c: ByteClass)
    requires i <= j <= |s|
    requires forall k :: i <= k < j ==> InClass(s[k], c)
    requires j < |s| ==> !InClass(s[j], c)
    ensures RunEnd(s, i, c) == j
    decreases j - i
  {
    if i < j {
      RunEndAt(s, i + 1, j, c);
    }
  }

  /** The first non-space position at or after `i` (`operator>>` skipping). */
  function SkipSpace(s: seq<byte>, i: nat): (j: nat)
    requires i <= |s|
    ensures i <= j <= |s|
    ensures j < |s| ==> !IsSpaceByte(s[j])
  {
    RunEnd(s, i, Space)
  }

  /** The position just past the next '\n' at or after `i`, or the end
      (`std::getline`). */
  function LineEnd(s: seq<byte>, i: nat): (j: nat)
    requires i <= |s|
    ensures i < j <= |s| || j == i == |s|
    ensures i < j < |s| ==> s[j - 1] == 10
    decreases |s| - i
  {
    if i == |s| then i else if s[i] == 10 then i + 1 else LineEnd(s, i + 1)
  }

  /** `skipWhitespaceAndComments`: drops spaces and '#' comments up to and
      including their newline. */
  function SkipWhitespaceAndComments(s: seq<byte>, i: nat): (j: nat)
    requires i <= |s|
    ensures i <= j <= |s|
    ensures j < |s| ==> !IsSpaceByte(s[j]) && s[j] != 35
    decreases |s| - i
  {
    if i == |s| then i
    else if s[i] == 35 then
      var e := LineEnd(s, i);
      SkipWhitespaceAndComments(s, e)
    else if IsSpaceByte(s[i]) then SkipWhitespaceAndComments(s, i + 1)
    else i
  }

  datatype Token = Token(text: seq<byte>, end: nat)

  /** `in >> std::string`: skip spaces, then take bytes up to the next space;
      fails (leaving the string empty) at the end of input. */
  function ReadWord(s: seq<byte>, i: nat): (r: Option<Token>)
    requires i <= |s|
    ensures r.Some? ==> 0 < |r.value.text| && r.value.end <= |s|
    ensures r.None? <==> SkipSpace(s, i) == |s|
  {
    var j := SkipSpace(s, i);
    if j == |s| then None
    else
      var e := RunEnd(s, j, NonSpace);
      Some(Token(s[j..e], e))
  }

  datatype Number = Number(value: u32, end: nat)

  /** `in >> uint32_t` as libstdc++'s `num_get` does it: skip spaces, an
      optional '+' or '-', then a non-empty run of decimal digits whose value
      must fit in 32 bits; a '-' negates the value modulo 2^32. Anything else
      fails the stream. */
  function ReadUnsigned(s: seq<byte>, i: nat): (r: Option<Number>)
    requires i <= |s|
    ensures r.Some? ==> i < r.value.end <= |s|
  {
    var j := SkipSpace(s, i);
    var negative := j < |s| && s[j] == 45;
    var d := if j < |s| && (s[j] == 43 || s[j] == 45) then j + 1 else j;
    var e := RunEnd(s, d, Digit);
    if e == d then None
    else
      RunEndCovers(s, d, Digit);
      var v := DigitsValue(s[d..e]);
      if v > U32_MAX then None
      else if negative then Some(Number((U32_LIMIT - v) % U32_LIMIT, e))
      else Some(Number(v, e))
  }

  /** Where the header of a P6 file ends and what it declares. */
  datatype HeaderInfo = HeaderInfo(width: u32, height: u32, maxValue: u32, maxEnd: nat)

  /** The extractions of `readPPM` from the width to the maximum value. Once
      the stream has failed, later extractions leave their variables at 0,
      so any failure here ends in a maximum value of 0. */
  function ReadDimensions(s: seq<byte>, magicEnd: nat): (r: Option<HeaderInfo>)
    requires magicEnd <= |s|
    ensures r.Some? ==> magicEnd < r.value.maxEnd <= |s|
  {
    var w := ReadUnsigned(s, SkipWhitespaceAndComments(s, magicEnd));
    if w.None? then None
    else
      var h := ReadUnsigned(s, w.value.end);
      if h.None? then None
      else
        var m := ReadUnsigned(s, SkipWhitespaceAndComments(s, h.value.end));
        if m.None? then None
        else Some(HeaderInfo(w.value.value, h.value.value, m.value.value, m.value.end))
  }

  /** `readPPM` on the bytes of a file: the magic word, the header numbers,
      one separator byte, then `dataSize` data bytes, where `arith` says
      how `dataSize` is computed. */
  function ReadPPM(s: seq<byte>, arith: SizeArith): (r: Result<PPMImage>)
    ensures r.Ok? ==> |r.value.data| == DataSize(arith, r.value.width, r.value.height)
    ensures r.Ok? ==> (WellFormed(r.value) <==>
                         arith == ExactSize || PayloadSize(r.value.width, r.value.height) < U64_LIMIT)
    ensures (ReadWord(s, 0).None? || ReadWord(s, 0).value.text != MAGIC) <==> r == Err(NOT_P6)
    ensures ReadWord(s, 0).Some? && ReadWord(s, 0).value.text == MAGIC ==>
              var hd := ReadDimensions(s, ReadWord(s, 0).value.end);
              (r == Err(BAD_MAX_VALUE) <==> hd.None? || hd.value.maxValue != PPM_MAX_VALUE)
              && (hd.Some? && hd.value.maxValue == PPM_MAX_VALUE ==> r == ReadPayload(s, hd.value, arith))
  {
    match ParseHeader(s)
    case Err(e) => Err(e)
    case Ok(hd) => ReadPayload(s, hd, arith)
  }

  /** The header part of `readPPM`: the magic word, then the width, height
      and maximum value, which must be 255. */
  function ParseHeader(s: seq<byte>): (r: Result<HeaderInfo>)
    ensures r.Ok? ==> r.value.maxValue == PPM_MAX_VALUE && r.value.maxEnd <= |s|
    ensures (ReadWord(s, 0).None? || ReadWord(s, 0).value.text != MAGIC) <==> r == Err(NOT_P6)
    ensures ReadWord(s, 0).Some? && ReadWord(s, 0).value.text == MAGIC ==>
              var hd := ReadDimensions(s, ReadWord(s, 0).value.end);
              (r == Err(BAD_MAX_VALUE) <==> hd.None? || hd.value.maxValue != PPM_MAX_VALUE)
              && (hd.Some? && hd.value.maxValue == PPM_MAX_VALUE ==> r == Ok(hd.value))
  {
    match ReadWord(s, 0)
    case None => Err(NOT_P6)
    case Some(magic) =>
      if magic.text != MAGIC then Err(NOT_P6)
      else
        match ReadDimensions(s, magic.end)
        case None => Err(BAD_MAX_VALUE)
        case Some(hd) =>
          if hd.maxValue != PPM_MAX_VALUE then Err(BAD_MAX_VALUE)
          else Ok(hd)
  }

  /** Where the data starts: one byte (`in.get()`) after the maximum
      value, or at the end when there is no byte left. */
  function DataStart(s: seq<byte>, hd: HeaderInfo): (start: nat)
    requires hd.maxEnd <= |s|
    ensures hd.maxEnd <= start <= |s|
  {
    if hd.maxEnd < |s| then hd.maxEnd + 1 else |s|
  }

  /** The tail of `readPPM` once the header is read: skip the one separator
      byte, then read exactly `dataSize` bytes. */
  function ReadPayload(s: seq<byte>, hd: HeaderInfo, arith: SizeArith): (r: Result<PPMImage>)
    requires hd.maxEnd <= |s|
    ensures r.Ok? ==> |r.value.data| == DataSize(arith, hd.width, hd.height)
    ensures r.Err? <==> |s| - DataStart(s, hd) < DataSize(arith, hd.width, hd.height)
    ensures r.Err? ==> r.error == TRUNCATED
    ensures r.Ok? ==> r.value.width == hd.width && r.value.height == hd.height
                      && r.value.data == s[DataStart(s, hd)..DataStart(s, hd) + DataSize(arith, hd.width, hd.height)]
  {
    var start := DataStart(s, hd);
    var size := DataSize(arith, hd.width, hd.height);
    if |s| - start < size then Err(TRUNCATED)
    else Ok(PPMImage(hd.width, hd.height, s[start..start + size]))
  }

  // ---------------------------------------------------------------------
  // Round trip

  /** A printed unsigned number: a non-empty run of digits whose value fits
      in 32 bits. */
  predicate Numeral(d: seq<byte>) {
    0 < |d| && AllDigitBytes(d) && DigitsValue(d) <= U32_MAX
  }

  /** `s` holds the bytes `d` from position `i` on. */
  predicate FieldAt(s: seq<byte>, i: nat, d: seq<byte>) {
    i + |d| <= |s| && forall k :: 0 <= k < |d| ==> s[i + k] == d[k]
  }

  /** `in >> n` on spaces followed by a numeral and a non-digit reads the
      numeral's value and stops at that non-digit. */
  lemma ReadsNumeral(s: seq<byte>, i0: nat, i: nat, d: seq<byte>)
    requires Numeral(d)
    requires i0 <= i && i + |d| < |s|
    requires forall k :: i0 <= k < i ==> IsSpaceByte(s[k])
    requires FieldAt(s, i, d)
    requires !IsDigitByte(s[i + |d|])
    ensures ReadUnsigned(s, i0) == Some(Number(DigitsValue(d), i + |d|))
  {
    var e := i + |d|;
    assert s[i + 0] == d[0];
    RunEndAt(s, i0, i, Space);
    forall k | i <= k < e
      ensures InClass(s[k], Digit)
    {
      assert s[i + (k - i)] == d[k - i];
    }
    RunEndAt(s, i, e, Digit);
    assert s[i..e] == d by {
      forall k | 0 <= k < |d| ensures s[i..e][k] == d[k] {
        assert s[i + k] == d[k];
      }
    }
  }

  /** `in >> magic` on "P6\n" reads "P6" and stops at the newline. */
  lemma ReadsMagic(s: seq<byte>)
    requires 3 <= |s| && s[0] == 80 && s[1] == 54 && s[2] == 10
    ensures ReadWord(s, 0) == Some(Token(MAGIC, 2))
  {
    RunEndAt(s, 0, 0, Space);
    RunEndAt(s, 0, 2, NonSpace);
    assert s[0..2] == MAGIC;
  }

  /** One newline before a digit is all that `skipWhitespaceAndComments` drops. */
  lemma SkipsNewline(s: seq<byte>, i: nat)
    requires i + 1 < |s| && s[i] == 10 && IsDigitByte(s[i + 1])
    ensures SkipWhitespaceAndComments(s, i) == i + 1
  {
    assert SkipWhitespaceAndComments(s, i + 1) == i + 1;
  }

  /** The header layout for given width and height digits. */
  function HeaderText(dw: seq<byte>, dh: seq<byte>): seq<byte> {
    MAGIC + [10] + dw + [32] + dh + [10, 50, 53, 53, 10]
  }

  lemma HeaderIsText(w: u32, h: u32)
    ensures Header(w, h) == HeaderText(DecimalBytes(w), DecimalBytes(h))
    ensures Numeral(DecimalBytes(w)) && DigitsValue(DecimalBytes(w)) == w
    ensures Numeral(DecimalBytes(h)) && DigitsValue(DecimalBytes(h)) == h
  {
  }

  /** The digits of 255 as the writer prints them. */
  lemma MaxValueDigits()
    ensures Numeral([50, 53, 53]) && DigitsValue([50, 53, 53]) == 255
  {
    assert DecimalBytes(255) == [50, 53, 53];
  }

  /** Where the header of `HeaderText(dw, dh)` ends. */
  function HeaderEnd(dw: seq<byte>, dh: seq<byte>): nat {
    |dw| + |dh| + 9
  }

  /** `s` starts with the bytes of `HeaderText(dw, dh)`, field by field. */
  predicate HeaderLaidOut(s: seq<byte>, dw: seq<byte>, dh: seq<byte>) {
    var e1, e2 := 3 + |dw|, 4 + |dw| + |dh|;
    e2 + 5 <= |s|
    && s[0] == 80 && s[1] == 54 && s[2] == 10
    && FieldAt(s, 3, dw) && s[e1] == 32
    && FieldAt(s, e1 + 1, dh) && s[e2] == 10
    && FieldAt(s, e2 + 1, [50, 53, 53]) && s[e2 + 4] == 10
  }

  /** Where each header field sits in a header followed by any data. */
  lemma HeaderTextFields(dw: seq<byte>, dh: seq<byte>, data: seq<byte>)
    ensures var s := HeaderText(dw, dh) + data;
            |HeaderText(dw, dh)| == HeaderEnd(dw, dh)
            && HeaderLaidOut(s, dw, dh) && s[HeaderEnd(dw, dh)..] == data
  {
    var s, e1, e2 := HeaderText(dw, dh) + data, 3 + |dw|, 4 + |dw| + |dh|;
    assert s == [80, 54, 10] + dw + [32] + dh + [10, 50, 53, 53, 10] + data;
    forall k | 0 <= k < |dw| ensures s[3 + k] == dw[k] { }
    forall k | 0 <= k < |dh| ensures s[e1 + 1 + k] == dh[k] { }
  }

  /** `ReadDimensions` in terms of the results of its four steps. */
  lemma DimensionsFromFields(s: seq<byte>, i: nat, p1: nat, wn: Number, hn: Number, p3: nat, mn: Number)
    requires i <= |s|
    requires SkipWhitespaceAndComments(s, i) == p1
    requires ReadUnsigned(s, p1) == Some(wn)
    requires wn.end <= |s| && ReadUnsigned(s, wn.end) == Some(hn)
    requires hn.end <= |s| && SkipWhitespaceAndComments(s, hn.end) == p3
    requires ReadUnsigned(s, p3) == Some(mn)
    ensures ReadDimensions(s, i) == Some(HeaderInfo(wn.value, hn.value, mn.value, mn.end))
  {
  }

  /** The reader finds the magic word of a laid-out header. */
  lemma ParsesMagic(s: seq<byte>, dw: seq<byte>, dh: seq<byte>)
    requires Numeral(dw) && HeaderLaidOut(s, dw, dh)
    ensures ReadWord(s, 0) == Some(Token(MAGIC, 2))
  {
    ReadsMagic(s);
  }

  /** The width of a laid-out header: after the magic word's newline. */
  lemma ParsesWidth(s: seq<byte>, dw: seq<byte>, dh: seq<byte>)
    requires Numeral(dw) && HeaderLaidOut(s, dw, dh)
    ensures SkipWhitespaceAndComments(s, 2) == 3
    ensures ReadUnsigned(s, 3) == Some(Number(DigitsValue(dw), 3 + |dw|))
  {
    assert s[3 + 0] == dw[0];
    SkipsNewline(s, 2);
    ReadsNumeral(s, 3, 3, dw);
  }

  /** The height of a laid-out header: after the width's space. */
  lemma ParsesHeight(s: seq<byte>, dw: seq<byte>, dh: seq<byte>)
    requires Numeral(dh) && HeaderLaidOut(s, dw, dh)
    ensures ReadUnsigned(s, 3 + |dw|) == Some(Number(DigitsValue(dh), 4 + |dw| + |dh|))
  {
    ReadsNumeral(s, 3 + |dw|, 4 + |dw|, dh);
  }

  /** The maximum value of a laid-out header: after the height's newline. */
  lemma ParsesMaxValue(s: seq<byte>, dw: seq<byte>, dh: seq<byte>)
    requires HeaderLaidOut(s, dw, dh)
    ensures var e2 := 4 + |dw| + |dh|;
            SkipWhitespaceAndComments(s, e2) == e2 + 1
            && ReadUnsigned(s, e2 + 1) == Some(Number(255, e2 + 4))
  {
    var e2 := 4 + |dw| + |dh|;
    MaxValueDigits();
    assert s[e2 + 1 + 0] == 50;
    SkipsNewline(s, e2);
    ReadsNumeral(s, e2 + 1, e2 + 1, [50, 53, 53]);
  }

  /** The reader parses the numbers of a laid-out header. */
  lemma {:induction false} ParsesDimensions(s: seq<byte>, dw: seq<byte>, dh: seq<byte>)
    requires Numeral(dw) && Numeral(dh) && HeaderLaidOut(s, dw, dh)
    ensures ReadDimensions(s, 2)
            == Some(HeaderInfo(DigitsValue(dw), DigitsValue(dh), 255, HeaderEnd(dw, dh) - 1))
  {
    ParsesWidth(s, dw, dh);
    ParsesHeight(s, dw, dh);
    ParsesMaxValue(s, dw, dh);
    DimensionsOfParts(s, |dw|, |dh|, DigitsValue(dw), DigitsValue(dh));
  }

  /** The three numbers of a header, found one after another where the
      fields lie, are what `ReadDimensions` returns. */
  lemma DimensionsOfParts(s: seq<byte>, lw: nat, lh: nat, w: u32, h: u32)
    requires 4 + lw + lh <= |s|
    requires SkipWhitespaceAndComments(s, 2) == 3
    requires ReadUnsigned(s, 3) == Some(Number(w, 3 + lw))
    requires ReadUnsigned(s, 3 + lw) == Some(Number(h, 4 + lw + lh))
    requires SkipWhitespaceAndComments(s, 4 + lw + lh) == 5 + lw + lh
    requires ReadUnsigned(s, 5 + lw + lh) == Some(Number(255, 8 + lw + lh))
    ensures ReadDimensions(s, 2) == Some(HeaderInfo(w, h, 255, 8 + lw + lh))
  {
    DimensionsFromFields(s, 2, 3, Number(w, 3 + lw), Number(h, 4 + lw + lh),
                         5 + lw + lh, Number(255, 8 + lw + lh));
  }

  lemma ReadsAfterHeader(s: seq<byte>, hd: HeaderInfo)
    requires 0 < hd.maxEnd + 1 <= |s| && hd.maxValue == 255
    requires ReadWord(s, 0) == Some(Token(MAGIC, 2))
    requires ReadDimensions(s, 2) == Some(hd)
    ensures ParseHeader(s) == Ok(hd)
  {
  }

  /** Whatever follows a laid-out header, the reader gets past the header,
      which ends at its last newline. */
  lemma ReadsPastHeader(s: seq<byte>, dw: seq<byte>, dh: seq<byte>, w: u32, h: u32)
    requires Numeral(dw) && Numeral(dh) && DigitsValue(dw) == w && DigitsValue(dh) == h
    requires HeaderLaidOut(s, dw, dh)
    ensures HeaderEnd(dw, dh) <= |s|
    ensures ParseHeader(s) == Ok(HeaderInfo(w, h, 255, HeaderEnd(dw, dh) - 1))
  {
    ParsesMagic(s, dw, dh);
    ParsesDimensions(s, dw, dh);
    ReadsAfterHeader(s, HeaderInfo(w, h, 255, HeaderEnd(dw, dh) - 1));
  }

  /** The reader accepts any header the writer produces followed by at
      least the bytes it reads, and returns the first `dataSize` of them. */
  lemma ReadsHeader(w: u32, h: u32, data: seq<byte>, arith: SizeArith)
    requires DataSize(arith, w, h) <= |data|
    ensures ReadPPM(Header(w, h) + data, arith) == Ok(PPMImage(w, h, data[..DataSize(arith, w, h)]))
  {
    ReadsHeaderAndRest(w, h, data, arith);
  }

  /** A written header followed by fewer data bytes than the reader reads
      is reported as truncated. */
  lemma ReadsTruncated(w: u32, h: u32, data: seq<byte>, arith: SizeArith)
    requires |data| < DataSize(arith, w, h)
    ensures ReadPPM(Header(w, h) + data, arith) == Err(TRUNCATED)
  {
    ReadsHeaderAndRest(w, h, data, arith);
  }

  /** A written header followed by any bytes: the reader returns their first
      `dataSize`, or TRUNCATED when there are fewer. */
  lemma ReadsHeaderAndRest(w: u32, h: u32, data: seq<byte>, arith: SizeArith)
    ensures ReadPPM(Header(w, h) + data, arith)
            == if DataSize(arith, w, h) <= |data| then Ok(PPMImage(w, h, data[..DataSize(arith, w, h)]))
               else Err(TRUNCATED)
  {
    var dw, dh := DecimalBytes(w), DecimalBytes(h);
    var s := Header(w, h) + data;
    var hd := HeaderInfo(w, h, 255, HeaderEnd(dw, dh) - 1);
    assert hd.maxEnd < |s| && s[hd.maxEnd + 1..] == data && ParseHeader(s) == Ok(hd) by {
      HeaderIsText(w, h);
      HeaderTextFields(dw, dh, data);
      ReadsPastHeader(s, dw, dh, w, h);
    }
    ReadsRest(s, hd, data, arith);
  }

  /** Once the header parses, the reader returns the first `dataSize` bytes
      of what follows the separator, or TRUNCATED when there are fewer. */
  lemma ReadsRest(s: seq<byte>, hd: HeaderInfo, rest: seq<byte>, arith: SizeArith)
    requires hd.maxEnd < |s| && s[hd.maxEnd + 1..] == rest
    requires ParseHeader(s) == Ok(hd)
    ensures var n := DataSize(arith, hd.width, hd.height);
            ReadPPM(s, arith) == if n <= |rest| then Ok(PPMImage(hd.width, hd.height, rest[..n])) else Err(TRUNCATED)
  {
    assert ReadPPM(s, arith) == ReadPayload(s, hd, arith);
    PayloadOfRest(s, hd, rest, arith);
  }

  /** The payload read after a header ending at `hd.maxEnd`. */
  lemma PayloadOfRest(s: seq<byte>, hd: HeaderInfo, rest: seq<byte>, arith: SizeArith)
    requires hd.maxEnd < |s| && s[hd.maxEnd + 1..] == rest
    ensures var n := DataSize(arith, hd.width, hd.height);
            ReadPayload(s, hd, arith) == if n <= |rest| then Ok(PPMImage(hd.width, hd.height, rest[..n])) else Err(TRUNCATED)
  {
    var start, n := hd.maxEnd + 1, DataSize(arith, hd.width, hd.height);
    if n <= |rest| {
      assert s[start..start + n] == rest[..n];
    }
  }

  /** As written, a header whose byte count reaches 2^64 is read with the
      wrapped count: the image comes back with fewer bytes than its pixels
      need. */
  lemma AsWrittenAcceptsShortData(w: u32, h: u32, data: seq<byte>)
    requires PayloadSize(w, h) >= U64_LIMIT && |data| == DataSize(WrapsSizeT, w, h)
    ensures ReadPPM(Header(w, h) + data, WrapsSizeT) == Ok(PPMImage(w, h, data))
    ensures !WellFormed(PPMImage(w, h, data))
  {
    ReadsHeader(w, h, data, WrapsSizeT);
    assert data[..|data|] == data;
  }

  /** The wrap on one file: 2154230017 x 2854344542 pixels need 26 bytes
      modulo 2^64, so a header followed by 26 bytes is accepted, although
      pixel (9, 0), inside the image, starts at byte 27. With the exact
      count the same file is truncated. */
  lemma AsWrittenPayloadWraps()
    ensures var w, h, data := 2154230017, 2854344542, seq(26, _ => 0);
            ReadPPM(Header(w, h) + data, WrapsSizeT) == Ok(PPMImage(w, h, data))
            && 9 < w && (0 * w + 9) * 3 >= |data|
            && ReadPPM(Header(w, h) + data, ExactSize) == Err(TRUNCATED)
  {
    var w, h, data := 2154230017, 2854344542, seq(26, _ => 0);
    assert PayloadSize(w, h) % U64_LIMIT == 26;
    AsWrittenAcceptsShortData(w, h, data);
    ReadsTruncated(w, h, data, ExactSize);
  }

  /** With the exact count, every in-range pixel of an image the reader
      returns lies inside its data, so `pixelAt` never reads past it. */
  lemma ExactReadHoldsPixels(s: seq<byte>, x: u32, y: u32)
    ensures var r := ReadPPM(s, ExactSize);
            r.Ok? && x < r.value.width && y < r.value.height ==>
              (y * r.value.width + x) * 3 + 3 <= |r.value.data|
  {
    var r := ReadPPM(s, ExactSize);
    if r.Ok? && x < r.value.width && y < r.value.height {
      PixelInPayload(r.value.width, r.value.height, x, y);
    }
  }

  /** Round trip: reading back what the writer produced yields the frame's
      width and height and the first `dataSize` bytes of the packed rows,
      which is all of them unless the count wraps. */
  lemma RoundTrip(f: PPMDebugFrame, path: string, arith: SizeArith)
    requires Accepted(f)
    ensures WritePPM(f, true, path).Ok?
    ensures ReadPPM(WritePPM(f, true, path).value, arith)
            == Ok(PPMImage(f.width, f.height, PPMPayload(f)[..DataSize(arith, f.width, f.height)]))
    ensures arith == ExactSize || PayloadSize(f.width, f.height) < U64_LIMIT ==>
              ReadPPM(WritePPM(f, true, path).value, arith) == Ok(PPMImage(f.width, f.height, PPMPayload(f)))
  {
    var out := WritePPM(f, true, path).value;
    var hd := Header(f.width, f.height);
    var payload := PPMPayload(f);
    assert out == out[..|hd|] + out[|hd|..];
    ReadsHeader(f.width, f.height, payload, arith);
    assert payload[..|payload|] == payload;
  }

  /** Three consecutive bytes of output row `y` are the same three bytes of
      the frame's row `y`. */
  lemma RowTriple(rgb: seq<byte>, stride: nat, rowBytes: nat, count: nat, y: nat, j: nat)
    requires 0 < count && (count - 1) * stride + rowBytes <= |rgb|
    requires y < count && j + 3 <= rowBytes
    ensures y * stride + j + 3 <= |rgb| && y * rowBytes + j + 3 <= count * rowBytes
    ensures Rows(rgb, stride, rowBytes, count)[y * rowBytes + j..y * rowBytes + j + 3]
            == rgb[y * stride + j..y * stride + j + 3]
  {
    var r := Rows(rgb, stride, rowBytes, count);
    var a0, b0 := y * stride, y * rowBytes;
    RowsAtOffset(rgb, stride, rowBytes, count, y, j, a0, b0);
    RowsAtOffset(rgb, stride, rowBytes, count, y, j + 1, a0, b0);
    RowsAtOffset(rgb, stride, rowBytes, count, y, j + 2, a0, b0);
    SameTriple(r, b0 + j, rgb, a0 + j);
  }

  /** `RowsAt` with the row offsets named, so that neighbouring bytes of a
      row are linear in them. */
  lemma RowsAtOffset(rgb: seq<byte>, stride: nat, rowBytes: nat, count: nat, y: nat, k: nat, a0: nat, b0: nat)
    requires 0 < count && (count - 1) * stride + rowBytes <= |rgb|
    requires y < count && k < rowBytes
    requires a0 == y * stride && b0 == y * rowBytes
    ensures a0 + k < |rgb| && b0 + k < count * rowBytes
    ensures Rows(rgb, stride, rowBytes, count)[b0 + k] == rgb[a0 + k]
  {
    RowsAt(rgb, stride, rowBytes, count, y, k);
  }

  /** Three bytes equal one by one are equal as a slice. */
  lemma SameTriple(r: seq<byte>, b: nat, src: seq<byte>, a: nat)
    requires b + 3 <= |r| && a + 3 <= |src|
    requires r[b] == src[a] && r[b + 1] == src[a + 1] && r[b + 2] == src[a + 2]
    ensures r[b..b + 3] == src[a..a + 3]
  {
    assert r[b..b + 3] == [r[b], r[b + 1], r[b + 2]];
    assert src[a..a + 3] == [src[a], src[a + 1], src[a + 2]];
  }

  lemma PixelOffset(w: nat, x: nat, y: nat)
    ensures (y * w + x) * 3 == y * (w * 3) + x * 3
  {
  }

  /** Where the pixel at column `x` of row `y` starts in a buffer whose rows
      are `stride` bytes apart. */
  function PixelStart(stride: nat, x: nat, y: nat): nat {
    y * stride + x * 3
  }

  /** Row padding is never written: the pixel at column `x` of row `y` of
      the written payload is the frame's pixel there. */
  lemma PayloadPixel(f: PPMDebugFrame, x: nat, y: nat)
    requires RowsInBuffer(f)
    requires x < f.width && y < f.height
    ensures var img := PPMImage(f.width, f.height, PPMPayload(f));
            var src := PixelStart(f.stride, x, y);
            WellFormed(img) && src + 3 <= |f.rgb|
            && PixelAt(img, x, y) == Ok(f.rgb[src..src + 3])
  {
    var row := f.width * 3;
    PixelOffset(f.width, x, y);
    RowTriple(f.rgb, f.stride, row, f.height, y, x * 3);
  }

  /** End to end: every in-range pixel of the read-back image is the frame's
      pixel at column `x` of row `y`. */
  lemma RoundTripPixel(f: PPMDebugFrame, path: string, x: u32, y: u32, arith: SizeArith)
    requires Accepted(f)
    requires x < f.width && y < f.height
    ensures WritePPM(f, true, path).Ok?
    ensures var img := ReadPPM(WritePPM(f, true, path).value, arith);
            var src := PixelStart(f.stride, x, y);
            var full := PPMImage(f.width, f.height, PPMPayload(f));
            img.Ok? && src + 3 <= |f.rgb| && WellFormed(full)
            && (arith == ExactSize || PayloadSize(f.width, f.height) < U64_LIMIT ==>
                  img.value == full && PixelAt(full, x, y) == Ok(f.rgb[src..src + 3]))
  {
    RoundTrip(f, path, arith);
    AcceptedRowsInBuffer(f);
    PayloadPixel(f, x, y);
  }

  /** `pixelAt`: the RGB triple at column `x` of row `y`. The test helper
      indexes any image; this requires one whose data holds every pixel,
      and the over-read on an image whose byte count wrapped is what
      `AsWrittenPayloadWraps` exhibits. */
  function PixelAt(img: PPMImage, x: u32, y: u32): (r: Result<seq<byte>>)
    requires WellFormed(img)
    ensures r.Ok? <==> x < img.width && y < img.height
    ensures r.Ok? ==> |r.value| == 3
  {
    if x >= img.width || y >= img.height then Err("pixelAt: coordinates out of bounds")
    else
      var idx := (y * img.width + x) * 3;
      PixelInPayload(img.width, img.height, x, y);
      Ok(img.data[idx..idx + 3])
  }

  /** The triple of an in-range pixel lies inside the payload. */
  lemma PixelInPayload(w: nat, h: nat, x: nat, y: nat)
    requires x < w && y < h
    ensures (y * w + x) * 3 + 3 <= PayloadSize(w, h)
  {
    var k := y * w + x;
    Arith.MulRegroup(y, 1, 1, w);
    Arith.MulMono(y + 1, h, w);
    Arith.MulMono(k + 1, w * h, 3);
    Arith.MulRegroup(k, 1, 1, 3);
  }
}
