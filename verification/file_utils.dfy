/** `loadBinaryFile`: a SPIR-V file read into 32-bit words. The bytes are
    copied into the word buffer as they are, so on the little-endian hosts
    the renderer runs on, word `i` is bytes `4i .. 4i+3`, least significant
    first. Opening the file is replaced by its contents (`None` when it
    cannot be opened) and the read by the number of bytes it delivered. */
module FileUtils {
  import opened Wrappers
  import opened MachineInts
  import Arith

  /** The word bytes `b0 b1 b2 b3` make, least significant byte first. */
  function WordOf(b0: byte, b1: byte, b2: byte, b3: byte): (w: u32)
  {
    b0 + 256 * b1 + 65536 * b2 + 16777216 * b3
  }

  /** The four bytes of a word in memory, least significant first. */
  function WordBytes(w: u32): (bs: seq<byte>)
    ensures |bs| == 4
  {
    [w % 256, (w / 256) % 256, (w / 65536) % 256, w / 16777216]
  }

  /** A word's bytes give the word back. */
  lemma WordBytesRoundTrip(w: u32)
    ensures var bs := WordBytes(w); WordOf(bs[0], bs[1], bs[2], bs[3]) == w
  {
    var q1 := w / 256;
    var q2 := q1 / 256;
    assert w == w % 256 + 256 * q1;
    assert q1 == q1 % 256 + 256 * q2;
    Arith.DivDiv(w, 256, 256);
    assert q2 == w / 65536;
    assert q2 == q2 % 256 + 256 * (q2 / 256);
    Arith.DivDiv(w, 65536, 256);
  }

  /** Four bytes give back their word's bytes. */
  lemma WordOfRoundTrip(b0: byte, b1: byte, b2: byte, b3: byte)
    ensures WordBytes(WordOf(b0, b1, b2, b3)) == [b0, b1, b2, b3]
  {
    var w := WordOf(b0, b1, b2, b3);
    var r1 := b1 + 256 * b2 + 65536 * b3;
    var r2 := b2 + 256 * b3;
    Arith.ModUnique(w, 256, r1, b0);
    Arith.ModUnique(r1, 256, r2, b1);
    Arith.ModUnique(r2, 256, b3, b2);
    Arith.DivDiv(w, 256, 256);
    Arith.DivDiv(w, 65536, 256);
    Arith.ModUnique(b3, 256, 0, b3);
  }

  /** The word buffer: word `i` holds bytes `4i .. 4i+3`. */
  function Words(bytes: seq<byte>): (ws: seq<u32>)
    requires |bytes| % 4 == 0
    ensures |ws| == |bytes| / 4
    ensures forall i :: 0 <= i < |ws| ==>
              ws[i] == WordOf(bytes[4 * i], bytes[4 * i + 1], bytes[4 * i + 2], bytes[4 * i + 3])
    decreases |bytes|
  {
    if bytes == [] then []
    else [WordOf(bytes[0], bytes[1], bytes[2], bytes[3])] + Words(bytes[4..])
  }

  /** The bytes of a word buffer, in memory order. */
  function Bytes(ws: seq<u32>): (bs: seq<byte>)
    ensures |bs| == 4 * |ws|
    decreases |ws|
  {
    if ws == [] then [] else WordBytes(ws[0]) + Bytes(ws[1..])
  }

  /** The word buffer holds the file's bytes in file order: its memory is
      the file. */
  lemma {:induction false} WordsKeepBytes(bytes: seq<byte>)
    requires |bytes| % 4 == 0
    ensures Bytes(Words(bytes)) == bytes
    decreases |bytes|
  {
    if bytes != [] {
      WordOfRoundTrip(bytes[0], bytes[1], bytes[2], bytes[3]);
      WordsKeepBytes(bytes[4..]);
      assert Words(bytes)[1..] == Words(bytes[4..]);
      assert bytes == bytes[..4] + bytes[4..];
    }
  }

  /** `loadBinaryFile`: an unopenable file, a length that is not a multiple
      of 4 and a short read are errors, in that order; otherwise the file's
      words. */
  function LoadBinaryFile(filename: string, contents: Option<seq<byte>>, bytesRead: nat): (r: Result<seq<u32>>)
    ensures contents.None? ==> r == Err("Failed to open file: " + filename)
    ensures contents.Some? && |contents.value| % 4 != 0 ==>
              r == Err("SPIR-V file size is not a multiple of 4: " + filename)
    ensures contents.Some? && |contents.value| % 4 == 0 && bytesRead != |contents.value| ==>
              r == Err("Failed to read the complete file: " + filename)
    ensures r.Ok? ==> contents.Some? && |r.value| * 4 == |contents.value| && bytesRead == |contents.value|
  {
    match contents
    case None => Err("Failed to open file: " + filename)
    case Some(bytes) =>
      if |bytes| % 4 != 0 then Err("SPIR-V file size is not a multiple of 4: " + filename)
      else if bytesRead != |bytes| then Err("Failed to read the complete file: " + filename)
      else Ok(Words(bytes))
  }

  /** A successful load loses nothing: the words' bytes are the file. */
  lemma LoadKeepsFile(filename: string, bytes: seq<byte>)
    requires |bytes| % 4 == 0
    ensures var r := LoadBinaryFile(filename, Some(bytes), |bytes|);
            r.Ok? && Bytes(r.value) == bytes
  {
    WordsKeepBytes(bytes);
  }
}
