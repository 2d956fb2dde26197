/** CPU-side pixel buffers: the RGB debug frame filled by GPU readback, the
    RGBA frame, the readback format table and the BGRA -> RGB conversion. */
module PixelBuffers {
  import opened Wrappers
  import opened MachineInts
  import Arith

  /** `VkFormat` codes the readback path distinguishes. */
  const FORMAT_R8G8B8A8_UNORM: int := 37
  const FORMAT_B8G8R8A8_UNORM: int := 44
  const FORMAT_B8G8R8A8_SRGB: int := 50

  /** Tightly packed RGB rows used for debug PPM dumps. */
  datatype ReadbackFrame = ReadbackFrame(width: u32, height: u32, stride: u32, rgb: seq<byte>)

  /** Tightly packed RGBA rows. */
  datatype Frame = Frame(width: u32, height: u32, stride: u32, rgba: seq<byte>)

  const EmptyReadbackFrame := ReadbackFrame(0, 0, 0, [])
  const EmptyFrame := Frame(0, 0, 0, [])

  /** `std::vector::resize`: keeps the common prefix, zero-fills growth. */
  function Resize(v: seq<byte>, n: nat): (r: seq<byte>)
    ensures |r| == n
    ensures forall i :: 0 <= i < n && i < |v| ==> r[i] == v[i]
    ensures forall i :: |v| <= i < n ==> r[i] == 0
  {
    if n <= |v| then v[..n] else v + seq(n - |v|, _ => 0)
  }

  /** `ReadbackFrame::allocateRGB`: the stride is `w * 3` in 32-bit unsigned
      arithmetic, the buffer holds `stride * height` bytes. */
  function AllocateRGB(f: ReadbackFrame, w: u32, h: u32): (r: ReadbackFrame)
    ensures r.width == w && r.height == h
    ensures (r.stride - w * 3) % U32_LIMIT == 0
    ensures w * 3 < U32_LIMIT ==> r.stride == w * 3
    ensures |r.rgb| == r.stride * r.height
    ensures forall i :: 0 <= i < |r.rgb| && i < |f.rgb| ==> r.rgb[i] == f.rgb[i]
  {
    var stride := WrapU32(w * 3);
    ReadbackFrame(w, h, stride, Resize(f.rgb, stride * h))
  }

  /** `Frame::allocateRGBA`: as `AllocateRGB` with four bytes per pixel. */
  function AllocateRGBA(f: Frame, w: u32, h: u32): (r: Frame)
    ensures r.width == w && r.height == h
    ensures (r.stride - w * 4) % U32_LIMIT == 0
    ensures w * 4 < U32_LIMIT ==> r.stride == w * 4
    ensures |r.rgba| == r.stride * r.height
    ensures forall i :: 0 <= i < |r.rgba| && i < |f.rgba| ==> r.rgba[i] == f.rgba[i]
  {
    var stride := WrapU32(w * 4);
    Frame(w, h, stride, Resize(f.rgba, stride * h))
  }

  /** Reallocating replaces every size field: the result's shape depends only
      on the new dimensions, never on the frame's previous ones. */
  lemma ReallocationForgetsShape(f: ReadbackFrame, g: ReadbackFrame, w: u32, h: u32)
    ensures var a, b := AllocateRGB(f, w, h), AllocateRGB(g, w, h);
            a.width == b.width && a.height == b.height && a.stride == b.stride && |a.rgb| == |b.rgb|
  {
  }

  /** A 64x32 RGBA frame has 256-byte rows and 8192 bytes in all. */
  lemma AllocateRGBA64x32()
    ensures var f := AllocateRGBA(EmptyFrame, 64, 32);
            f.stride == 256 && |f.rgba| == f.height * f.stride == 8192
  {
  }

  /** Bytes per pixel of the mapped image and whether red and blue are swapped. */
  datatype ReadbackFormatInfo = ReadbackFormatInfo(bytesPerPixel: u32, swapRB: bool)

  /** `getReadbackFormatInfo`: only the two BGRA8 formats can be read back. */
  function GetReadbackFormatInfo(format: int): (r: Result<ReadbackFormatInfo>)
    ensures r.Ok? <==> format == FORMAT_B8G8R8A8_UNORM || format == FORMAT_B8G8R8A8_SRGB
    ensures r.Ok? ==> r.value.bytesPerPixel == 4 && r.value.swapRB
    ensures format == FORMAT_R8G8B8A8_UNORM ==> r.Err?
  {
    if format == FORMAT_B8G8R8A8_UNORM || format == FORMAT_B8G8R8A8_SRGB then
      Ok(ReadbackFormatInfo(4, true))
    else
      Err("Unsupported offscreen format for readback; expected BGRA8")
  }

  /** The RGB triple of source pixel `i`: channels 2, 1, 0 when red and blue
      are swapped, else 0, 1, 2; any further bytes of the pixel are dropped. */
  function SourcePixel(src: seq<byte>, i: nat, info: ReadbackFormatInfo): (px: seq<byte>)
    requires 3 <= info.bytesPerPixel
    requires (i + 1) * info.bytesPerPixel <= |src|
    ensures |px| == 3
  {
    var o := i * info.bytesPerPixel;
    if info.swapRB then [src[o + 2], src[o + 1], src[o]] else [src[o], src[o + 1], src[o + 2]]
  }

  lemma PixelsFit(n: nat, i: nat, bpp: nat, len: nat)
    requires i < n && n * bpp <= len
    ensures (i + 1) * bpp <= len
  {
    Arith.MulMono(i + 1, n, bpp);
  }

  /** Reference definition: the first `n` source pixels converted and packed. */
  function ConvertedPixels(src: seq<byte>, n: nat, info: ReadbackFormatInfo): (rgb: seq<byte>)
    requires 3 <= info.bytesPerPixel
    requires n * info.bytesPerPixel <= |src|
    ensures |rgb| == n * 3
  {
    if n == 0 then []
    else
      assert (n - 1) * info.bytesPerPixel <= n * info.bytesPerPixel;
      ConvertedPixels(src, n - 1, info) + SourcePixel(src, n - 1, info)
  }

  /** Pixel `i` of the converted buffer is the converted source pixel `i`. */
  lemma {:induction false} ConvertedPixelAt(src: seq<byte>, n: nat, info: ReadbackFormatInfo, i: nat)
    requires 3 <= info.bytesPerPixel
    requires n * info.bytesPerPixel <= |src|
    requires i < n
    ensures (i + 1) * info.bytesPerPixel <= |src|
    ensures ConvertedPixels(src, n, info)[i * 3..i * 3 + 3] == SourcePixel(src, i, info)
  {
    PixelsFit(n, i, info.bytesPerPixel, |src|);
    PixelsFit(n, n - 1, info.bytesPerPixel, |src|);
    assert (n - 1) * info.bytesPerPixel <= |src|;
    var prev := ConvertedPixels(src, n - 1, info);
    if i < n - 1 {
      ConvertedPixelAt(src, n - 1, info, i);
      assert ConvertedPixels(src, n, info)[i * 3..i * 3 + 3] == prev[i * 3..i * 3 + 3];
    } else {
      assert ConvertedPixels(src, n, info)[i * 3..i * 3 + 3] == SourcePixel(src, i, info);
    }
  }

  /** Storing three bytes at `d` extends the prefix before `d` by them. */
  lemma WritePixel(rgb: seq<byte>, d: nat, px: seq<byte>)
    requires |px| == 3 && d + 3 <= |rgb|
    ensures var r := rgb[d := px[0]][d + 1 := px[1]][d + 2 := px[2]];
            |r| == |rgb| && r[..d + 3] == rgb[..d] + px
  {
    var r := rgb[d := px[0]][d + 1 := px[1]][d + 2 := px[2]];
    assert r[..d + 3] == rgb[..d] + px;
  }

  /** `debugReadbackOffscreenImage`: allocates an RGB frame of the image size
      and converts every mapped pixel into it. The frame width times three is
      assumed to fit in 32 bits, which the device's image-size limits ensure. */
  method DebugReadback(src: seq<byte>, width: u32, height: u32, info: ReadbackFormatInfo)
    returns (frame: ReadbackFrame)
    requires 3 <= info.bytesPerPixel
    requires width * 3 < U32_LIMIT
    requires width * height * info.bytesPerPixel <= |src|
    ensures frame.width == width && frame.height == height && frame.stride == width * 3
    ensures |frame.rgb| == width * height * 3
    ensures frame.rgb == ConvertedPixels(src, width * height, info)
  {
    frame := AllocateRGB(EmptyReadbackFrame, width, height);
    var n := width * height;
    assert |frame.rgb| == n * 3;
    var rgb := ConvertInto(src, n, info, frame.rgb);
    frame := frame.(rgb := rgb);
  }

  /** The conversion loop: pixel by pixel into a buffer of the right size. */
  method ConvertInto(src: seq<byte>, n: nat, info: ReadbackFormatInfo, buffer: seq<byte>)
    returns (rgb: seq<byte>)
    requires 3 <= info.bytesPerPixel
    requires n * info.bytesPerPixel <= |src|
    requires |buffer| == n * 3
    ensures rgb == ConvertedPixels(src, n, info)
  {
    rgb := buffer;
    var i := 0;
    while i < n
      invariant 0 <= i <= n
      invariant |rgb| == n * 3
      invariant i * info.bytesPerPixel <= |src|
      invariant rgb[..i * 3] == ConvertedPixels(src, i, info)
    {
      PixelsFit(n, i, info.bytesPerPixel, |src|);
      var px := SourcePixel(src, i, info);
      var d := i * 3;
      WritePixel(rgb, d, px);
      rgb := rgb[d := px[0]][d + 1 := px[1]][d + 2 := px[2]];
      assert ConvertedPixels(src, i + 1, info) == ConvertedPixels(src, i, info) + px;
      i := i + 1;
    }
    assert rgb == rgb[..n * 3];
  }
}
