/** The windowed renderer's own rules: the memory type chosen for the
    readback buffer, the size of that buffer, the frame counters of the game
    loop, and the shader path used when live recompilation fails. */
module SdfRenderer {
  import opened Wrappers
  import opened MachineInts
  import opened Search
  import Arith
  import Paths

  const MEMORY_PROPERTY_HOST_VISIBLE: bv32 := 2
  const MEMORY_PROPERTY_HOST_COHERENT: bv32 := 4
  const REQUIRED_PROPERTIES: bv32 := MEMORY_PROPERTY_HOST_VISIBLE | MEMORY_PROPERTY_HOST_COHERENT

  /** `VK_MAX_MEMORY_TYPES`, the capacity of the memory-type array. */
  const MAX_MEMORY_TYPES: nat := 32

  const NO_MEMORY_TYPE_ERROR := "Failed to find suitable memory type for readback buffer"

  /** Bit `i` of a 32-bit mask. */
  predicate BitSet(mask: bv32, i: nat)
    requires i < 32
  {
    mask & (1 as bv32 << i) != 0
  }

  /** A memory type the readback buffer may live in: allowed by the buffer's
      requirements and at least host-visible and host-coherent. */
  predicate Suitable(typeBits: bv32, propertyFlags: seq<bv32>, i: nat)
    requires i < |propertyFlags| <= MAX_MEMORY_TYPES
  {
    BitSet(typeBits, i) && propertyFlags[i] & REQUIRED_PROPERTIES == REQUIRED_PROPERTIES
  }

  /** The search loop from index `i` on. */
  function FindFrom(typeBits: bv32, propertyFlags: seq<bv32>, i: nat): (r: Option<nat>)
    requires i <= |propertyFlags| <= MAX_MEMORY_TYPES
    ensures r.Some? ==> i <= r.value < |propertyFlags| && Suitable(typeBits, propertyFlags, r.value)
                        && forall j :: i <= j < r.value ==> !Suitable(typeBits, propertyFlags, j)
    ensures r.None? ==> forall j :: i <= j < |propertyFlags| ==> !Suitable(typeBits, propertyFlags, j)
    decreases |propertyFlags| - i
  {
    if i == |propertyFlags| then None
    else if Suitable(typeBits, propertyFlags, i) then Some(i)
    else FindFrom(typeBits, propertyFlags, i + 1)
  }

  /** `setupReadbackResources`' memory-type search: the smallest suitable
      index among the device's memory types, extra property flags allowed. */
  function FindMemoryType(typeBits: bv32, propertyFlags: seq<bv32>): (r: Result<nat>)
    requires |propertyFlags| <= MAX_MEMORY_TYPES
    ensures r.Ok? ==> r.value < |propertyFlags| && Suitable(typeBits, propertyFlags, r.value)
                      && forall j :: 0 <= j < r.value ==> !Suitable(typeBits, propertyFlags, j)
    ensures r.Err? ==> r.error == NO_MEMORY_TYPE_ERROR
                       && forall j :: 0 <= j < |propertyFlags| ==> !Suitable(typeBits, propertyFlags, j)
  {
    match FindFrom(typeBits, propertyFlags, 0)
    case Some(i) => Ok(i)
    case None => Err(NO_MEMORY_TYPE_ERROR)
  }

  /** A type with every property bit set qualifies when the buffer allows
      it, so the search never passes over it. */
  lemma ExtraFlagsAllowed(typeBits: bv32, propertyFlags: seq<bv32>, k: nat)
    requires k < |propertyFlags| <= MAX_MEMORY_TYPES
    requires BitSet(typeBits, k) && propertyFlags[k] == 0xFFFF_FFFF
    ensures FindMemoryType(typeBits, propertyFlags).Ok?
    ensures FindMemoryType(typeBits, propertyFlags).value <= k
  {
    assert propertyFlags[k] & REQUIRED_PROPERTIES == REQUIRED_PROPERTIES;
    assert Suitable(typeBits, propertyFlags, k);
  }

  /** The readback buffer size, `width * height * 4` in 64-bit unsigned
      arithmetic; the pixel vector gets the same length. */
  function ReadbackBufferSize(width: u32, height: u32): (n: nat)
    ensures n < U64_LIMIT
    ensures width * height * 4 < U64_LIMIT ==> n == width * height * 4
  {
    WrapU64(width * height * 4)
  }

  // ----- gameLoop frame counters -----

  /** The loop's counters: frames rendered so far, the index of the
      per-frame fence and semaphores in use, the swapchain image count the
      index wraps at, and the number of fences and semaphores that exist. */
  datatype Counters = Counters(currentFrame: u32, frameIndex: u32, imageCount: u32, syncCount: u32)

  /** One pass of the loop as far as the counters go: what the window
      reported, whether the framebuffer was resized, and the swapchain
      image count after any resize. */
  datatype Tick = Tick(shouldClose: bool, resized: bool, imageCount: u32)

  /** When the fences and semaphores are made. `CreatedOnce` is
      `setupRenderContext` as written: they are made only while none exist,
      so their number stays that of the first swapchain. `RecreatedOnResize`
      remakes them for every new swapchain. */
  datatype SyncArrays = CreatedOnce | RecreatedOnResize

  /** The counters at the top of `gameLoop`, after the first swapchain and
      its fences and semaphores are made. */
  function Initial(imageCount: u32): (c: Counters)
    ensures c.currentFrame == 0 && c.frameIndex == 0
    ensures c.syncCount == c.imageCount == imageCount
  {
    Counters(0, 0, imageCount, imageCount)
  }

  /** The loop stops before rendering once the frame limit, if any, is
      reached. */
  predicate ReachedMax(maxFrames: Option<u32>, currentFrame: u32) {
    maxFrames.Some? && currentFrame >= maxFrames.value
  }

  /** The fence index a pass waits on: 0 right after a resize, else the
      current frame index. */
  function FenceIndex(c: Counters, t: Tick): nat {
    if t.resized then 0 else c.frameIndex
  }

  /** The number of fences and semaphores at a pass's fence wait, after any
      resize of that pass. */
  function SyncCountAt(c: Counters, t: Tick, sync: SyncArrays): (n: u32)
    ensures sync == CreatedOnce ==> n == c.syncCount
    ensures sync == RecreatedOnResize && t.resized ==> n == t.imageCount
    ensures !t.resized ==> n == c.syncCount
  {
    if t.resized && sync == RecreatedOnResize then t.imageCount else c.syncCount
  }

  /** The counters after one rendered frame: the frame index advances from
      the fence index modulo the image count and the frame count goes up by
      one, as a `uint32_t`. */
  function Advance(c: Counters, t: Tick, sync: SyncArrays): (r: Counters)
    requires 0 < t.imageCount
    ensures r.frameIndex < r.imageCount == t.imageCount
    ensures r.frameIndex == (FenceIndex(c, t) + 1) % t.imageCount
    ensures c.currentFrame < U32_MAX ==> r.currentFrame == c.currentFrame + 1
    ensures r.syncCount == SyncCountAt(c, t, sync)
  {
    Counters(WrapU32(c.currentFrame + 1), ((FenceIndex(c, t) + 1) % t.imageCount) as u32, t.imageCount,
             SyncCountAt(c, t, sync))
  }

  /** A tick fits the counters when its image count is positive and changes
      only on a resize, as a new swapchain is made only then. */
  predicate Fits(c: Counters, t: Tick) {
    0 < t.imageCount && (t.imageCount != c.imageCount ==> t.resized)
  }

  /** One fence wait: the index used, the image count at the time, and the
      number of fences that exist. */
  datatype FenceUse = FenceUse(index: nat, imageCount: nat, syncCount: nat)

  /** `gameLoop` over a sequence of ticks, ending when the window closes,
      the frame limit is reached or the ticks run out: the final counters
      and the fence waits of the rendered frames. */
  function GameLoop(c: Counters, maxFrames: Option<u32>, ticks: seq<Tick>, sync: SyncArrays): (r: (Counters, seq<FenceUse>))
    requires forall i :: 0 <= i < |ticks| ==> 0 < ticks[i].imageCount
    ensures |r.1| <= |ticks|
    decreases |ticks|
  {
    if ticks == [] || ticks[0].shouldClose || ReachedMax(maxFrames, c.currentFrame) then (c, [])
    else
      var rest := GameLoop(Advance(c, ticks[0], sync), maxFrames, ticks[1..], sync);
      (rest.0, [FenceUse(FenceIndex(c, ticks[0]), ticks[0].imageCount, SyncCountAt(c, ticks[0], sync))] + rest.1)
  }

  /** Ticks that each fit the counters they meet. */
  predicate ValidTicks(c: Counters, ticks: seq<Tick>, sync: SyncArrays)
    decreases |ticks|
  {
    ticks == [] || (Fits(c, ticks[0]) && ValidTicks(Advance(c, ticks[0], sync), ticks[1..], sync))
  }

  /** Every fence wait uses an index below the image count of the swapchain
      in use. This bounds the index by the current image count only; the
      bound by the number of fences is `FenceIndexWithinSyncArrays`. */
  lemma {:induction false} FenceIndexInRange(c: Counters, maxFrames: Option<u32>, ticks: seq<Tick>, sync: SyncArrays)
    requires c.frameIndex < c.imageCount && ValidTicks(c, ticks, sync)
    requires forall i :: 0 <= i < |ticks| ==> 0 < ticks[i].imageCount
    ensures var r := GameLoop(c, maxFrames, ticks, sync);
            r.0.frameIndex < r.0.imageCount
            && forall i :: 0 <= i < |r.1| ==> r.1[i].index < r.1[i].imageCount
    decreases |ticks|
  {
    if !(ticks == [] || ticks[0].shouldClose || ReachedMax(maxFrames, c.currentFrame)) {
      FenceIndexInRange(Advance(c, ticks[0], sync), maxFrames, ticks[1..], sync);
    }
  }

  /** As written, a resize that raises the image count lets the frame index
      reach fences that were never made: from two images, a resize to three
      and two more frames wait on `fences[2]` while only two fences exist.
      The semaphores indexed by the frame index are read the same way. */
  lemma ResizeOutgrowsFences()
    ensures var ticks := [Tick(false, true, 3), Tick(false, false, 3), Tick(false, false, 3)];
            ValidTicks(Initial(2), ticks, CreatedOnce)
            && GameLoop(Initial(2), None, ticks, CreatedOnce).1[2] == FenceUse(2, 3, 2)
            && GameLoop(Initial(2), None, ticks, RecreatedOnResize).1[2] == FenceUse(2, 3, 3)
  {
    var ticks := [Tick(false, true, 3), Tick(false, false, 3), Tick(false, false, 3)];
    var c1 := Advance(Initial(2), ticks[0], CreatedOnce);
    var c2 := Advance(c1, ticks[1], CreatedOnce);
    assert c1 == Counters(1, 1, 3, 2);
    assert c2 == Counters(2, 2, 3, 2);
    assert ticks[1..][1..] == [ticks[2]];
    var d1 := Advance(Initial(2), ticks[0], RecreatedOnResize);
    var d2 := Advance(d1, ticks[1], RecreatedOnResize);
    assert d1 == Counters(1, 1, 3, 3);
    assert d2 == Counters(2, 2, 3, 3);
  }

  /** With the fences and semaphores made again for every new swapchain,
      every fence wait uses a fence that exists. */
  lemma {:induction false} FenceIndexWithinSyncArrays(c: Counters, maxFrames: Option<u32>, ticks: seq<Tick>)
    requires c.frameIndex < c.imageCount <= c.syncCount && ValidTicks(c, ticks, RecreatedOnResize)
    requires forall i :: 0 <= i < |ticks| ==> 0 < ticks[i].imageCount
    ensures var r := GameLoop(c, maxFrames, ticks, RecreatedOnResize);
            r.0.frameIndex < r.0.imageCount <= r.0.syncCount
            && forall i :: 0 <= i < |r.1| ==> r.1[i].index < r.1[i].syncCount
    decreases |ticks|
  {
    if !(ticks == [] || ticks[0].shouldClose || ReachedMax(maxFrames, c.currentFrame)) {
      FenceIndexWithinSyncArrays(Advance(c, ticks[0], RecreatedOnResize), maxFrames, ticks[1..]);
    }
  }

  /** As written, every fence wait uses a fence that exists as long as no
      swapchain has more images than the first. */
  lemma {:induction false} FencesSufficeWhileCountKept(c: Counters, maxFrames: Option<u32>, ticks: seq<Tick>)
    requires c.frameIndex < c.imageCount <= c.syncCount && ValidTicks(c, ticks, CreatedOnce)
    requires forall i :: 0 <= i < |ticks| ==> 0 < ticks[i].imageCount <= c.syncCount
    ensures var r := GameLoop(c, maxFrames, ticks, CreatedOnce);
            r.0.syncCount == c.syncCount
            && forall i :: 0 <= i < |r.1| ==> r.1[i].index < r.1[i].syncCount
    decreases |ticks|
  {
    if !(ticks == [] || ticks[0].shouldClose || ReachedMax(maxFrames, c.currentFrame)) {
      FencesSufficeWhileCountKept(Advance(c, ticks[0], CreatedOnce), maxFrames, ticks[1..]);
    }
  }

  /** With a frame limit and a window that stays open long enough, the loop
      renders exactly `maxFrames` frames. */
  lemma {:induction false} RendersExactlyMax(c: Counters, maxFrames: u32, ticks: seq<Tick>, sync: SyncArrays)
    requires c.currentFrame <= maxFrames
    requires maxFrames - c.currentFrame <= |ticks|
    requires forall i :: 0 <= i < |ticks| ==> 0 < ticks[i].imageCount && !ticks[i].shouldClose
    ensures GameLoop(c, Some(maxFrames), ticks, sync).0.currentFrame == maxFrames
    ensures |GameLoop(c, Some(maxFrames), ticks, sync).1| == maxFrames - c.currentFrame
    decreases |ticks|
  {
    if c.currentFrame < maxFrames {
      RendersExactlyMax(Advance(c, ticks[0], sync), maxFrames, ticks[1..], sync);
    }
  }

  /** Without resizes the frame index is the frame count modulo the image
      count. */
  lemma {:induction false} FrameIndexFollowsCount(c: Counters, maxFrames: u32, ticks: seq<Tick>, sync: SyncArrays)
    requires 0 < c.imageCount && c.frameIndex == c.currentFrame % c.imageCount
    requires forall i :: 0 <= i < |ticks| ==> ticks[i].imageCount == c.imageCount && !ticks[i].resized
    ensures var r := GameLoop(c, Some(maxFrames), ticks, sync).0;
            r.imageCount == c.imageCount && r.frameIndex == r.currentFrame % c.imageCount
    decreases |ticks|
  {
    if !(ticks == [] || ticks[0].shouldClose || ReachedMax(Some(maxFrames), c.currentFrame)) {
      Arith.ModSucc(c.currentFrame, c.imageCount);
      FrameIndexFollowsCount(Advance(c, ticks[0], sync), maxFrames, ticks[1..], sync);
    }
  }

  /** `createPipeline`'s choice of SPIR-V file: the compiler's output, or,
      when compilation fails during a live edit, the shader path with its
      extension replaced by ".spv". */
  function FragSpirvPath(fragShaderPath: string, compiled: Result<string>): (p: string)
    ensures compiled.Ok? ==> p == compiled.value
    ensures compiled.Err? && Paths.Filename(fragShaderPath) != "" ==> Paths.Extension(p) == ".spv"
  {
    match compiled
    case Ok(spv) => spv
    case Err(_) =>
      var fallback := Paths.ReplaceExtension(fragShaderPath, ".spv");
      if Paths.Filename(fragShaderPath) != "" then
        Paths.ReplaceExtensionSets(fragShaderPath, ".spv");
        fallback
      else fallback
  }
}
