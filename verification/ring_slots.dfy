/** The offline renderer's configuration and its pool of ring slots: the
    defaults, the ring-size check, the per-slot record and how the first
    `ringSize` slots are set up. */
module RingSlots {
  import opened Wrappers
  import opened MachineInts
  import opened Arith

  const OFFSCREEN_DEFAULT_WIDTH: u32 := 1280
  const OFFSCREEN_DEFAULT_HEIGHT: u32 := 720
  const OFFSCREEN_DEFAULT_RING_SIZE: u32 := 2

  const RING_SIZE_ERROR := "ringSize must be 1..MAX_FRAME_SLOTS"

  /** `validateRingSize`: the ring must hold at least one slot and at most
      `maxFrameSlots`, the capacity of the slot array. */
  function ValidateRingSize(value: u32, maxFrameSlots: nat): (r: Result<u32>)
    ensures r.Ok? <==> 1 <= value <= maxFrameSlots
    ensures r.Ok? ==> r.value == value
    ensures r.Err? ==> r.error == RING_SIZE_ERROR
  {
    if value == 0 || value > maxFrameSlots then Err(RING_SIZE_ERROR) else Ok(value)
  }

  /** The default ring size passes the check whenever the slot array has room
      for two slots. */
  lemma DefaultRingSizeValid(maxFrameSlots: nat)
    requires 2 <= maxFrameSlots
    ensures ValidateRingSize(OFFSCREEN_DEFAULT_RING_SIZE, maxFrameSlots) == Ok(2)
  {
  }

  /** Frame `frame` renders into slot `frame % ringSize`, always a valid slot
      of a validated ring. */
  function SlotOf(frame: nat, ringSize: nat): (s: nat)
    requires 0 < ringSize
    ensures s < ringSize
    ensures frame < ringSize ==> s == frame
  {
    frame % ringSize
  }

  /** Frames exactly `ringSize` apart share a slot. */
  lemma SlotRepeats(f: nat, ringSize: nat)
    requires 0 < ringSize
    ensures SlotOf(f + ringSize, ringSize) == SlotOf(f, ringSize)
  {
    ModUnique(f + ringSize, ringSize, f / ringSize + 1, f % ringSize);
  }

  /** Frames fewer than `ringSize` apart use different slots. */
  lemma SlotsDistinct(f: nat, g: nat, ringSize: nat)
    requires 0 < ringSize && f < g < f + ringSize
    ensures SlotOf(f, ringSize) != SlotOf(g, ringSize)
  {
    var q, a, d := f / ringSize, f % ringSize, g - f;
    if a + d < ringSize {
      ModUnique(g, ringSize, q, a + d);
    } else {
      ModUnique(g, ringSize, q + 1, a + d - ringSize);
    }
  }

  /** Vulkan handles are opaque numbers; 0 is `VK_NULL_HANDLE`. */
  type Handle = nat

  const NULL_HANDLE: Handle := 0

  /** One slot of the ring: the offscreen image with its memory, view and
      framebuffer, the mapped staging buffer, and the two pending flags. */
  datatype RingSlot = RingSlot(
    image: Handle,
    imageMemory: Handle,
    imageView: Handle,
    framebuffer: Handle,
    mapped: bool,
    rowStride: u32,
    pendingReadback: bool,
    pendingEncode: bool)

  /** A slot as the array default-constructs it. */
  const FreshSlot := RingSlot(NULL_HANDLE, NULL_HANDLE, NULL_HANDLE, NULL_HANDLE, false, 0, false, false)

  predicate IsFresh(s: RingSlot) {
    s.image == NULL_HANDLE && s.imageMemory == NULL_HANDLE && s.imageView == NULL_HANDLE
    && s.framebuffer == NULL_HANDLE && !s.mapped && s.rowStride == 0
    && !s.pendingReadback && !s.pendingEncode
  }

  lemma FreshSlotIsFresh()
    ensures IsFresh(FreshSlot)
    ensures forall s: RingSlot :: IsFresh(s) ==> s == FreshSlot
  {
  }

  /** The slot array before setup: `maxFrameSlots` fresh slots. */
  function InitialSlots(maxFrameSlots: nat): (slots: seq<RingSlot>)
    ensures |slots| == maxFrameSlots
    ensures forall i :: 0 <= i < |slots| ==> IsFresh(slots[i])
  {
    seq(maxFrameSlots, _ => FreshSlot)
  }

  /** The handles Vulkan returns for one slot; creation failures abort setup
      and are not modelled. */
  datatype SlotHandles = SlotHandles(image: Handle, imageMemory: Handle, imageView: Handle, framebuffer: Handle)

  /** Setting up one slot: its handles are stored, its staging buffer is
      mapped and its row stride is `width * bytesPerPixel` in 32-bit
      arithmetic. The pending flags are left as they were. */
  function SetupSlot(s: RingSlot, h: SlotHandles, width: u32, bytesPerPixel: u32): (r: RingSlot)
    ensures r.mapped && (r.rowStride - width * bytesPerPixel) % U32_LIMIT == 0
    ensures width * bytesPerPixel < U32_LIMIT ==> r.rowStride == width * bytesPerPixel
    ensures r.pendingReadback == s.pendingReadback && r.pendingEncode == s.pendingEncode
  {
    RingSlot(h.image, h.imageMemory, h.imageView, h.framebuffer, true,
             WrapU32(width * bytesPerPixel), s.pendingReadback, s.pendingEncode)
  }

  /** `setupRenderContext`'s slot loop: slots `0 .. ringSize - 1` are set
      up with their handles, the rest of the array is untouched. */
  function SetupSlots(slots: seq<RingSlot>, ringSize: nat, handles: seq<SlotHandles>,
                      width: u32, bytesPerPixel: u32): (r: seq<RingSlot>)
    requires ringSize <= |slots| && ringSize <= |handles|
    ensures |r| == |slots|
    ensures forall i :: 0 <= i < ringSize ==>
              r[i] == SetupSlot(slots[i], handles[i], width, bytesPerPixel)
    ensures forall i :: ringSize <= i < |slots| ==> r[i] == slots[i]
  {
    seq(|slots|, i requires 0 <= i < |slots| =>
      if i < ringSize then SetupSlot(slots[i], handles[i], width, bytesPerPixel) else slots[i])
  }

  /** After setup, a fresh array has every ring slot mapped with the row
      stride of the image and no pending work, and every slot past the ring
      still fresh. */
  lemma SetupFromFresh(maxFrameSlots: nat, ringSize: nat, handles: seq<SlotHandles>, width: u32)
    requires ringSize <= maxFrameSlots && ringSize <= |handles|
    requires width * 4 < U32_LIMIT
    ensures var r := SetupSlots(InitialSlots(maxFrameSlots), ringSize, handles, width, 4);
            (forall i :: 0 <= i < ringSize ==>
               r[i].mapped && r[i].rowStride == width * 4 && !r[i].pendingEncode && !r[i].pendingReadback)
            && (forall i :: ringSize <= i < maxFrameSlots ==> IsFresh(r[i]))
  {
  }

  /** `EncodeItem`: which slot holds the pixels of which frame. */
  datatype EncodeItem = EncodeItem(slotIndex: nat, frameIndex: nat)

  const DefaultEncodeItem := EncodeItem(0, 0)
}
