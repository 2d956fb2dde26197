/** The pure choices `vkutils` makes while setting up Vulkan: which GPU,
    which queue family, which surface format, how many swapchain images,
    which present mode and which composite-alpha mode. The Vulkan queries
    are replaced by the lists they return. */
module VkSelect {
  import opened Wrappers
  import opened MachineInts
  import opened Search
  import Text

  // Enumerant values from the Vulkan headers.
  const FORMAT_UNDEFINED: int := 0
  const FORMAT_R8G8B8_UNORM: int := 23
  const FORMAT_R8G8B8_SRGB: int := 29
  const FORMAT_R8G8B8A8_SRGB: int := 43

  const PRESENT_MODE_IMMEDIATE: int := 0
  const PRESENT_MODE_MAILBOX: int := 1
  const PRESENT_MODE_FIFO: int := 2

  const COMPOSITE_ALPHA_OPAQUE: bv32 := 1
  const COMPOSITE_ALPHA_PRE_MULTIPLIED: bv32 := 2
  const COMPOSITE_ALPHA_POST_MULTIPLIED: bv32 := 4
  const COMPOSITE_ALPHA_INHERIT: bv32 := 8

  const PHYSICAL_DEVICE_TYPE_DISCRETE_GPU: int := 2
  const QUEUE_GRAPHICS_BIT: bv32 := 1

  /** The capacity of the fixed swapchain image array. */
  const MAX_SWAPCHAIN_IMAGES: nat := 10

  /** The size of the fixed present-mode array `createSwapchain` scans. */
  const PRESENT_MODE_SLOTS: nat := 30

  // ----- findGPU -----

  /** `findGPU`: the first discrete GPU, else device 0; no device is an
      error. The result is an index into the enumerated devices. */
  function FindGpu(deviceTypes: seq<int>): (r: Result<nat>)
    ensures r.Err? <==> deviceTypes == []
    ensures r.Err? ==> r.error == "No devices found!"
    ensures r.Ok? ==> r.value < |deviceTypes|
    ensures r.Ok? && deviceTypes[r.value] == PHYSICAL_DEVICE_TYPE_DISCRETE_GPU ==>
              forall j :: 0 <= j < r.value ==> deviceTypes[j] != PHYSICAL_DEVICE_TYPE_DISCRETE_GPU
    ensures r.Ok? && deviceTypes[r.value] != PHYSICAL_DEVICE_TYPE_DISCRETE_GPU ==>
              r.value == 0 && forall j :: 0 <= j < |deviceTypes| ==> deviceTypes[j] != PHYSICAL_DEVICE_TYPE_DISCRETE_GPU
  {
    if deviceTypes == [] then Err("No devices found!")
    else
      match FirstWhere(deviceTypes, t => t == PHYSICAL_DEVICE_TYPE_DISCRETE_GPU)
      case Some(i) => Ok(i)
      case None => Ok(0)
  }

  // ----- getVulkanGraphicsQueueIndex -----

  /** A queue family as far as the choice is concerned: its flag bits and
      whether it can present to the surface. */
  datatype QueueFamily = QueueFamily(queueFlags: bv32, supportsPresent: bool)

  predicate CanGraphicsAndPresent(f: QueueFamily) {
    f.queueFlags & QUEUE_GRAPHICS_BIT != 0 && f.supportsPresent
  }

  /** `getVulkanGraphicsQueueIndex`: the first family with the graphics bit
      and present support. */
  function GraphicsQueueIndex(families: seq<QueueFamily>): (r: Result<nat>)
    ensures families == [] ==> r == Err("No queue families found")
    ensures r.Ok? ==> r.value < |families| && CanGraphicsAndPresent(families[r.value])
                      && forall j :: 0 <= j < r.value ==> !CanGraphicsAndPresent(families[j])
    ensures families != [] && r.Err? ==>
              r.error == "Failed to find graphics queue"
              && forall j :: 0 <= j < |families| ==> !CanGraphicsAndPresent(families[j])
  {
    if families == [] then Err("No queue families found")
    else
      match FirstWhere(families, CanGraphicsAndPresent)
      case Some(i) => Ok(i)
      case None => Err("Failed to find graphics queue")
  }

  // ----- selectSwapchainFormat -----

  datatype SurfaceFormat = SurfaceFormat(format: int, colorSpace: int)

  /** The formats in `getPreferredFormats`. */
  predicate Preferred(f: SurfaceFormat) {
    f.format == FORMAT_R8G8B8_SRGB || f.format == FORMAT_R8G8B8_UNORM
  }

  /** `selectSwapchainFormat`: a lone UNDEFINED entry means "any", answered
      with R8G8B8A8_SRGB in that entry's colour space; otherwise the first
      preferred format in surface order, else the first format. */
  function SelectSwapchainFormat(formats: seq<SurfaceFormat>): (r: Result<SurfaceFormat>)
    ensures r.Err? <==> formats == []
    ensures r.Err? ==> r.error == "Failed to find any surface formats."
    ensures |formats| == 1 && formats[0].format == FORMAT_UNDEFINED ==>
              r == Ok(SurfaceFormat(FORMAT_R8G8B8A8_SRGB, formats[0].colorSpace))
  {
    if formats == [] then Err("Failed to find any surface formats.")
    else if |formats| == 1 && formats[0].format == FORMAT_UNDEFINED then
      Ok(SurfaceFormat(FORMAT_R8G8B8A8_SRGB, formats[0].colorSpace))
    else
      match FirstWhere(formats, Preferred)
      case Some(i) => Ok(formats[i])
      case None => Ok(formats[0])
  }

  /** Outside the lone-UNDEFINED case the chosen format is one the surface
      offers: the first preferred one when there is one, else the first. */
  lemma SwapchainFormatChoice(formats: seq<SurfaceFormat>)
    requires formats != [] && !(|formats| == 1 && formats[0].format == FORMAT_UNDEFINED)
    ensures var r := SelectSwapchainFormat(formats);
            r.Ok? && r.value in formats
            && ((exists i :: 0 <= i < |formats| && Preferred(formats[i])) <==> Preferred(r.value))
            && (Preferred(r.value) ==>
                  exists i :: 0 <= i < |formats| && formats[i] == r.value
                              && forall j :: 0 <= j < i ==> !Preferred(formats[j]))
            && (!Preferred(r.value) ==> r.value == formats[0])
  {
    match FirstWhere(formats, Preferred)
    case Some(i) =>
      assert formats[i] == SelectSwapchainFormat(formats).value;
    case None =>
  }

  // ----- createSwapchain: image count -----

  /** The image-count limits a surface reports; `maxImageCount` 0 means
      "no limit". */
  datatype SurfaceCapabilities = SurfaceCapabilities(minImageCount: u32, maxImageCount: u32, supportedCompositeAlpha: bv32)

  /** One image more than the minimum, lowered to the maximum when there is
      one. The sum is a `uint32_t` and wraps. */
  function DesiredImageCount(caps: SurfaceCapabilities): (n: u32)
    ensures caps.maxImageCount > 0 ==> n <= caps.maxImageCount
    ensures caps.minImageCount < U32_MAX ==>
              n == if 0 < caps.maxImageCount < caps.minImageCount + 1 then caps.maxImageCount
                   else caps.minImageCount + 1
    ensures caps.minImageCount == U32_MAX ==> n == 0
  {
    var desired := WrapU32(caps.minImageCount + 1);
    if caps.maxImageCount > 0 && desired > caps.maxImageCount then caps.maxImageCount else desired
  }

  /** Whenever the surface allows more than its minimum, the swapchain asks
      for exactly one image more than the minimum. */
  lemma ImageCountOneMore(caps: SurfaceCapabilities)
    requires caps.minImageCount < caps.maxImageCount || (caps.maxImageCount == 0 && caps.minImageCount < U32_MAX)
    ensures DesiredImageCount(caps) == caps.minImageCount + 1
  {
  }

  // ----- createSwapchain: present mode -----

  /** The reference rule: MAILBOX if offered, else IMMEDIATE if offered,
      else FIFO. */
  function PreferredPresentMode(modes: seq<int>): (m: int)
  {
    if PRESENT_MODE_MAILBOX in modes then PRESENT_MODE_MAILBOX
    else if PRESENT_MODE_IMMEDIATE in modes then PRESENT_MODE_IMMEDIATE
    else PRESENT_MODE_FIFO
  }

  /** The scan loop of `createSwapchain` from the current choice onward:
      MAILBOX stops it, IMMEDIATE is remembered and the scan goes on. */
  function ScanPresentModes(modes: seq<int>, current: int): (m: int)
    decreases |modes|
  {
    if modes == [] then current
    else if modes[0] == PRESENT_MODE_MAILBOX then PRESENT_MODE_MAILBOX
    else if modes[0] == PRESENT_MODE_IMMEDIATE then ScanPresentModes(modes[1..], PRESENT_MODE_IMMEDIATE)
    else ScanPresentModes(modes[1..], current)
  }

  /** The present mode `createSwapchain` picks. The loop runs over all
      thirty slots of its array, including any past the count the driver
      filled in, so `slots` is the whole array. */
  function ChoosePresentMode(slots: seq<int>): (m: int)
    requires |slots| == PRESENT_MODE_SLOTS
  {
    ScanPresentModes(slots, PRESENT_MODE_FIFO)
  }

  /** The scan agrees with the reference rule when it starts from FIFO, or
      from IMMEDIATE with no MAILBOX ahead. */
  lemma {:induction false} ScanMatchesPreference(modes: seq<int>, current: int)
    requires current == PRESENT_MODE_FIFO || current == PRESENT_MODE_IMMEDIATE
    ensures ScanPresentModes(modes, current)
            == if PRESENT_MODE_MAILBOX in modes then PRESENT_MODE_MAILBOX
               else if PRESENT_MODE_IMMEDIATE in modes || current == PRESENT_MODE_IMMEDIATE then PRESENT_MODE_IMMEDIATE
               else PRESENT_MODE_FIFO
    decreases |modes|
  {
    if modes != [] {
      assert modes == [modes[0]] + modes[1..];
      if modes[0] == PRESENT_MODE_IMMEDIATE {
        ScanMatchesPreference(modes[1..], PRESENT_MODE_IMMEDIATE);
      } else if modes[0] != PRESENT_MODE_MAILBOX {
        ScanMatchesPreference(modes[1..], current);
      }
    }
  }

  /** The chosen present mode is MAILBOX if any slot holds MAILBOX, else
      IMMEDIATE if any slot holds IMMEDIATE, else FIFO. */
  lemma PresentModePriority(slots: seq<int>)
    requires |slots| == PRESENT_MODE_SLOTS
    ensures ChoosePresentMode(slots) == PreferredPresentMode(slots)
  {
    ScanMatchesPreference(slots, PRESENT_MODE_FIFO);
  }

  // ----- createSwapchain: composite alpha -----

  /** The order in which composite-alpha modes are tried. */
  const COMPOSITE_PRIORITY: seq<bv32> :=
    [COMPOSITE_ALPHA_OPAQUE, COMPOSITE_ALPHA_INHERIT, COMPOSITE_ALPHA_PRE_MULTIPLIED, COMPOSITE_ALPHA_POST_MULTIPLIED]

  /** The first supported mode of OPAQUE, INHERIT, PRE_MULTIPLIED and
      POST_MULTIPLIED, with OPAQUE when none is supported. */
  function ChooseCompositeAlpha(supported: bv32): (c: bv32)
  {
    if Supports(supported, COMPOSITE_ALPHA_OPAQUE) then COMPOSITE_ALPHA_OPAQUE
    else if Supports(supported, COMPOSITE_ALPHA_INHERIT) then COMPOSITE_ALPHA_INHERIT
    else if Supports(supported, COMPOSITE_ALPHA_PRE_MULTIPLIED) then COMPOSITE_ALPHA_PRE_MULTIPLIED
    else if Supports(supported, COMPOSITE_ALPHA_POST_MULTIPLIED) then COMPOSITE_ALPHA_POST_MULTIPLIED
    else COMPOSITE_ALPHA_OPAQUE
  }

  /** The mode bit `b` is set in the surface's supported modes. */
  predicate Supports(supported: bv32, b: bv32) {
    supported & b != 0
  }

  /** The test applied to each entry of the priority list. */
  function SupportedBy(supported: bv32): (p: bv32 -> bool)
    ensures forall b :: p(b) == Supports(supported, b)
  {
    b => Supports(supported, b)
  }

  /** The choice is the first entry of the priority list the surface
      supports, and OPAQUE when it supports none. */
  lemma CompositeAlphaPriority(supported: bv32)
    ensures var c := ChooseCompositeAlpha(supported);
            match FirstWhere(COMPOSITE_PRIORITY, SupportedBy(supported))
            case Some(i) => c == COMPOSITE_PRIORITY[i]
            case None => c == COMPOSITE_ALPHA_OPAQUE
  {
    var p, s := SupportedBy(supported), COMPOSITE_PRIORITY;
    if p(s[0]) {
      FirstIs(s, p, 0);
    } else if p(s[1]) {
      FirstIs(s, p, 1);
    } else if p(s[2]) {
      FirstIs(s, p, 2);
    } else if p(s[3]) {
      FirstIs(s, p, 3);
    } else {
      NoneFound(s, p);
    }
  }

  // ----- getSwapchainSize -----

  datatype Extent = Extent(width: u32, height: u32)

  /** `static_cast<uint32_t>` of an `int`. */
  function CastU32(x: int): (r: u32)
    ensures 0 <= x < U32_LIMIT ==> r == x
    ensures x < 0 && -x <= U32_LIMIT ==> r == x + U32_LIMIT
  {
    x % U32_LIMIT
  }

  /** `getSwapchainSize`: a current width of 0xFFFFFFFF means the surface
      takes its size from the swapchain, so the framebuffer size is used. */
  function SwapchainSize(currentExtent: Extent, framebufferWidth: int, framebufferHeight: int): (e: Extent)
    ensures currentExtent.width != U32_MAX ==> e == currentExtent
    ensures currentExtent.width == U32_MAX && 0 <= framebufferWidth < U32_LIMIT && 0 <= framebufferHeight < U32_LIMIT ==>
              e == Extent(framebufferWidth, framebufferHeight)
  {
    if currentExtent.width == U32_MAX then Extent(CastU32(framebufferWidth), CastU32(framebufferHeight))
    else currentExtent
  }

  // ----- getSwapchainImages -----

  /** `getSwapchainImages`: more images than the fixed array holds is an
      error naming both numbers. */
  function CheckSwapchainImageCount(count: u32): (r: Result<u32>)
    ensures r.Ok? <==> count <= MAX_SWAPCHAIN_IMAGES
    ensures r.Ok? ==> r.value == count
    ensures r.Err? ==> r.error == "Swapchain image count " + Text.Decimal(count)
                                  + " exceeds maximum images " + Text.Decimal(MAX_SWAPCHAIN_IMAGES)
  {
    if count > MAX_SWAPCHAIN_IMAGES then
      Err("Swapchain image count " + Text.Decimal(count) + " exceeds maximum images " + Text.Decimal(MAX_SWAPCHAIN_IMAGES))
    else Ok(count)
  }
}
