/**
 * Selection rules of `exqudens::vulkan::Factory` (src/main/cpp/exqudens/vulkan/Factory.cpp):
 * queue-family search, memory-type and depth-format search, swap-chain
 * parameter choice, first-suitable physical device, and the destroy
 * functions that clear their vectors.
 */
module Factory {
  import opened Wrappers
  import opened VkTypes
  import opened QueueScan
  import Search
  import Handles

  /** `QueueFamilyIndexInfo`: required flags, recorded families, the
      `complete` flag and the unique index set. */
  datatype QueueFamilyIndexInfo = QueueFamilyIndexInfo(
    required: Requirements,
    families: FamilySlots,
    complete: bool,
    uniqueQueueFamilyIndices: set<nat>
  )

  /** The recorded index of every required kind (each one holds a value once
      the scan is complete). */
  function RequiredIndices(req: Requirements, slots: FamilySlots): set<nat> {
    (if req.compute then OptionSet(slots.compute) else {})
    + (if req.transfer then OptionSet(slots.transfer) else {})
    + (if req.graphics then OptionSet(slots.graphics) else {})
    + (if req.present then OptionSet(slots.present) else {})
  }

  function OptionSet(o: Option<nat>): set<nat> {
    if o.Some? then {o.value} else {}
  }

  /** `findQueueFamilies`: scan with every required kind (compute included) as
      the stopping condition; fill the unique set only when complete. */
  function FindQueueFamilies(families: seq<QueueFamily>, computeRequired: bool, transferRequired: bool,
                             graphicsRequired: bool, hasSurface: bool): QueueFamilyIndexInfo
  {
    var req := Requirements(computeRequired, transferRequired, graphicsRequired, hasSurface);
    var (slots, complete) := Scan(families, req, req, NoFamilies, 0);
    QueueFamilyIndexInfo(req, slots, complete, if complete then RequiredIndices(req, slots) else {})
  }

  /**
   * `complete` holds iff there is a family and the families together support
   * every required kind (present iff a surface is given). When complete, the
   * loop stopped after the shortest covering prefix of length `l`, and each
   * slot holds the largest index below `l` supporting its kind (see
   * `QueueScan.SlotsAtMeaning`); otherwise it holds the largest index overall.
   * The unique set is the set of recorded required indices, or empty.
   */
  lemma FindQueueFamiliesMeaning(families: seq<QueueFamily>, computeRequired: bool, transferRequired: bool,
                                 graphicsRequired: bool, hasSurface: bool)
    ensures var r := FindQueueFamilies(families, computeRequired, transferRequired, graphicsRequired, hasSurface);
      var req := Requirements(computeRequired, transferRequired, graphicsRequired, hasSurface);
      && r.required == req
      && (r.complete <==> |families| > 0 && Covered(families, req, |families|))
      && (r.complete ==> exists l :: FirstCover(families, req, l) && r.families == SlotsAt(families, req, l))
      && (!r.complete ==> r.families == SlotsAt(families, req, |families|))
      && (r.complete ==> forall k :: req.Requires(k) ==> r.families.Get(k).Some?)
      && (r.complete ==> forall i :: i in r.uniqueQueueFamilyIndices <==>
            exists k :: req.Requires(k) && r.families.Get(k) == Some(i))
      && (!r.complete ==> r.uniqueQueueFamilyIndices == {})
  {
    var req := Requirements(computeRequired, transferRequired, graphicsRequired, hasSurface);
    ScanFromStart(families, req, req);
    var r := FindQueueFamilies(families, computeRequired, transferRequired, graphicsRequired, hasSurface);
    if r.complete {
      var l :| FirstCover(families, req, l) && r.families == SlotsAt(families, req, l);
      AllFoundAt(families, req, req, l);
      FoundSlotsHold(req, r.families);
      RequiredIndicesMeaning(req, r.families);
    }
  }

  lemma FoundSlotsHold(req: Requirements, s: FamilySlots)
    requires AllFound(req, s)
    ensures forall k :: req.Requires(k) ==> s.Get(k).Some?
  {
    forall k | req.Requires(k) ensures s.Get(k).Some? {
      match k
      case Compute =>
      case Transfer =>
      case Graphics =>
      case Present =>
    }
  }

  /** The unique set holds exactly the recorded indices of the required kinds. */
  lemma RequiredIndicesMeaning(req: Requirements, s: FamilySlots)
    ensures forall i :: i in RequiredIndices(req, s) <==> exists k :: req.Requires(k) && s.Get(k) == Some(i)
  {
    forall i ensures i in RequiredIndices(req, s) <==> exists k :: req.Requires(k) && s.Get(k) == Some(i) {
      if i in RequiredIndices(req, s) {
        if req.compute && s.compute == Some(i) {
          assert req.Requires(Compute) && s.Get(Compute) == Some(i);
        } else if req.transfer && s.transfer == Some(i) {
          assert req.Requires(Transfer) && s.Get(Transfer) == Some(i);
        } else if req.graphics && s.graphics == Some(i) {
          assert req.Requires(Graphics) && s.Get(Graphics) == Some(i);
        } else {
          assert req.Requires(Present) && s.Get(Present) == Some(i);
        }
      }
    }
  }

  /** Zero families: never complete, even when nothing is required. */
  lemma NoFamiliesNeverComplete(computeRequired: bool, transferRequired: bool, graphicsRequired: bool, hasSurface: bool)
    ensures !FindQueueFamilies([], computeRequired, transferRequired, graphicsRequired, hasSurface).complete
  {
  }

  // ---------------------------------------------------------------------
  // Memory type and depth format

  /** Vulkan's `VK_MAX_MEMORY_TYPES`. */
  const MAX_MEMORY_TYPES: nat := 32

  function Bit(i: nat): Flags
    requires i < 32
  {
    1 << i
  }

  /** Memory type `i` passes `findMemoryType`'s test. */
  predicate MemoryTypeMatches(types: seq<MemoryType>, typeFilter: Flags, properties: Flags, i: nat)
    requires i < |types| <= MAX_MEMORY_TYPES
  {
    HasAny(typeFilter, Bit(i)) && HasAll(types[i].propertyFlags, properties)
  }

  /** `findMemoryType`: the lowest index whose bit is set in `typeFilter` and
      whose property flags contain `properties`; an exception when none. */
  method FindMemoryType(types: seq<MemoryType>, typeFilter: Flags, properties: Flags) returns (r: Result<nat, string>)
    requires |types| <= MAX_MEMORY_TYPES
    ensures r.Ok? ==> r.value < |types| && MemoryTypeMatches(types, typeFilter, properties, r.value)
    ensures r.Ok? ==> forall j :: 0 <= j < r.value ==> !MemoryTypeMatches(types, typeFilter, properties, j)
    ensures r.Err? <==> forall j :: 0 <= j < |types| ==> !MemoryTypeMatches(types, typeFilter, properties, j)
  {
    var i := 0;
    while i < |types|
      invariant 0 <= i <= |types|
      invariant forall j :: 0 <= j < i ==> !MemoryTypeMatches(types, typeFilter, properties, j)
    {
      if HasAny(typeFilter, Bit(i)) && HasAll(types[i].propertyFlags, properties) {
        assert MemoryTypeMatches(types, typeFilter, properties, i);
        return Ok(i);
      }
      i := i + 1;
    }
    return Err("failed to find suitable memory type!");
  }

  /** The test of `findSupportedFormat` for one candidate. */
  predicate FormatMatches(props: FormatProperties, tiling: nat, features: Flags) {
    || (tiling == IMAGE_TILING_LINEAR && HasAll(props.linearTilingFeatures, features))
    || (tiling == IMAGE_TILING_OPTIMAL && HasAll(props.optimalTilingFeatures, features))
  }

  /** `findSupportedFormat`: the first candidate whose properties (from
      `query`, the driver's answer) contain `features` for `tiling`. */
  function FindSupportedFormat(candidates: seq<nat>, query: nat -> FormatProperties, tiling: nat, features: Flags): (r: Result<nat, string>)
    ensures r.Ok? ==> exists i :: (0 <= i < |candidates| && candidates[i] == r.value
      && FormatMatches(query(candidates[i]), tiling, features)
      && forall j :: 0 <= j < i ==> !FormatMatches(query(candidates[j]), tiling, features))
    ensures r.Err? <==> forall j :: 0 <= j < |candidates| ==> !FormatMatches(query(candidates[j]), tiling, features)
  {
    match Search.FirstIndex(candidates, c => FormatMatches(query(c), tiling, features))
    case Some(i) => Ok(candidates[i])
    case None => Err("failed to find supported format!")
  }

  const DepthCandidates: seq<nat> := [FORMAT_D32_SFLOAT, FORMAT_D32_SFLOAT_S8_UINT, FORMAT_D24_UNORM_S8_UINT]

  /** A format usable as a depth/stencil attachment with optimal tiling. */
  predicate DepthUsable(query: nat -> FormatProperties, format: nat) {
    HasAll(query(format).optimalTilingFeatures, FORMAT_FEATURE_DEPTH_STENCIL_ATTACHMENT_BIT)
  }

  /** `findDepthFormat`: the first of D32_SFLOAT, D32_SFLOAT_S8_UINT,
      D24_UNORM_S8_UINT usable as a depth/stencil attachment with optimal tiling. */
  function FindDepthFormat(query: nat -> FormatProperties): (r: Result<nat, string>)
    ensures r == Ok(FORMAT_D32_SFLOAT) <==> DepthUsable(query, FORMAT_D32_SFLOAT)
    ensures r == Ok(FORMAT_D32_SFLOAT_S8_UINT) <==>
      !DepthUsable(query, FORMAT_D32_SFLOAT) && DepthUsable(query, FORMAT_D32_SFLOAT_S8_UINT)
    ensures r == Ok(FORMAT_D24_UNORM_S8_UINT) <==>
      !DepthUsable(query, FORMAT_D32_SFLOAT) && !DepthUsable(query, FORMAT_D32_SFLOAT_S8_UINT)
      && DepthUsable(query, FORMAT_D24_UNORM_S8_UINT)
    ensures r.Ok? ==> r.value in DepthCandidates && DepthUsable(query, r.value)
    ensures r.Err? <==> forall c :: c in DepthCandidates ==> !DepthUsable(query, c)
  {
    var r := FindSupportedFormat(DepthCandidates, query, IMAGE_TILING_OPTIMAL, FORMAT_FEATURE_DEPTH_STENCIL_ATTACHMENT_BIT);
    assert forall c :: FormatMatches(query(c), IMAGE_TILING_OPTIMAL, FORMAT_FEATURE_DEPTH_STENCIL_ATTACHMENT_BIT) <==> DepthUsable(query, c);
    assert r.Err? ==> forall c :: c in DepthCandidates ==> !DepthUsable(query, c);
    DepthCandidatePosition(query, r);
    r
  }

  /** Where the depth search stops: the result is the candidate all earlier ones failed before. */
  lemma DepthCandidatePosition(query: nat -> FormatProperties, r: Result<nat, string>)
    requires r == FindSupportedFormat(DepthCandidates, query, IMAGE_TILING_OPTIMAL, FORMAT_FEATURE_DEPTH_STENCIL_ATTACHMENT_BIT)
    ensures r.Ok? ==> exists i :: (0 <= i < |DepthCandidates| && r.value == DepthCandidates[i] && DepthUsable(query, DepthCandidates[i])
      && (i >= 1 ==> !DepthUsable(query, DepthCandidates[0])) && (i >= 2 ==> !DepthUsable(query, DepthCandidates[1])))
  {
    if r.Ok? {
      var i :| 0 <= i < |DepthCandidates| && DepthCandidates[i] == r.value
        && FormatMatches(query(DepthCandidates[i]), IMAGE_TILING_OPTIMAL, FORMAT_FEATURE_DEPTH_STENCIL_ATTACHMENT_BIT)
        && forall j :: 0 <= j < i ==> !FormatMatches(query(DepthCandidates[j]), IMAGE_TILING_OPTIMAL, FORMAT_FEATURE_DEPTH_STENCIL_ATTACHMENT_BIT);
      assert i >= 1 ==> !DepthUsable(query, DepthCandidates[0]);
      assert i >= 2 ==> !DepthUsable(query, DepthCandidates[1]);
    }
  }

  // ---------------------------------------------------------------------
  // Swap-chain parameters

  predicate IsPreferredFormat(f: SurfaceFormat) {
    f.format == FORMAT_B8G8R8A8_SRGB && f.colorSpace == COLOR_SPACE_SRGB_NONLINEAR
  }

  /** `chooseSwapSurfaceFormat`: the first B8G8R8A8_SRGB / SRGB_NONLINEAR entry,
      else the first entry. Indexing `[0]` of an empty list is undefined, so the
      caller must pass a non-empty list (`createPhysicalDevice` only accepts
      devices with formats). */
  function ChooseSwapSurfaceFormat(formats: seq<SurfaceFormat>): (r: SurfaceFormat)
    requires |formats| > 0
    ensures r in formats
    ensures (exists f :: f in formats && IsPreferredFormat(f)) <==> IsPreferredFormat(r)
    ensures IsPreferredFormat(r) ==> exists i :: (0 <= i < |formats| && formats[i] == r
      && forall j :: 0 <= j < i ==> !IsPreferredFormat(formats[j]))
    ensures !IsPreferredFormat(r) ==> r == formats[0]
  {
    match Search.FirstIndex(formats, IsPreferredFormat)
    case Some(i) => formats[i]
    case None => formats[0]
  }

  /** `chooseSwapPresentMode`: MAILBOX when offered, otherwise FIFO. */
  function ChooseSwapPresentMode(modes: seq<nat>): (r: nat)
    ensures r == PRESENT_MODE_MAILBOX <==> PRESENT_MODE_MAILBOX in modes
    ensures r == PRESENT_MODE_MAILBOX || r == PRESENT_MODE_FIFO
  {
    if PRESENT_MODE_MAILBOX in modes then PRESENT_MODE_MAILBOX else PRESENT_MODE_FIFO
  }

  /** `std::clamp(v, lo, hi)`. */
  function Clamp(v: nat, lo: nat, hi: nat): (r: nat)
    ensures lo <= hi ==> lo <= r <= hi
    ensures lo <= v <= hi ==> r == v
  {
    if v < lo then lo else if hi < v then hi else v
  }

  /** `chooseSwapExtent`: `currentExtent` unless its width is UINT32_MAX, in
      which case the requested size clamped into [minImageExtent, maxImageExtent]. */
  function ChooseSwapExtent(caps: SurfaceCapabilities, width: nat, height: nat): (r: Extent2D)
    ensures caps.currentExtent.width != UINT32_MAX ==> r == caps.currentExtent
    ensures caps.currentExtent.width == UINT32_MAX && caps.minImageExtent.width <= caps.maxImageExtent.width ==>
      caps.minImageExtent.width <= r.width <= caps.maxImageExtent.width
      && (caps.minImageExtent.width <= width <= caps.maxImageExtent.width ==> r.width == width)
    ensures caps.currentExtent.width == UINT32_MAX && caps.minImageExtent.height <= caps.maxImageExtent.height ==>
      caps.minImageExtent.height <= r.height <= caps.maxImageExtent.height
      && (caps.minImageExtent.height <= height <= caps.maxImageExtent.height ==> r.height == height)
  {
    if caps.currentExtent.width != UINT32_MAX then caps.currentExtent
    else Extent2D(Clamp(width, caps.minImageExtent.width, caps.maxImageExtent.width),
                  Clamp(height, caps.minImageExtent.height, caps.maxImageExtent.height))
  }

  /** `createSwapChain`'s image count: `minImageCount + 1` in 32-bit
      arithmetic, lowered to `maxImageCount` when that is positive and smaller. */
  function SwapChainImageCount(caps: SurfaceCapabilities): (r: nat)
    requires caps.minImageCount <= UINT32_MAX
    ensures caps.maxImageCount > 0 ==> r <= caps.maxImageCount
    ensures caps.minImageCount < UINT32_MAX && (caps.maxImageCount == 0 || caps.maxImageCount > caps.minImageCount) ==>
      r == caps.minImageCount + 1
    ensures caps.minImageCount < UINT32_MAX && caps.maxImageCount > 0 && caps.maxImageCount <= caps.minImageCount ==>
      r == caps.maxImageCount
  {
    var count := ToUint32(caps.minImageCount + 1);
    if caps.maxImageCount > 0 && count > caps.maxImageCount then caps.maxImageCount else count
  }

  /** `minImageCount == UINT32_MAX` wraps to an image count of 0. */
  lemma ImageCountWrapsAtMax(caps: SurfaceCapabilities)
    requires caps.minImageCount == UINT32_MAX
    ensures SwapChainImageCount(caps) == 0
  {
  }

  datatype SwapChainCreateInfo = SwapChainCreateInfo(
    minImageCount: nat,
    imageFormat: nat,
    imageColorSpace: nat,
    imageExtent: Extent2D,
    imageArrayLayers: nat,
    imageSharingMode: SharingMode,
    queueFamilyIndices: seq<nat>,
    preTransform: Flags,
    compositeAlpha: Flags,
    presentMode: nat,
    clipped: bool
  )

  /**
   * The create info `createSwapChain` hands to `vkCreateSwapchainKHR` (the
   * driver call itself is not modelled). A null surface and a missing
   * graphics or present family (`.value()` on an empty optional) are
   * exceptions.
   */
  function SwapChainInfo(support: SwapChainSupport, indices: QueueFamilyIndexInfo, hasSurface: bool,
                         width: nat, height: nat): (r: Result<SwapChainCreateInfo, string>)
    requires |support.formats| > 0 && support.capabilities.minImageCount <= UINT32_MAX
    ensures r.Ok? <==> hasSurface && indices.families.graphics.Some? && indices.families.present.Some?
    ensures r.Ok? ==> var g := indices.families.graphics.value; var p := indices.families.present.value;
      && (r.value.imageSharingMode == Concurrent <==> g != p)
      && (g != p ==> r.value.queueFamilyIndices == [g, p])
      && (g == p ==> r.value.queueFamilyIndices == [])
      && r.value.imageArrayLayers == 1
      && r.value.clipped
      && r.value.minImageCount == SwapChainImageCount(support.capabilities)
      && r.value.imageFormat == ChooseSwapSurfaceFormat(support.formats).format
      && r.value.imageColorSpace == ChooseSwapSurfaceFormat(support.formats).colorSpace
      && r.value.presentMode == ChooseSwapPresentMode(support.presentModes)
      && r.value.imageExtent == ChooseSwapExtent(support.capabilities, width, height)
      && r.value.preTransform == support.capabilities.currentTransform
      && r.value.compositeAlpha == COMPOSITE_ALPHA_OPAQUE_BIT
  {
    if !hasSurface then Err("surface is null failed to create swap chain!")
    else
      var surfaceFormat := ChooseSwapSurfaceFormat(support.formats);
      var presentMode := ChooseSwapPresentMode(support.presentModes);
      var extent := ChooseSwapExtent(support.capabilities, width, height);
      var imageCount := SwapChainImageCount(support.capabilities);
      if indices.families.graphics.None? || indices.families.present.None? then Err("bad optional access")
      else
        var g := indices.families.graphics.value;
        var p := indices.families.present.value;
        Ok(SwapChainCreateInfo(
          imageCount, surfaceFormat.format, surfaceFormat.colorSpace, extent, 1,
          if g != p then Concurrent else Exclusive,
          if g != p then [g, p] else [],
          support.capabilities.currentTransform, COMPOSITE_ALPHA_OPAQUE_BIT, presentMode, true))
  }

  // ---------------------------------------------------------------------
  // Physical device selection

  /** The four criteria of the loop body, for one device. */
  predicate Suitable(config: DeviceRequirements, hasSurface: bool, device: DeviceInfo) {
    var indices := FindQueueFamilies(device.families, config.computeQueueFamilyRequired,
      config.transferQueueFamilyRequired, config.graphicsQueueFamilyRequired, hasSurface);
    var extensionsSupported := ExtensionsSupported(config.deviceExtensions, device.extensionNames);
    var swapChainAdequate :=
      if extensionsSupported && hasSurface
      then |device.swapChainSupport.formats| > 0 && |device.swapChainSupport.presentModes| > 0
      else !hasSurface;
    var anisotropyAdequate := !config.anisotropyRequired || device.samplerAnisotropy;
    indices.complete && extensionsSupported && swapChainAdequate && anisotropyAdequate
  }

  datatype PhysicalDevice = PhysicalDevice(
    index: nat,
    queueFamilyIndexInfo: QueueFamilyIndexInfo,
    swapChainSupportDetails: Option<SwapChainSupport>
  )

  /** `createPhysicalDevice`: guard, then the first suitable device. */
  function CreatePhysicalDevice(config: DeviceRequirements, hasSurface: bool, devices: seq<DeviceInfo>): Result<PhysicalDevice, string> {
    if config.presentQueueFamilyRequired && !hasSurface then Err("presentQueueFamilyRequired: true but surface is null!")
    else if |devices| == 0 then Err("failed to find GPUs with Vulkan support!")
    else match Search.FirstIndex(devices, d => Suitable(config, hasSurface, d))
      case None => Err("failed to find a suitable GPU!")
      case Some(i) =>
        var d := devices[i];
        Ok(PhysicalDevice(i,
          FindQueueFamilies(d.families, config.computeQueueFamilyRequired, config.transferQueueFamilyRequired,
            config.graphicsQueueFamilyRequired, hasSurface),
          if hasSurface then Some(d.swapChainSupport) else None))
  }

  /** A device is suitable iff its queue families are complete, the required
      extensions are available, and, with a surface, it offers formats and
      present modes; anisotropy is checked only when required. */
  lemma SuitableMeaning(config: DeviceRequirements, hasSurface: bool, device: DeviceInfo)
    ensures Suitable(config, hasSurface, device) <==>
      && FindQueueFamilies(device.families, config.computeQueueFamilyRequired, config.transferQueueFamilyRequired,
           config.graphicsQueueFamilyRequired, hasSurface).complete
      && NamesSupported(config.deviceExtensions, device.extensionNames)
      && (hasSurface ==> |device.swapChainSupport.formats| > 0 && |device.swapChainSupport.presentModes| > 0)
      && (config.anisotropyRequired ==> device.samplerAnisotropy)
  {
    ExtensionsSupportedIffSubset(config.deviceExtensions, device.extensionNames);
  }

  /** The guard errors come first; otherwise the chosen device is the first
      suitable one, and failure means no device is suitable. */
  lemma CreatePhysicalDeviceMeaning(config: DeviceRequirements, hasSurface: bool, devices: seq<DeviceInfo>)
    ensures var r := CreatePhysicalDevice(config, hasSurface, devices);
      && (config.presentQueueFamilyRequired && !hasSurface ==> r.Err?)
      && (|devices| == 0 ==> r.Err?)
      && (r.Ok? ==> (r.value.index < |devices| && Suitable(config, hasSurface, devices[r.value.index])
            && (forall j :: 0 <= j < r.value.index ==> !Suitable(config, hasSurface, devices[j]))
            && r.value.queueFamilyIndexInfo.complete))
      && (r.Err? && !(config.presentQueueFamilyRequired && !hasSurface) ==>
            forall j :: 0 <= j < |devices| ==> !Suitable(config, hasSurface, devices[j]))
  {
  }

  // ---------------------------------------------------------------------
  // Destroy functions

  /** `destroyImageView`: destroys a live view but, unlike its siblings, never
      resets the handle to null. */
  function DestroyImageView(view: Handles.Handle): (r: (Handles.Handle, seq<Handles.DriverCall>))
    ensures r.0 == view
    ensures r.1 == [] <==> view.Null?
  {
    (view, Handles.Release(Handles.ImageViewObject, view))
  }

  /** Destroying the same view twice issues the destroy call twice. */
  lemma DestroyImageViewRepeats(view: Handles.Handle)
    requires view.Live?
    ensures var (v1, calls1) := DestroyImageView(view);
      var (_, calls2) := DestroyImageView(v1);
      calls1 == calls2 == [Handles.Destroy(Handles.ImageViewObject, view.id)]
  {
  }

  /** `destroyImageViews`: destroy each view, then clear the vector. */
  function DestroyImageViews(views: seq<Handles.Handle>): (r: (seq<Handles.Handle>, seq<Handles.DriverCall>))
    ensures r.0 == []
    ensures forall c :: c in r.1 <==> exists i :: (0 <= i < |views| && views[i].Live?
      && c == Handles.Destroy(Handles.ImageViewObject, views[i].id))
  {
    ([], Handles.ReleaseCalls(Handles.ImageViewObject, views))
  }

  /** `destroyFrameBuffers`: destroy each framebuffer, then clear the vector. */
  function DestroyFrameBuffers(frameBuffers: seq<Handles.Handle>): (r: (seq<Handles.Handle>, seq<Handles.DriverCall>))
    ensures r.0 == []
    ensures forall c :: c in r.1 <==> exists i :: (0 <= i < |frameBuffers| && frameBuffers[i].Live?
      && c == Handles.Destroy(Handles.FramebufferObject, frameBuffers[i].id))
  {
    ([], Handles.ReleaseCalls(Handles.FramebufferObject, frameBuffers))
  }

  /**
   * `destroyImage`/`destroyBuffer(…, unmapMemory)` of this file: a live memory
   * is unmapped first (only when asked and host-visible) and freed, then the
   * object is destroyed; both handles end up null.
   */
  function DestroyMemoryBacked(kind: Handles.ObjectKind, obj: Handles.MemoryBacked, unmapMemory: bool): (r: (Handles.MemoryBacked, seq<Handles.DriverCall>))
    ensures r.0.value.Null? && r.0.memory.Null? && r.0.memoryProperties == obj.memoryProperties
    ensures r.1 == [] <==> obj.value.Null? && obj.memory.Null?
    ensures obj.memory.Live? ==>
      (Handles.Unmap(obj.memory.id) in r.1 <==> unmapMemory && HasAll(obj.memoryProperties, Handles.MEMORY_PROPERTY_HOST_VISIBLE_BIT))
    ensures obj.memory.Live? && obj.value.Live? ==>
      |r.1| >= 2 && r.1[|r.1| - 2] == Handles.Destroy(Handles.MemoryObject, obj.memory.id) && r.1[|r.1| - 1] == Handles.Destroy(kind, obj.value.id)
    ensures forall c :: c in r.1 ==> Handles.CallOf(kind, obj, c)
    // Each live handle is released exactly once: memory is freed whatever the
    // object handle is, and the unmap, when issued, comes first.
    ensures obj.memory.Live? ==> Handles.Destroy(Handles.MemoryObject, obj.memory.id) in r.1
    ensures obj.value.Live? ==> Handles.Destroy(kind, obj.value.id) in r.1
    ensures obj.memory.Live? && Handles.Unmap(obj.memory.id) in r.1 ==>
      r.1[0] == Handles.Unmap(obj.memory.id) && r.1[1] == Handles.Destroy(Handles.MemoryObject, obj.memory.id)
    ensures |r.1| == (if obj.memory.Live? then (if unmapMemory && HasAll(obj.memoryProperties, Handles.MEMORY_PROPERTY_HOST_VISIBLE_BIT) then 2 else 1) else 0)
      + (if obj.value.Live? then 1 else 0)
  {
    var memoryCalls :=
      if obj.memory.Live? then
        (if unmapMemory && HasAll(obj.memoryProperties, Handles.MEMORY_PROPERTY_HOST_VISIBLE_BIT)
         then [Handles.Unmap(obj.memory.id)] else [])
        + [Handles.Destroy(Handles.MemoryObject, obj.memory.id)]
      else [];
    (obj.(value := Handles.Null, memory := Handles.Null), memoryCalls + Handles.Release(kind, obj.value))
  }

  /** A destroyed image or buffer can be destroyed again without any call. */
  lemma DestroyMemoryBackedIdempotent(kind: Handles.ObjectKind, obj: Handles.MemoryBacked, unmapMemory: bool)
    ensures var (o1, _) := DestroyMemoryBacked(kind, obj, unmapMemory);
      DestroyMemoryBacked(kind, o1, unmapMemory) == (o1, [])
  {
  }

  /** `destroyImages`/`destroyBuffers`: destroy each element in order, then clear. */
  function DestroyAllMemoryBacked(kind: Handles.ObjectKind, objs: seq<Handles.MemoryBacked>, unmapMemory: bool): (r: (seq<Handles.MemoryBacked>, seq<Handles.DriverCall>))
    ensures r.0 == []
    ensures forall i :: 0 <= i < |objs| && objs[i].value.Live? ==> Handles.Destroy(kind, objs[i].value.id) in r.1
    ensures forall i :: 0 <= i < |objs| && objs[i].memory.Live? ==> Handles.Destroy(Handles.MemoryObject, objs[i].memory.id) in r.1
    ensures (forall i :: 0 <= i < |objs| ==> objs[i].value.Null? && objs[i].memory.Null?) ==> r.1 == []
    ensures forall c :: c in r.1 ==> exists i :: 0 <= i < |objs| && Handles.CallOf(kind, objs[i], c)
    decreases |objs|
  {
    if |objs| == 0 then ([], [])
    else
      var first := DestroyMemoryBacked(kind, objs[0], unmapMemory).1;
      var rest := DestroyAllMemoryBacked(kind, objs[1..], unmapMemory).1;
      assert forall i :: 1 <= i < |objs| ==> objs[i] == objs[1..][i - 1];
      assert objs[0].memory.Live? ==> Handles.Destroy(Handles.MemoryObject, objs[0].memory.id) in first;
      Handles.CallsFromElements(kind, objs, first, rest);
      ([], first + rest)
  }

  /** A one-element vector issues exactly that element's `DestroyMemoryBacked` calls. */
  lemma DestroyAllMemoryBackedSingleton(kind: Handles.ObjectKind, o: Handles.MemoryBacked, unmapMemory: bool)
    ensures DestroyAllMemoryBacked(kind, [o], unmapMemory).1 == DestroyMemoryBacked(kind, o, unmapMemory).1
  {
    assert [o][1..] == [];
  }

  /** A concatenation issues the calls of its parts one after the other.
      With the singleton case this fixes the whole list, order included:
      each element's memory calls, then its object, in vector order. */
  lemma {:induction false} DestroyAllMemoryBackedConcat(kind: Handles.ObjectKind, a: seq<Handles.MemoryBacked>,
                                                       b: seq<Handles.MemoryBacked>, unmapMemory: bool)
    ensures DestroyAllMemoryBacked(kind, a + b, unmapMemory).1 ==
      DestroyAllMemoryBacked(kind, a, unmapMemory).1 + DestroyAllMemoryBacked(kind, b, unmapMemory).1
    decreases |a|
  {
    if |a| == 0 {
      assert a + b == b;
    } else {
      var ab := a + b;
      assert ab[0] == a[0] && ab[1..] == a[1..] + b;
      DestroyAllMemoryBackedConcat(kind, a[1..], b, unmapMemory);
      var first := DestroyMemoryBacked(kind, a[0], unmapMemory).1;
      var restA, restB := DestroyAllMemoryBacked(kind, a[1..], unmapMemory).1, DestroyAllMemoryBacked(kind, b, unmapMemory).1;
      assert DestroyAllMemoryBacked(kind, ab, unmapMemory).1 == first + (restA + restB);
      assert DestroyAllMemoryBacked(kind, a, unmapMemory).1 == first + restA;
      Handles.Reassociate(first, restA, restB);
    }
  }

  /** `Pipeline`: the pipeline handle and its layout. */
  datatype Pipeline = Pipeline(value: Handles.Handle, layout: Handles.Handle)

  /** `destroyPipeline`: the pipeline before its layout; both end up null. */
  function DestroyPipeline(p: Pipeline): (r: (Pipeline, seq<Handles.DriverCall>))
    ensures r.0 == Pipeline(Handles.Null, Handles.Null)
    ensures |r.1| == (if p.value.Live? then 1 else 0) + (if p.layout.Live? then 1 else 0)
    ensures p.value.Live? ==> r.1[0] == Handles.Destroy(Handles.PipelineObject, p.value.id)
    ensures p.layout.Live? ==> r.1[|r.1| - 1] == Handles.Destroy(Handles.PipelineLayoutObject, p.layout.id)
  {
    (Pipeline(Handles.Null, Handles.Null),
     Handles.Release(Handles.PipelineObject, p.value) + Handles.Release(Handles.PipelineLayoutObject, p.layout))
  }

  /** `SwapChain`: the handle and its extent (other fields are not touched by destroy). */
  datatype SwapChain = SwapChain(value: Handles.Handle, extent: Extent2D)

  /** `destroySwapChain`: destroy a live swap chain, then zero the extent. */
  function DestroySwapChain(s: SwapChain): (r: (SwapChain, seq<Handles.DriverCall>))
    ensures r.0.value.Null? && r.0.extent == Extent2D(0, 0)
    ensures r.1 == [] <==> s.value.Null?
  {
    var (h, calls) := Handles.DestroyHandle(Handles.SwapchainObject, s.value);
    (SwapChain(h, Extent2D(0, 0)), calls)
  }

  /** `Queue`: family index and handle. */
  datatype Queue = Queue(familyIndex: nat, value: Handles.Handle)

  /** `destroyQueue`: queues are owned by the device, so no call is issued;
      the fields are reset. */
  function DestroyQueue(q: Queue): (r: Queue)
    ensures r.familyIndex == 0 && r.value.Null?
  {
    Queue(0, Handles.Null)
  }
}
