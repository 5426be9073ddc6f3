/**
 * `Utility` (src/main/cpp/exqudens/vulkan/Utility.hpp): swap-chain create
 * info, depth-format and memory-type selection for the `vulkan.hpp` layer.
 */
module Utility {
  import opened Wrappers
  import opened VkTypes
  import Search
  import Factory

  /** The surface format `vk::Format::eUndefined` converts to when compared
      with a `vk::SurfaceFormatKHR`: undefined format, sRGB non-linear. */
  const UndefinedSurfaceFormat := SurfaceFormat(FORMAT_UNDEFINED, COLOR_SPACE_SRGB_NONLINEAR)

  /**
   * The format choice of `swapChainCreateInfo`: a list holding only the
   * undefined format is taken as is; otherwise the first B8G8R8A8_SRGB /
   * SRGB_NONLINEAR entry; with neither, nothing (the later `.value()` throws).
   */
  function ChooseSurfaceFormat(formats: seq<SurfaceFormat>): (r: Option<SurfaceFormat>)
    ensures |formats| == 1 && formats[0] == UndefinedSurfaceFormat ==> r == Some(UndefinedSurfaceFormat)
    ensures !(|formats| == 1 && formats[0] == UndefinedSurfaceFormat) ==>
      (r.Some? <==> exists f :: f in formats && Factory.IsPreferredFormat(f))
    ensures !(|formats| == 1 && formats[0] == UndefinedSurfaceFormat) && r.Some? ==>
      Factory.IsPreferredFormat(r.value) && r.value in formats
  {
    if |formats| == 1 && formats[0] == UndefinedSurfaceFormat then Some(formats[0])
    else match Search.FirstIndex(formats, Factory.IsPreferredFormat)
      case Some(i) => Some(formats[i])
      case None => None
  }

  /** Where both succeed on a list that is not the single undefined entry,
      this choice and `Factory::chooseSwapSurfaceFormat` agree; unlike the
      factory, this one never falls back to the first entry. */
  lemma ChooseSurfaceFormatAgreesWithFactory(formats: seq<SurfaceFormat>)
    requires |formats| > 0
    requires !(|formats| == 1 && formats[0] == UndefinedSurfaceFormat)
    ensures ChooseSurfaceFormat(formats).Some? ==> ChooseSurfaceFormat(formats).value == Factory.ChooseSwapSurfaceFormat(formats)
    ensures ChooseSurfaceFormat(formats).None? <==> !Factory.IsPreferredFormat(Factory.ChooseSwapSurfaceFormat(formats))
  {
  }

  /** Identity when supported, otherwise the current transform. */
  function ChooseTransform(caps: SurfaceCapabilities): (r: Flags)
    ensures HasAny(caps.supportedTransforms, SURFACE_TRANSFORM_IDENTITY_BIT) ==> r == SURFACE_TRANSFORM_IDENTITY_BIT
    ensures !HasAny(caps.supportedTransforms, SURFACE_TRANSFORM_IDENTITY_BIT) ==> r == caps.currentTransform
  {
    if HasAny(caps.supportedTransforms, SURFACE_TRANSFORM_IDENTITY_BIT) then SURFACE_TRANSFORM_IDENTITY_BIT
    else caps.currentTransform
  }

  /** The composite-alpha bits in order of preference; opaque is the fallback. */
  const CompositeAlphaPreference: seq<Flags> :=
    [COMPOSITE_ALPHA_PRE_MULTIPLIED_BIT, COMPOSITE_ALPHA_POST_MULTIPLIED_BIT, COMPOSITE_ALPHA_INHERIT_BIT]

  /** The composite-alpha choice: the most preferred supported bit, or
      opaque when none of them is supported. */
  function ChooseCompositeAlpha(supported: Flags): (r: Flags)
    ensures r == COMPOSITE_ALPHA_OPAQUE_BIT <==>
      forall k :: 0 <= k < |CompositeAlphaPreference| ==> !HasAny(supported, CompositeAlphaPreference[k])
    ensures r != COMPOSITE_ALPHA_OPAQUE_BIT ==> exists k :: (0 <= k < |CompositeAlphaPreference|
      && r == CompositeAlphaPreference[k] && HasAny(supported, r)
      && forall j :: 0 <= j < k ==> !HasAny(supported, CompositeAlphaPreference[j]))
  {
    var p := CompositeAlphaPreference;
    if HasAny(supported, COMPOSITE_ALPHA_PRE_MULTIPLIED_BIT) then
      assert p[0] == COMPOSITE_ALPHA_PRE_MULTIPLIED_BIT;
      COMPOSITE_ALPHA_PRE_MULTIPLIED_BIT
    else if HasAny(supported, COMPOSITE_ALPHA_POST_MULTIPLIED_BIT) then
      assert p[1] == COMPOSITE_ALPHA_POST_MULTIPLIED_BIT && !HasAny(supported, p[0]);
      COMPOSITE_ALPHA_POST_MULTIPLIED_BIT
    else if HasAny(supported, COMPOSITE_ALPHA_INHERIT_BIT) then
      assert p[2] == COMPOSITE_ALPHA_INHERIT_BIT && !HasAny(supported, p[0]) && !HasAny(supported, p[1]);
      COMPOSITE_ALPHA_INHERIT_BIT
    else
      assert forall k :: 0 <= k < |p| ==> p[k] in {p[0], p[1], p[2]};
      COMPOSITE_ALPHA_OPAQUE_BIT
  }

  /**
   * `swapChainCreateInfo`: the create info for the surface's formats, present
   * modes and capabilities. It fails only when no format can be chosen.
   */
  function SwapChainCreateInfo(formats: seq<SurfaceFormat>, presentModes: seq<nat>, caps: SurfaceCapabilities,
                               width: nat, height: nat, graphicsQueueFamilyIndex: nat, presentQueueFamilyIndex: nat)
    : (r: Result<Factory.SwapChainCreateInfo, string>)
    ensures r.Err? <==> ChooseSurfaceFormat(formats).None?
    ensures r.Ok? ==>
      && r.value.imageFormat == ChooseSurfaceFormat(formats).value.format
      && r.value.imageColorSpace == ChooseSurfaceFormat(formats).value.colorSpace
      && r.value.minImageCount == caps.minImageCount
      && r.value.imageArrayLayers == 1
      && r.value.clipped
      && r.value.presentMode == Factory.ChooseSwapPresentMode(presentModes)
      && r.value.imageExtent == Factory.ChooseSwapExtent(caps, width, height)
      && (r.value.imageSharingMode == Concurrent <==> graphicsQueueFamilyIndex != presentQueueFamilyIndex)
      && (r.value.imageSharingMode == Concurrent ==> r.value.queueFamilyIndices == [graphicsQueueFamilyIndex, presentQueueFamilyIndex])
      && (r.value.imageSharingMode == Exclusive ==> r.value.queueFamilyIndices == [])
      && r.value.preTransform == ChooseTransform(caps)
      && r.value.compositeAlpha == ChooseCompositeAlpha(caps.supportedCompositeAlpha)
  {
    match ChooseSurfaceFormat(formats)
    case None => Err("bad optional access")
    case Some(surfaceFormat) =>
      var distinct := graphicsQueueFamilyIndex != presentQueueFamilyIndex;
      Ok(Factory.SwapChainCreateInfo(
        caps.minImageCount, surfaceFormat.format, surfaceFormat.colorSpace,
        Factory.ChooseSwapExtent(caps, width, height), 1,
        if distinct then Concurrent else Exclusive,
        if distinct then [graphicsQueueFamilyIndex, presentQueueFamilyIndex] else [],
        ChooseTransform(caps), ChooseCompositeAlpha(caps.supportedCompositeAlpha),
        Factory.ChooseSwapPresentMode(presentModes), true))
  }

  /** `imageDepthFormat(physicalDevice, formats, tiling, features)`: the first
      candidate supporting `features` under `tiling`; an exception when none. */
  function ImageDepthFormatOf(formats: seq<nat>, query: nat -> FormatProperties, tiling: nat, features: Flags): (r: Result<nat, string>)
    ensures r.Ok? ==> r.value in formats && Factory.FormatMatches(query(r.value), tiling, features)
    ensures r.Err? <==> forall f :: f in formats ==> !Factory.FormatMatches(query(f), tiling, features)
    ensures r.Ok? ==> r == Factory.FindSupportedFormat(formats, query, tiling, features)
  {
    match Search.FirstIndex(formats, f => Factory.FormatMatches(query(f), tiling, features))
    case Some(i) => Ok(formats[i])
    case None => Err("failed to find image depth format!")
  }

  /** `imageDepthFormat(physicalDevice)`: the same candidates, tiling and
      feature as `Factory::findDepthFormat`, with the same answer. */
  function ImageDepthFormat(query: nat -> FormatProperties): (r: Result<nat, string>)
    ensures r.Ok? <==> Factory.FindDepthFormat(query).Ok?
    ensures r.Ok? ==> r.value == Factory.FindDepthFormat(query).value
  {
    ImageDepthFormatOf(Factory.DepthCandidates, query, IMAGE_TILING_OPTIMAL, FORMAT_FEATURE_DEPTH_STENCIL_ATTACHMENT_BIT)
  }

  // ---------------------------------------------------------------------
  // Memory type index

  /** The message of the exception `memoryTypeIndex` throws. */
  const MEMORY_TYPE_ERROR := "failed to find memory type index!"

  /**
   * `memoryTypeIndex` as written: the loop tests `typeBits & 1` at every
   * index, i.e. always bit 0, instead of bit `i`. So an odd `typeBits`
   * accepts the first type with the required properties, whether its own
   * bit is set or not, and an even `typeBits` rejects every type.
   */
  function MemoryTypeIndexAsWritten(types: seq<MemoryType>, typeBits: Flags, requirementsMask: Flags, i: nat): (r: Result<nat, string>)
    requires i <= |types|
    ensures typeBits & 1 == 0 ==> r.Err?
    ensures typeBits & 1 != 0 ==>
      (r.Err? <==> forall j :: i <= j < |types| ==> !HasAll(types[j].propertyFlags, requirementsMask))
    ensures r.Ok? ==> i <= r.value < |types| && HasAll(types[r.value].propertyFlags, requirementsMask)
    ensures r.Ok? ==> forall j :: i <= j < r.value ==> !HasAll(types[j].propertyFlags, requirementsMask)
    ensures r.Err? ==> r.error == MEMORY_TYPE_ERROR
    decreases |types| - i
  {
    if i == |types| then Err(MEMORY_TYPE_ERROR)
    else if typeBits & 1 != 0 && HasAll(types[i].propertyFlags, requirementsMask) then Ok(i)
    else MemoryTypeIndexAsWritten(types, typeBits, requirementsMask, i + 1)
  }

  /** Bit `i` of `bits`, read by shifting right, is the bit `Factory.Bit(i)` selects. */
  lemma ShiftedBit(bits: Flags, i: nat)
    requires i < 32
    ensures (bits >> i) & 1 != 0 <==> HasAny(bits, Factory.Bit(i))
  {
  }

  /**
   * `memoryTypeIndex` corrected: test bit `i` of `typeBits`, as
   * `Factory::findMemoryType` does. From index `i` on, it answers the lowest
   * matching index at or after `i`, or fails when there is none.
   */
  function MemoryTypeIndexFrom(types: seq<MemoryType>, typeBits: Flags, requirementsMask: Flags, i: nat): (r: Result<nat, string>)
    requires i <= |types| <= Factory.MAX_MEMORY_TYPES
    ensures r.Ok? ==> i <= r.value < |types| && Factory.MemoryTypeMatches(types, typeBits, requirementsMask, r.value)
    ensures r.Ok? ==> forall j :: i <= j < r.value ==> !Factory.MemoryTypeMatches(types, typeBits, requirementsMask, j)
    ensures r.Err? <==> forall j :: i <= j < |types| ==> !Factory.MemoryTypeMatches(types, typeBits, requirementsMask, j)
    ensures r.Err? ==> r.error == MEMORY_TYPE_ERROR
    decreases |types| - i
  {
    if i == |types| then Err(MEMORY_TYPE_ERROR)
    else
      ShiftedBit(typeBits, i);
      if (typeBits >> i) & 1 != 0 && HasAll(types[i].propertyFlags, requirementsMask) then Ok(i)
      else MemoryTypeIndexFrom(types, typeBits, requirementsMask, i + 1)
  }

  function MemoryTypeIndex(types: seq<MemoryType>, typeBits: Flags, requirementsMask: Flags): (r: Result<nat, string>)
    requires |types| <= Factory.MAX_MEMORY_TYPES
    ensures r.Ok? ==> r.value < |types| && Factory.MemoryTypeMatches(types, typeBits, requirementsMask, r.value)
    ensures r.Ok? ==> forall j :: 0 <= j < r.value ==> !Factory.MemoryTypeMatches(types, typeBits, requirementsMask, j)
    ensures r.Err? <==> forall j :: 0 <= j < |types| ==> !Factory.MemoryTypeMatches(types, typeBits, requirementsMask, j)
    ensures r.Err? ==> r.error == MEMORY_TYPE_ERROR
  {
    MemoryTypeIndexFrom(types, typeBits, requirementsMask, 0)
  }

  /** Every bit of a 32-bit mask set. */
  const ALL_BITS: Flags := 0xFFFF_FFFF

  /**
   * Over all inputs, the loop as written is the corrected search with
   * `typeBits` replaced by all bits when bit 0 is set and by no bit
   * otherwise: bits 1 to 31 are never consulted.
   */
  lemma MemoryTypeIndexAsWrittenMeaning(types: seq<MemoryType>, typeBits: Flags, requirementsMask: Flags)
    requires |types| <= Factory.MAX_MEMORY_TYPES
    ensures MemoryTypeIndexAsWritten(types, typeBits, requirementsMask, 0) ==
      MemoryTypeIndex(types, if typeBits & 1 != 0 then ALL_BITS else 0, requirementsMask)
  {
    var wide: Flags := if typeBits & 1 != 0 then ALL_BITS else 0;
    forall j | 0 <= j < |types|
      ensures Factory.MemoryTypeMatches(types, wide, requirementsMask, j) <==>
        typeBits & 1 != 0 && HasAll(types[j].propertyFlags, requirementsMask)
    {
      assert Factory.Bit(j) != 0;
    }
  }

  const TwoHostTypes := [MemoryType(0x1, 0), MemoryType(0x1, 0)]

  /** With `typeBits == 2` type 1 is allowed and has the properties, yet the
      loop as written fails; the corrected loop answers type 1. */
  lemma MemoryTypeIndexCounterexample()
    ensures MemoryTypeIndexAsWritten(TwoHostTypes, 2, 1, 0).Err?
    ensures Factory.MemoryTypeMatches(TwoHostTypes, 2, 1, 1)
    ensures MemoryTypeIndex(TwoHostTypes, 2, 1) == Ok(1)
  {
    assert Factory.MemoryTypeMatches(TwoHostTypes, 2, 1, 1);
  }

  /** With `typeBits == 1` only type 0 is allowed, and it lacks the
      properties; the loop as written accepts type 1, whose bit is clear,
      while the corrected loop fails. */
  lemma MemoryTypeIndexAcceptsClearBit()
    ensures MemoryTypeIndexAsWritten([MemoryType(0x0, 0), MemoryType(0x1, 0)], 1, 1, 0) == Ok(1)
    ensures !Factory.MemoryTypeMatches([MemoryType(0x0, 0), MemoryType(0x1, 0)], 1, 1, 1)
    ensures MemoryTypeIndex([MemoryType(0x0, 0), MemoryType(0x1, 0)], 1, 1).Err?
  {
  }
}
