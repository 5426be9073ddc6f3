/**
 * Plain-data views of the Vulkan query results the library inspects.
 * Every driver query (`vkGetPhysicalDevice*`, `enumerate*`) is replaced by
 * one of these values, handed in by the caller. Numeric codes and bit values
 * are those of the Vulkan headers.
 */
module VkTypes {

  type Flags = bv32

  /** `(flags & required) == required`: every bit of `required` is set. */
  predicate HasAll(flags: Flags, required: Flags) {
    flags & required == required
  }

  /** `flags & bit` is non-zero. */
  predicate HasAny(flags: Flags, bits: Flags) {
    flags & bits != 0
  }

  // VkQueueFlagBits
  const QUEUE_GRAPHICS_BIT: Flags := 0x1
  const QUEUE_COMPUTE_BIT: Flags := 0x2
  const QUEUE_TRANSFER_BIT: Flags := 0x4

  /** One `VkQueueFamilyProperties` entry, together with the answer of
      `vkGetPhysicalDeviceSurfaceSupportKHR` for the surface in use. */
  datatype QueueFamily = QueueFamily(queueFlags: Flags, queueCount: nat, presentSupport: bool)

  // VkFormat codes used by the selection rules
  const FORMAT_UNDEFINED: nat := 0
  const FORMAT_B8G8R8A8_SRGB: nat := 50
  const FORMAT_D32_SFLOAT: nat := 126
  const FORMAT_D24_UNORM_S8_UINT: nat := 129
  const FORMAT_D32_SFLOAT_S8_UINT: nat := 130

  // VkColorSpaceKHR
  const COLOR_SPACE_SRGB_NONLINEAR: nat := 0

  // VkPresentModeKHR
  const PRESENT_MODE_IMMEDIATE: nat := 0
  const PRESENT_MODE_MAILBOX: nat := 1
  const PRESENT_MODE_FIFO: nat := 2

  // VkSurfaceTransformFlagBitsKHR
  const SURFACE_TRANSFORM_IDENTITY_BIT: Flags := 0x1

  // VkCompositeAlphaFlagBitsKHR
  const COMPOSITE_ALPHA_OPAQUE_BIT: Flags := 0x1
  const COMPOSITE_ALPHA_PRE_MULTIPLIED_BIT: Flags := 0x2
  const COMPOSITE_ALPHA_POST_MULTIPLIED_BIT: Flags := 0x4
  const COMPOSITE_ALPHA_INHERIT_BIT: Flags := 0x8

  // VkImageTiling
  const IMAGE_TILING_OPTIMAL: nat := 0
  const IMAGE_TILING_LINEAR: nat := 1

  // VkFormatFeatureFlagBits
  const FORMAT_FEATURE_DEPTH_STENCIL_ATTACHMENT_BIT: Flags := 0x200

  // VkSharingMode
  datatype SharingMode = Exclusive | Concurrent

  datatype SurfaceFormat = SurfaceFormat(format: nat, colorSpace: nat)

  datatype Extent2D = Extent2D(width: nat, height: nat)

  /** `VkSurfaceCapabilitiesKHR`, restricted to the fields the rules read. */
  datatype SurfaceCapabilities = SurfaceCapabilities(
    minImageCount: nat,
    maxImageCount: nat,
    currentExtent: Extent2D,
    minImageExtent: Extent2D,
    maxImageExtent: Extent2D,
    supportedTransforms: Flags,
    currentTransform: Flags,
    supportedCompositeAlpha: Flags
  )

  /** `SwapChainSupportDetails`: capabilities, formats and present modes. */
  datatype SwapChainSupport = SwapChainSupport(
    capabilities: SurfaceCapabilities,
    formats: seq<SurfaceFormat>,
    presentModes: seq<nat>
  )

  datatype MemoryType = MemoryType(propertyFlags: Flags, heapIndex: nat)

  datatype FormatProperties = FormatProperties(linearTilingFeatures: Flags, optimalTilingFeatures: Flags)

  /**
   * Everything the device-selection code asks of one physical device.
   * `families[i].presentSupport` is the answer for the surface in use, if any.
   */
  datatype DeviceInfo = DeviceInfo(
    families: seq<QueueFamily>,
    extensionNames: seq<string>,
    swapChainSupport: SwapChainSupport,
    samplerAnisotropy: bool
  )

  /** The configuration fields the device-selection variants read. */
  datatype DeviceRequirements = DeviceRequirements(
    computeQueueFamilyRequired: bool,
    transferQueueFamilyRequired: bool,
    graphicsQueueFamilyRequired: bool,
    presentQueueFamilyRequired: bool,
    anisotropyRequired: bool,
    deviceExtensions: seq<string>
  )

  /** Subset test on names: every required name occurs among the available
      ones (the `std::set::erase` loops of the source). */
  predicate NamesSupported(required: seq<string>, available: seq<string>) {
    forall n :: n in required ==> n in available
  }

  /**
   * The extension check shared by every device-selection variant: start from
   * the set of required names and erase each available name in turn; the
   * device is adequate when nothing is left.
   */
  function RemainingRequired(required: set<string>, available: seq<string>): set<string>
    decreases |available|
  {
    if |available| == 0 then required
    else RemainingRequired(required - {available[0]}, available[1..])
  }

  /** The erase loop leaves exactly the required names that are not available. */
  lemma {:induction false} RemainingRequiredIsDifference(required: set<string>, available: seq<string>)
    ensures RemainingRequired(required, available) == required - NameSet(available)
    decreases |available|
  {
    if |available| > 0 {
      RemainingRequiredIsDifference(required - {available[0]}, available[1..]);
      assert NameSet(available) == {available[0]} + NameSet(available[1..]);
    }
  }

  function NameSet(names: seq<string>): set<string> {
    set n | n in names
  }

  function ExtensionsSupported(required: seq<string>, available: seq<string>): bool {
    RemainingRequired(NameSet(required), available) == {}
  }

  /** The erase loop answers exactly the subset question. */
  lemma ExtensionsSupportedIffSubset(required: seq<string>, available: seq<string>)
    ensures ExtensionsSupported(required, available) <==> NamesSupported(required, available)
  {
    RemainingRequiredIsDifference(NameSet(required), available);
    if !NamesSupported(required, available) {
      var n :| n in required && n !in available;
      assert n in RemainingRequired(NameSet(required), available);
    }
  }

  /**
   * The layer check shared by the validation-layer variants: for each
   * requested name in order, scan the available names; the first name not
   * found answers `false`.
   */
  function LayersFound(requested: seq<string>, available: seq<string>): bool
    decreases |requested|
  {
    if |requested| == 0 then true
    else if requested[0] !in available then false
    else LayersFound(requested[1..], available)
  }

  /** The nested loop answers the subset question; an empty request answers true. */
  lemma {:induction false} LayersFoundIffSubset(requested: seq<string>, available: seq<string>)
    ensures LayersFound(requested, available) <==> NamesSupported(requested, available)
    decreases |requested|
  {
    if |requested| > 0 {
      LayersFoundIffSubset(requested[1..], available);
      assert forall n :: n in requested <==> n == requested[0] || n in requested[1..];
    }
  }
}
