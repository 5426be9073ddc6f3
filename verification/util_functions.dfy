/**
 * `UtilFunctions` (src/main/cpp/exqudens/vulkan/function/UtilFunctions.cpp):
 * the older device-selection helpers. Their queue-family scan records all
 * four kinds but stops on `QueueFamilyIndices::isComplete`, which ignores
 * compute.
 */
module UtilFunctions {
  import opened Wrappers
  import opened VkTypes
  import opened QueueScan
  import QFI = QueueFamilyIndices
  import Factory
  import RaiiUtility

  /** `checkValidationLayerSupport`: every requested layer is available. */
  function CheckValidationLayerSupport(validationLayers: seq<string>, availableLayers: seq<string>): (r: bool)
    ensures r <==> NamesSupported(validationLayers, availableLayers)
  {
    LayersFoundIffSubset(validationLayers, availableLayers);
    LayersFound(validationLayers, availableLayers)
  }

  /**
   * `checkDeviceExtensionSupport`: every required extension is available.
   * It runs the same erase loop as `raii::Utility::isDeviceExtensionSupported`,
   * so it is that function.
   */
  function CheckDeviceExtensionSupport(deviceExtensions: seq<string>, availableExtensions: seq<string>): (r: bool)
    ensures r <==> NamesSupported(deviceExtensions, availableExtensions)
  {
    RaiiUtility.IsDeviceExtensionSupported(deviceExtensions, availableExtensions)
  }

  /** The requirements `findQueueFamilies` records. */
  function Recorded(computeRequired: bool, transferRequired: bool, graphicsRequired: bool, hasSurface: bool): Requirements {
    Requirements(computeRequired, transferRequired, graphicsRequired, hasSurface)
  }

  /** The requirements its loop stops on (`isComplete`). */
  function Stopping(computeRequired: bool, transferRequired: bool, graphicsRequired: bool, hasSurface: bool): Requirements {
    Requirements(false, transferRequired, graphicsRequired, hasSurface)
  }

  /** `findQueueFamilies`: scan, recording every required kind, until `isComplete`. */
  function FindQueueFamilies(families: seq<QueueFamily>, computeRequired: bool, transferRequired: bool,
                             graphicsRequired: bool, hasSurface: bool): QFI.Indices
  {
    var (slots, _) := Scan(families, Recorded(computeRequired, transferRequired, graphicsRequired, hasSurface),
      Stopping(computeRequired, transferRequired, graphicsRequired, hasSurface), NoFamilies, 0);
    QFI.Indices(computeRequired, slots.compute, transferRequired, slots.transfer,
                graphicsRequired, slots.graphics, hasSurface, slots.present)
  }

  /**
   * The result is complete iff all families together support transfer,
   * graphics and present as required (compute never matters, and zero
   * families are complete when none of these is required). A complete
   * result over at least one family holds the slots of the shortest
   * non-empty prefix that is complete, where the loop breaks; otherwise
   * the loop runs to the end and the slots are those of all families.
   */
  lemma FindQueueFamiliesMeaning(families: seq<QueueFamily>, computeRequired: bool, transferRequired: bool,
                                 graphicsRequired: bool, hasSurface: bool)
    ensures var r := FindQueueFamilies(families, computeRequired, transferRequired, graphicsRequired, hasSurface);
      var req := Recorded(computeRequired, transferRequired, graphicsRequired, hasSurface);
      var stop := Stopping(computeRequired, transferRequired, graphicsRequired, hasSurface);
      && r.Required() == req
      && (QFI.IsComplete(r) <==> Covered(families, stop, |families|))
      && (QFI.IsComplete(r) && |families| > 0 ==>
            exists l :: FirstCover(families, stop, l) && r.Slots() == SlotsAt(families, req, l))
      && (!QFI.IsComplete(r) || |families| == 0 ==> r.Slots() == SlotsAt(families, req, |families|))
  {
    var req := Recorded(computeRequired, transferRequired, graphicsRequired, hasSurface);
    var stop := Stopping(computeRequired, transferRequired, graphicsRequired, hasSurface);
    var r := FindQueueFamilies(families, computeRequired, transferRequired, graphicsRequired, hasSurface);
    ScanFromStart(families, req, stop);
    var (slots, broke) := Scan(families, req, stop, NoFamilies, 0);
    assert r.Slots() == slots;
    QFI.IsCompleteIgnoresCompute(r, false, None);
    assert QFI.IsComplete(r) <==> AllFound(stop, slots);
    if broke {
      var l :| FirstCover(families, stop, l) && slots == SlotsAt(families, req, l);
      AllFoundAt(families, req, stop, l);
    } else {
      AllFoundAt(families, req, stop, |families|);
    }
  }

  /** `isDeviceSuitable`: an exception when present is required without a
      surface; otherwise the four criteria with `isComplete` for the queues. */
  function IsDeviceSuitable(config: DeviceRequirements, hasSurface: bool, device: DeviceInfo): Result<bool, string> {
    if config.presentQueueFamilyRequired && !hasSurface then
      Err("presentQueueFamilyRequired: true but surface is null!")
    else
      var familyIndices := FindQueueFamilies(device.families, config.computeQueueFamilyRequired,
        config.transferQueueFamilyRequired, config.graphicsQueueFamilyRequired, hasSurface);
      var extensionsSupported := CheckDeviceExtensionSupport(config.deviceExtensions, device.extensionNames);
      var swapChainAdequate :=
        if extensionsSupported && hasSurface
        then |device.swapChainSupport.formats| > 0 && |device.swapChainSupport.presentModes| > 0
        else !hasSurface;
      var anisotropyAdequate := !config.anisotropyRequired || device.samplerAnisotropy;
      Ok(QFI.IsComplete(familyIndices) && extensionsSupported && swapChainAdequate && anisotropyAdequate)
  }

  /** What `isDeviceSuitable` answers, stated on the device's data. */
  lemma IsDeviceSuitableMeaning(config: DeviceRequirements, hasSurface: bool, device: DeviceInfo)
    ensures IsDeviceSuitable(config, hasSurface, device).Err? <==> config.presentQueueFamilyRequired && !hasSurface
    ensures IsDeviceSuitable(config, hasSurface, device) == Ok(true) <==>
      && !(config.presentQueueFamilyRequired && !hasSurface)
      && Covered(device.families, Stopping(config.computeQueueFamilyRequired, config.transferQueueFamilyRequired,
           config.graphicsQueueFamilyRequired, hasSurface), |device.families|)
      && NamesSupported(config.deviceExtensions, device.extensionNames)
      && (hasSurface ==> |device.swapChainSupport.formats| > 0 && |device.swapChainSupport.presentModes| > 0)
      && (config.anisotropyRequired ==> device.samplerAnisotropy)
  {
    FindQueueFamiliesMeaning(device.families, config.computeQueueFamilyRequired,
      config.transferQueueFamilyRequired, config.graphicsQueueFamilyRequired, hasSurface);
  }

  /** Every device the factory's rule accepts is accepted here too: the
      factory demands strictly more of the queue families. */
  lemma FactorySuitableImpliesSuitable(config: DeviceRequirements, hasSurface: bool, device: DeviceInfo)
    requires !(config.presentQueueFamilyRequired && !hasSurface)
    requires Factory.Suitable(config, hasSurface, device)
    ensures IsDeviceSuitable(config, hasSurface, device) == Ok(true)
  {
    var req := Recorded(config.computeQueueFamilyRequired, config.transferQueueFamilyRequired,
      config.graphicsQueueFamilyRequired, hasSurface);
    var stop := Stopping(config.computeQueueFamilyRequired, config.transferQueueFamilyRequired,
      config.graphicsQueueFamilyRequired, hasSurface);
    Factory.FindQueueFamiliesMeaning(device.families, config.computeQueueFamilyRequired,
      config.transferQueueFamilyRequired, config.graphicsQueueFamilyRequired, hasSurface);
    Factory.SuitableMeaning(config, hasSurface, device);
    assert Covered(device.families, req, |device.families|);
    assert Covered(device.families, stop, |device.families|) by {
      forall k | stop.Requires(k) ensures LastMatch(device.families, k, |device.families|).Some? {
        assert req.Requires(k);
      }
    }
    IsDeviceSuitableMeaning(config, hasSurface, device);
  }

  const SwapchainExtension := "VK_KHR_swapchain"

  /** A device whose only family does graphics, transfer and present. */
  const NoComputeDevice := DeviceInfo(
    [QueueFamily(QUEUE_GRAPHICS_BIT | QUEUE_TRANSFER_BIT, 1, true)],
    [SwapchainExtension],
    SwapChainSupport(SurfaceCapabilities(2, 8, Extent2D(800, 600), Extent2D(1, 1), Extent2D(4096, 4096), 1, 1, 1),
      [SurfaceFormat(FORMAT_B8G8R8A8_SRGB, COLOR_SPACE_SRGB_NONLINEAR)], [PRESENT_MODE_FIFO]),
    true)

  const EverythingRequired := DeviceRequirements(true, true, true, true, true, [SwapchainExtension])

  /** With compute required, this rule still accepts a device that has no
      compute family, while the factory's rule rejects it. */
  lemma ComputeRequirementIgnored()
    ensures IsDeviceSuitable(EverythingRequired, true, NoComputeDevice) == Ok(true)
    ensures !Factory.Suitable(EverythingRequired, true, NoComputeDevice)
  {
    var families := NoComputeDevice.families;
    assert !Supports(families[0], Compute);
    assert LastMatch(families, Compute, 1).None?;
    Factory.FindQueueFamiliesMeaning(families, true, true, true, true);
    var stop := Stopping(true, true, true, true);
    assert Covered(families, stop, 1) by {
      forall k | stop.Requires(k) ensures LastMatch(families, k, 1).Some? {
        assert Supports(families[0], k);
      }
    }
    IsDeviceSuitableMeaning(EverythingRequired, true, NoComputeDevice);
  }

  /** With no family at all and nothing required, `isComplete` holds here
      while the factory's `complete` flag stays false. */
  lemma ZeroFamiliesComplete()
    ensures QFI.IsComplete(FindQueueFamilies([], false, false, false, false))
    ensures !Factory.FindQueueFamilies([], false, false, false, false).complete
  {
  }
}
