/**
 * `CreateFunctions` (src/main/cpp/exqudens/vulkan/function/CreateFunctions.cpp):
 * the default configuration, the logger, and the instance, debug-messenger
 * and physical-device creation that delegate their checks to a
 * `UtilFunctions` pointer. Whether that pointer is null is `hasUtil`; the
 * driver's answers are parameters.
 */
module CreateFunctions {
  import opened Wrappers
  import opened VkTypes
  import opened QueueScan
  import UtilFunctions
  import LoggerLine
  import Search

  // ---------------------------------------------------------------------
  // createConfiguration

  datatype Version = Version(major: nat, minor: nat, patch: nat)

  /** The fields of `Configuration`; each `StringVector` is shown by its values. */
  datatype Configuration = Configuration(
    applicationName: string,
    applicationVersion: Version,
    engineName: string,
    engineVersion: Version,
    validationLayersEnabled: bool,
    validationLayers: seq<string>,
    extensions: seq<string>,
    deviceExtensions: seq<string>,
    computeQueueFamilyRequired: bool,
    transferQueueFamilyRequired: bool,
    graphicsQueueFamilyRequired: bool,
    presentQueueFamilyRequired: bool,
    anisotropyRequired: bool
  ) {
    /** The fields the device checks read. */
    function Requirements(): DeviceRequirements {
      DeviceRequirements(computeQueueFamilyRequired, transferQueueFamilyRequired, graphicsQueueFamilyRequired,
        presentQueueFamilyRequired, anisotropyRequired, deviceExtensions)
    }
  }

  const ValidationLayer := "VK_LAYER_KHRONOS_validation"
  const DebugUtilsExtension := "VK_EXT_debug_utils"

  /** `createConfiguration`: validation on with the Khronos layer, the debug
      utils instance extension, the swap-chain device extension, and every
      queue kind and anisotropy required. */
  function CreateConfiguration(): (r: Configuration)
    ensures r.applicationVersion == Version(1, 0, 0) && r.engineVersion == Version(1, 0, 0)
    ensures r.validationLayersEnabled && r.validationLayers == [ValidationLayer]
    ensures r.extensions == [DebugUtilsExtension]
    ensures r.Requirements() == UtilFunctions.EverythingRequired
  {
    Configuration("Exqudens Application", Version(1, 0, 0), "Engine Application", Version(1, 0, 0),
      true, [ValidationLayer], [DebugUtilsExtension], [UtilFunctions.SwapchainExtension],
      true, true, true, true, true)
  }

  // ---------------------------------------------------------------------
  // createLogger

  /** The line `createLogger(std::ostream&)`'s function writes (before
      `std::endl`); it reads back as its level, type and message. */
  function LoggerLineOf(severity: nat, messageType: nat, message: string): (r: string)
    ensures LoggerLine.Parse(r) == (LoggerLine.Level(severity), LoggerLine.TypeName(messageType), message)
  {
    LoggerLine.ParseLine(severity, messageType, message);
    LoggerLine.Line(severity, messageType, message)
  }

  // ---------------------------------------------------------------------
  // createInstance, createDebugUtilsMessenger

  /** The counts and chain of the `VkInstanceCreateInfo`. */
  datatype InstanceCreateInfo = InstanceCreateInfo(
    enabledExtensionCount: nat,
    enabledLayerCount: nat,
    debugMessengerChained: bool
  )

  /**
   * `createInstance`. `availableLayers` answers `checkValidationLayerSupport`
   * and `createOk` whether `vkCreateInstance` returned success. Returns the
   * create info that was passed.
   */
  function CreateInstance(hasUtil: bool, configuration: Configuration, availableLayers: seq<string>,
                          createOk: bool): (r: Result<InstanceCreateInfo, string>)
    ensures r.Ok? <==> (hasUtil && createOk
      && (configuration.validationLayersEnabled ==> NamesSupported(configuration.validationLayers, availableLayers)))
    ensures r.Ok? ==> r.value.enabledExtensionCount == ToUint32(|configuration.extensions|)
    ensures r.Ok? ==> (r.value.debugMessengerChained <==> configuration.validationLayersEnabled)
    ensures r.Ok? ==> (r.value.enabledLayerCount ==
      if configuration.validationLayersEnabled then ToUint32(|configuration.validationLayers|) else 0)
  {
    if !hasUtil then Err("'utilFunctions' is null!")
    else if configuration.validationLayersEnabled
      && !UtilFunctions.CheckValidationLayerSupport(configuration.validationLayers, availableLayers) then
      Err("validation layers requested, but not available!")
    else
      var info := InstanceCreateInfo(ToUint32(|configuration.extensions|),
        if configuration.validationLayersEnabled then ToUint32(|configuration.validationLayers|) else 0,
        configuration.validationLayersEnabled);
      if !createOk then Err("failed to create instance!") else Ok(info)
  }

  /** With validation off, the available layers are never consulted. */
  lemma LayersIgnoredWithoutValidation(hasUtil: bool, configuration: Configuration, layers1: seq<string>,
                                       layers2: seq<string>, createOk: bool)
    requires !configuration.validationLayersEnabled
    ensures CreateInstance(hasUtil, configuration, layers1, createOk) == CreateInstance(hasUtil, configuration, layers2, createOk)
  {
  }

  /** `createDebugUtilsMessenger`: `created` is the messenger the looked-up
      `vkCreateDebugUtilsMessengerEXT` produced on success; `None` when the
      function is missing (`VK_ERROR_EXTENSION_NOT_PRESENT`) or failed. */
  function CreateDebugUtilsMessenger(hasUtil: bool, functionFound: bool, created: Option<nat>): (r: Result<nat, string>)
    ensures r.Ok? <==> hasUtil && functionFound && created.Some?
    ensures r.Ok? ==> r.value == created.value
  {
    if !hasUtil then Err("'utilFunctions' is null!")
    else if !functionFound || created.None? then Err("failed to set up debug messenger!")
    else Ok(created.value)
  }

  // ---------------------------------------------------------------------
  // createPhysicalDevice

  predicate Accepted(configuration: Configuration, hasSurface: bool, device: DeviceInfo) {
    UtilFunctions.IsDeviceSuitable(configuration.Requirements(), hasSurface, device) == Ok(true)
  }

  /**
   * `createPhysicalDevice(instance, configuration, surface)`: checks the
   * pointer, the present/surface pairing and the device count, then takes
   * the first device `isDeviceSuitable` accepts.
   */
  function CreatePhysicalDevice(hasUtil: bool, configuration: Configuration, hasSurface: bool,
                                devices: seq<DeviceInfo>): (r: Result<nat, string>)
    ensures r.Ok? ==> r.value < |devices| && Accepted(configuration, hasSurface, devices[r.value])
    ensures r.Ok? ==> forall j :: 0 <= j < r.value ==> !Accepted(configuration, hasSurface, devices[j])
    ensures r.Err? <==> (!hasUtil || (configuration.presentQueueFamilyRequired && !hasSurface)
      || forall j :: 0 <= j < |devices| ==> !Accepted(configuration, hasSurface, devices[j]))
  {
    if !hasUtil then Err("'utilFunctions' is null!")
    else if configuration.presentQueueFamilyRequired && !hasSurface then
      Err("'configuration.presentQueueFamilyRequired': true but 'surface' is null!")
    else if |devices| == 0 then Err("failed to find GPUs with Vulkan support!")
    else match Search.FirstIndex(devices, (d: DeviceInfo) => Accepted(configuration, hasSurface, d))
      case None => Err("failed to find a suitable GPU!")
      case Some(i) => Ok(i)
  }

  /**
   * The chosen device, in the device's own terms: its families cover the
   * transfer, graphics and present kinds as configured (compute is not
   * checked), its extensions include the configured ones, a surface comes
   * with formats and present modes, and anisotropy is there if required.
   * The guard makes `isDeviceSuitable`'s own exception unreachable.
   */
  lemma CreatePhysicalDeviceMeaning(hasUtil: bool, configuration: Configuration, hasSurface: bool, devices: seq<DeviceInfo>)
    ensures var r := CreatePhysicalDevice(hasUtil, configuration, hasSurface, devices);
      r.Ok? ==> var d := devices[r.value];
        && Covered(d.families, UtilFunctions.Stopping(configuration.computeQueueFamilyRequired,
             configuration.transferQueueFamilyRequired, configuration.graphicsQueueFamilyRequired, hasSurface), |d.families|)
        && NamesSupported(configuration.deviceExtensions, d.extensionNames)
        && (hasSurface ==> |d.swapChainSupport.formats| > 0 && |d.swapChainSupport.presentModes| > 0)
        && (configuration.anisotropyRequired ==> d.samplerAnisotropy)
    ensures hasUtil && !(configuration.presentQueueFamilyRequired && !hasSurface) ==>
      forall j :: 0 <= j < |devices| ==> UtilFunctions.IsDeviceSuitable(configuration.Requirements(), hasSurface, devices[j]).Ok?
  {
    var r := CreatePhysicalDevice(hasUtil, configuration, hasSurface, devices);
    if r.Ok? {
      UtilFunctions.IsDeviceSuitableMeaning(configuration.Requirements(), hasSurface, devices[r.value]);
    }
    forall j | 0 <= j < |devices|
      ensures hasUtil && !(configuration.presentQueueFamilyRequired && !hasSurface) ==>
        UtilFunctions.IsDeviceSuitable(configuration.Requirements(), hasSurface, devices[j]).Ok?
    {
      UtilFunctions.IsDeviceSuitableMeaning(configuration.Requirements(), hasSurface, devices[j]);
    }
  }

  /** With the default configuration and a surface, the single-family device
      without compute is chosen even though compute is required. */
  lemma DefaultConfigurationAcceptsNoComputeDevice()
    ensures CreatePhysicalDevice(true, CreateConfiguration(), true, [UtilFunctions.NoComputeDevice]) == Ok(0)
  {
    UtilFunctions.ComputeRequirementIgnored();
  }
}
