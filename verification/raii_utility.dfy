/**
 * `raii::Utility` (src/main/cpp/exqudens/vulkan/raii/Utility.hpp): the
 * selection helpers of the RAII wrapper layer. Unlike the other variants,
 * they list every matching queue family and every adequate device instead
 * of stopping at the first.
 */
module RaiiUtility {
  import opened Wrappers
  import opened VkTypes
  import Search

  /** `isValidationLayersSupported`: a failed enumeration (either the count
      query or the list query) is an exception; otherwise every enabled
      layer must be available. */
  function IsValidationLayersSupported(countQueryOk: bool, listQueryOk: bool,
                                       enabledLayerNames: seq<string>, available: seq<string>): (r: Result<bool, string>)
    ensures r.Err? <==> !countQueryOk || !listQueryOk
    ensures r.Ok? ==> (r.value <==> NamesSupported(enabledLayerNames, available))
  {
    if !countQueryOk then Err("failed to enumerate instance layer properties count!")
    else if !listQueryOk then Err("failed to enumerate instance layer properties!")
    else
      LayersFoundIffSubset(enabledLayerNames, available);
      Ok(LayersFound(enabledLayerNames, available))
  }

  /** `isDeviceExtensionSupported`: every required extension is available. */
  function IsDeviceExtensionSupported(deviceExtensions: seq<string>, available: seq<string>): (r: bool)
    ensures r <==> NamesSupported(deviceExtensions, available)
  {
    ExtensionsSupportedIffSubset(deviceExtensions, available);
    ExtensionsSupported(deviceExtensions, available)
  }

  /**
   * `getQueueFamilyIndices`: the indices of the families whose flags
   * intersect `type` (when given), ascending, followed by the indices of the
   * families that can present (when a surface is given), ascending. An index
   * can occur in both parts.
   */
  function GetQueueFamilyIndices(families: seq<QueueFamily>, queueType: Option<Flags>, hasSurface: bool): (r: seq<nat>)
    ensures exists k :: 0 <= k <= |r| && TypedRun(families, queueType, r[..k]) && PresentingRun(families, hasSurface, r[k..])
    ensures forall k :: 0 <= k < |r| ==> r[k] < |families|
    ensures forall i :: i in r <==> (0 <= i < |families| &&
      ((queueType.Some? && HasAny(families[i].queueFlags, queueType.value)) || (hasSurface && families[i].presentSupport)))
    ensures |r| <= 2 * |families|
  {
    var typed := TypedIndices(families, queueType);
    var presenting := PresentingIndices(families, hasSurface);
    RunsJoined(families, queueType, hasSurface, typed, presenting);
    typed + presenting
  }

  /** What the two runs put together hold. */
  lemma RunsJoined(families: seq<QueueFamily>, queueType: Option<Flags>, hasSurface: bool, typed: seq<nat>, presenting: seq<nat>)
    requires TypedRun(families, queueType, typed) && PresentingRun(families, hasSurface, presenting)
    ensures var r := typed + presenting;
      && (exists k :: 0 <= k <= |r| && TypedRun(families, queueType, r[..k]) && PresentingRun(families, hasSurface, r[k..]))
      && (forall k :: 0 <= k < |r| ==> r[k] < |families|)
      && (forall i :: i in r <==> (0 <= i < |families| &&
           ((queueType.Some? && HasAny(families[i].queueFlags, queueType.value)) || (hasSurface && families[i].presentSupport))))
      && |r| <= 2 * |families|
  {
    var r := typed + presenting;
    DistinctBelowBound(typed, |families|);
    DistinctBelowBound(presenting, |families|);
    assert r[..|typed|] == typed && r[|typed|..] == presenting;
    forall i | i in r
      ensures 0 <= i < |families| &&
        ((queueType.Some? && HasAny(families[i].queueFlags, queueType.value)) || (hasSurface && families[i].presentSupport))
    {
      if i in typed {
        var k :| 0 <= k < |typed| && typed[k] == i;
      } else {
        var k :| 0 <= k < |presenting| && presenting[k] == i;
      }
    }
  }

  /** The first loop: the families whose flags intersect the type, if one is given. */
  function TypedIndices(families: seq<QueueFamily>, queueType: Option<Flags>): (r: seq<nat>)
    ensures TypedRun(families, queueType, r)
  {
    if queueType.Some? then Search.IndicesWhere(families, (f: QueueFamily) => HasAny(f.queueFlags, queueType.value)) else []
  }

  /** The second loop: the families that can present, if there is a surface. */
  function PresentingIndices(families: seq<QueueFamily>, hasSurface: bool): (r: seq<nat>)
    ensures PresentingRun(families, hasSurface, r)
  {
    if hasSurface then Search.IndicesWhere(families, (f: QueueFamily) => f.presentSupport) else []
  }

  /** `xs` lists, ascending, exactly the families whose flags intersect the
      type; with no type it is empty. */
  predicate TypedRun(families: seq<QueueFamily>, queueType: Option<Flags>, xs: seq<nat>) {
    && Search.StrictlyAscending(xs)
    && (forall k :: 0 <= k < |xs| ==> xs[k] < |families| && queueType.Some? && HasAny(families[xs[k]].queueFlags, queueType.value))
    && (forall i :: 0 <= i < |families| && queueType.Some? && HasAny(families[i].queueFlags, queueType.value) ==> i in xs)
  }

  /** `xs` lists, ascending, exactly the families that can present; with no
      surface it is empty. */
  predicate PresentingRun(families: seq<QueueFamily>, hasSurface: bool, xs: seq<nat>) {
    && Search.StrictlyAscending(xs)
    && (forall k :: 0 <= k < |xs| ==> xs[k] < |families| && hasSurface && families[xs[k]].presentSupport)
    && (forall i :: 0 <= i < |families| && hasSurface && families[i].presentSupport ==> i in xs)
  }

  /**
   * The typed run followed by the presenting run is the only such list: any
   * `xs` that splits into the two runs is the result. So an index that
   * qualifies both ways occurs twice, once in each run.
   */
  lemma GetQueueFamilyIndicesExact(families: seq<QueueFamily>, queueType: Option<Flags>, hasSurface: bool, xs: seq<nat>, k: nat)
    requires k <= |xs| && TypedRun(families, queueType, xs[..k]) && PresentingRun(families, hasSurface, xs[k..])
    ensures xs == GetQueueFamilyIndices(families, queueType, hasSurface)
  {
    var typed := TypedIndices(families, queueType);
    var presenting := PresentingIndices(families, hasSurface);
    assert xs[..k] == typed by {
      TypedRunUnique(families, queueType, xs[..k], typed);
    }
    assert xs[k..] == presenting by {
      PresentingRunUnique(families, hasSurface, xs[k..], presenting);
    }
    assert xs == xs[..k] + xs[k..];
  }

  lemma TypedRunUnique(families: seq<QueueFamily>, queueType: Option<Flags>, a: seq<nat>, b: seq<nat>)
    requires TypedRun(families, queueType, a) && TypedRun(families, queueType, b)
    ensures a == b
  {
    forall v ensures v in a <==> v in b {
      if v in a {
        var i :| 0 <= i < |a| && a[i] == v;
      }
      if v in b {
        var i :| 0 <= i < |b| && b[i] == v;
      }
    }
    Search.AscendingSameElements(a, b);
  }

  lemma PresentingRunUnique(families: seq<QueueFamily>, hasSurface: bool, a: seq<nat>, b: seq<nat>)
    requires PresentingRun(families, hasSurface, a) && PresentingRun(families, hasSurface, b)
    ensures a == b
  {
    forall v ensures v in a <==> v in b {
      if v in a {
        var i :| 0 <= i < |a| && a[i] == v;
      }
      if v in b {
        var i :| 0 <= i < |b| && b[i] == v;
      }
    }
    Search.AscendingSameElements(a, b);
  }

  /** `getQueueFamilyCount`: the number of queues of the family at the index
      (an index past the end is undefined behaviour in the source). */
  function GetQueueFamilyCount(families: seq<QueueFamily>, queueFamilyIndex: nat): nat
    requires queueFamilyIndex < |families|
  {
    families[queueFamilyIndex].queueCount
  }

  /** An ascending sequence of numbers below `n` has at most `n` elements. */
  lemma {:induction false} DistinctBelowBound(xs: seq<nat>, n: nat)
    requires forall k :: 0 <= k < |xs| ==> xs[k] < n
    requires forall k, l :: 0 <= k < l < |xs| ==> xs[k] < xs[l]
    ensures |xs| <= n
    decreases n
  {
    if |xs| > 0 {
      var last := xs[|xs| - 1];
      var init := xs[..|xs| - 1];
      assert forall k :: 0 <= k < |init| ==> init[k] < last;
      DistinctBelowBound(init, last);
    }
  }

  /** Every requested type gets at least one family index. */
  predicate QueueFamilyIndicesAdequate(families: seq<QueueFamily>, types: set<Flags>, hasSurface: bool) {
    forall t :: t in types ==> |GetQueueFamilyIndices(families, Some(t), hasSurface)| > 0
  }

  /** The per-device test of `getPhysicalDeviceIndices`. */
  predicate DeviceAdequate(device: DeviceInfo, types: set<Flags>, hasSurface: bool,
                           enabledDeviceExtensionNames: seq<string>, anisotropyRequired: bool)
  {
    var queueFamilyIndicesAdequate := QueueFamilyIndicesAdequate(device.families, types, hasSurface);
    var swapChainAdequate :=
      if hasSurface then |device.swapChainSupport.formats| > 0 && |device.swapChainSupport.presentModes| > 0
      else true;
    var anisotropyAdequate := if anisotropyRequired then device.samplerAnisotropy else true;
    queueFamilyIndicesAdequate && IsDeviceExtensionSupported(enabledDeviceExtensionNames, device.extensionNames)
      && swapChainAdequate && anisotropyAdequate
  }

  /**
   * A device is adequate iff each requested queue type is offered by some
   * family — or, when a surface is given, some family can present, which
   * satisfies every type — the extensions are available, a surface comes
   * with formats and present modes, and anisotropy is there when required.
   */
  lemma DeviceAdequateMeaning(device: DeviceInfo, types: set<Flags>, hasSurface: bool,
                              enabledDeviceExtensionNames: seq<string>, anisotropyRequired: bool)
    ensures DeviceAdequate(device, types, hasSurface, enabledDeviceExtensionNames, anisotropyRequired) <==>
      && (forall t :: t in types ==>
            (exists i :: 0 <= i < |device.families| && HasAny(device.families[i].queueFlags, t))
            || (hasSurface && exists i :: 0 <= i < |device.families| && device.families[i].presentSupport))
      && NamesSupported(enabledDeviceExtensionNames, device.extensionNames)
      && (hasSurface ==> |device.swapChainSupport.formats| > 0 && |device.swapChainSupport.presentModes| > 0)
      && (anisotropyRequired ==> device.samplerAnisotropy)
  {
    QueueTypesOffered(device.families, types, hasSurface);
  }

  /** Type `t` is offered: some family has it or, with a surface, some family can present. */
  predicate TypeOffered(families: seq<QueueFamily>, t: Flags, hasSurface: bool) {
    (exists i :: 0 <= i < |families| && HasAny(families[i].queueFlags, t))
    || (hasSurface && exists i :: 0 <= i < |families| && families[i].presentSupport)
  }

  lemma QueueTypesOffered(families: seq<QueueFamily>, types: set<Flags>, hasSurface: bool)
    ensures QueueFamilyIndicesAdequate(families, types, hasSurface) <==>
      (forall t :: t in types ==> TypeOffered(families, t, hasSurface))
  {
    forall t | t in types
      ensures |GetQueueFamilyIndices(families, Some(t), hasSurface)| > 0 <==> TypeOffered(families, t, hasSurface)
    {
      QueueTypeOffered(families, t, hasSurface);
    }
  }

  /** Some family index is listed for `t` iff a family offers `t` or, with a
      surface, some family can present. */
  lemma QueueTypeOffered(families: seq<QueueFamily>, t: Flags, hasSurface: bool)
    ensures |GetQueueFamilyIndices(families, Some(t), hasSurface)| > 0 <==>
      (exists i :: 0 <= i < |families| && HasAny(families[i].queueFlags, t))
      || (hasSurface && exists i :: 0 <= i < |families| && families[i].presentSupport)
  {
    var r := GetQueueFamilyIndices(families, Some(t), hasSurface);
    if |r| > 0 {
      assert r[0] in r;
    }
  }

  /** `getPhysicalDeviceIndices`: the indices of all adequate devices, ascending. */
  function GetPhysicalDeviceIndices(devices: seq<DeviceInfo>, types: set<Flags>, hasSurface: bool,
                                    enabledDeviceExtensionNames: seq<string>, anisotropyRequired: bool): (r: seq<nat>)
    ensures forall i :: i in r <==> (0 <= i < |devices|
      && DeviceAdequate(devices[i], types, hasSurface, enabledDeviceExtensionNames, anisotropyRequired))
    ensures forall k, l :: 0 <= k < l < |r| ==> r[k] < r[l]
  {
    Search.IndicesWhere(devices, (d: DeviceInfo) => DeviceAdequate(d, types, hasSurface, enabledDeviceExtensionNames, anisotropyRequired))
  }
}
