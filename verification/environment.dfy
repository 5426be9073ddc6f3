/**
 * `Environment` (src/main/cpp/exqudens/vulkan/Environment.hpp): the
 * RAII-layer object factory. Every kind of object has its own `unsigned int`
 * id counter starting at 1 and its own map from id to the created record;
 * each `create*` takes the counter's value as the new id, bumps the counter,
 * stores the record under that id and returns the stored record.
 */
module Environment {
  import opened Wrappers
  import opened VkTypes
  import Search
  import Utility
  import RaiiUtility
  import Factory

  // ---------------------------------------------------------------------
  // Id counters and record maps

  datatype Entry<T> = Entry(id: nat, payload: T)

  /** One kind's counter and map. */
  datatype Registry<T> = Registry(next: nat, entries: map<nat, Entry<T>>)

  /** The member initialisers: counter 1, empty map. */
  function Empty<T>(): (r: Registry<T>)
    ensures Valid(r) && r.next == 1 && |r.entries| == 0
  {
    Registry(1, map[])
  }

  /** Every stored record sits under its own id, below the counter. */
  ghost predicate Valid<T>(reg: Registry<T>) {
    && 1 <= reg.next <= UINT32_MAX
    && forall id :: id in reg.entries ==> 1 <= id < reg.next && reg.entries[id].id == id
  }

  /** `counter++` on an `unsigned int`: the id is taken, and the counter wraps to 0 after 2^32 - 1. */
  function Allocate<T>(reg: Registry<T>): (r: (Registry<T>, nat))
    requires reg.next <= UINT32_MAX
    ensures r.1 == reg.next && r.0.entries == reg.entries
    ensures reg.next < UINT32_MAX ==> r.0.next == reg.next + 1
    ensures reg.next == UINT32_MAX ==> r.0.next == 0
  {
    (reg.(next := ToUint32(reg.next + 1)), reg.next)
  }

  /** `value->id = counter++; map[value->id] = value; return *map[value->id];` */
  function Create<T>(reg: Registry<T>, payload: T): (r: (Registry<T>, Entry<T>))
    requires reg.next <= UINT32_MAX
    ensures r.1 == Entry(reg.next, payload)
    ensures r.1.id in r.0.entries && r.0.entries[r.1.id] == r.1
    ensures r.0.entries.Keys == reg.entries.Keys + {reg.next}
    ensures forall id :: id in reg.entries && id != reg.next ==> r.0.entries[id] == reg.entries[id]
    ensures reg.next < UINT32_MAX ==> r.0.next == reg.next + 1
  {
    var (bumped, id) := Allocate(reg);
    var e := Entry(id, payload);
    (bumped.(entries := bumped.entries[id := e]), e)
  }

  /** Creation keeps the registry valid as long as the counter has not
      wrapped, and the new id was not in use. */
  lemma CreatePreservesValid<T>(reg: Registry<T>, payload: T)
    requires Valid(reg) && reg.next < UINT32_MAX
    ensures reg.next !in reg.entries
    ensures Valid(Create(reg, payload).0)
  {
  }

  /** Creating one record per payload, in order (the loop of
      `createSwapChainImageViews`): consecutive ids, each record stored under
      its id, and the records that were there before left alone. */
  function CreateAll<T>(reg: Registry<T>, payloads: seq<T>): (r: (Registry<T>, seq<Entry<T>>))
    requires reg.next + |payloads| <= UINT32_MAX
    ensures r.0.next == reg.next + |payloads|
    ensures |r.1| == |payloads|
    ensures forall k :: 0 <= k < |payloads| ==> r.1[k] == Entry(reg.next + k, payloads[k])
    ensures forall k :: 0 <= k < |payloads| ==> r.1[k].id in r.0.entries && r.0.entries[r.1[k].id] == r.1[k]
    ensures forall id :: id in reg.entries && !(reg.next <= id < reg.next + |payloads|) ==>
      id in r.0.entries && r.0.entries[id] == reg.entries[id]
    decreases |payloads|
  {
    if |payloads| == 0 then (reg, [])
    else
      var (reg1, e) := Create(reg, payloads[0]);
      var (reg2, es) := CreateAll(reg1, payloads[1..]);
      (reg2, [e] + es)
  }

  /** From a fresh registry (as `Empty` builds it), the k-th record of a kind
      gets id k + 1. */
  lemma IdsCountFromOne<T>(start: Registry<T>, payloads: seq<T>)
    requires start.next == 1 && |start.entries| == 0
    requires |payloads| < UINT32_MAX
    ensures var (reg, es) := CreateAll(start, payloads);
      && Valid(reg)
      && (forall id :: id in reg.entries <==> 1 <= id <= |payloads|)
      && (forall k :: 0 <= k < |payloads| ==> es[k].id == k + 1)
  {
    var (reg, es) := CreateAll(start, payloads);
    forall id | id in reg.entries ensures 1 <= id <= |payloads| && reg.entries[id].id == id {
      IdsFromCreateAll(start, payloads, id);
    }
    forall id | 1 <= id <= |payloads| ensures id in reg.entries {
      assert es[id - 1].id == id;
    }
  }

  /** Every record in the registry after `CreateAll` is an old one or one of the new ones. */
  lemma {:induction false} IdsFromCreateAll<T>(reg: Registry<T>, payloads: seq<T>, id: nat)
    requires reg.next + |payloads| <= UINT32_MAX
    requires id in CreateAll(reg, payloads).0.entries
    ensures id in reg.entries || reg.next <= id < reg.next + |payloads|
    ensures id !in reg.entries ==> CreateAll(reg, payloads).0.entries[id].id == id
    decreases |payloads|
  {
    if |payloads| > 0 {
      var (reg1, e) := Create(reg, payloads[0]);
      assert CreateAll(reg, payloads).0 == CreateAll(reg1, payloads[1..]).0;
      IdsFromCreateAll(reg1, payloads[1..], id);
      if id in reg1.entries && id !in reg.entries {
        assert id == reg.next;
      }
    }
  }

  // ---------------------------------------------------------------------
  // createPhysicalDevice

  /** A `vk::DeviceQueueCreateInfo`: family, queue count, and the priority. */
  datatype QueueCreateInfo = QueueCreateInfo(queueFamilyIndex: nat, queueCount: nat, priority: real)

  /**
   * The info built for family `i`. The family's queue count is set first,
   * but the following `setQueuePriorities` with the single `float` priority
   * sets the count again, to the size of that one-element array: every
   * info asks for one queue.
   */
  function InfoFor(families: seq<QueueFamily>, i: nat, priority: real): QueueCreateInfo
    requires i < |families|
  {
    QueueCreateInfo(i, 1, priority)
  }

  /** The infos of the families at `indices`, in that order. */
  function InfosAt(families: seq<QueueFamily>, indices: seq<nat>, priority: real): (r: seq<QueueCreateInfo>)
    requires forall k :: 0 <= k < |indices| ==> indices[k] < |families|
    ensures |r| == |indices|
    ensures forall k :: 0 <= k < |r| ==> r[k] == InfoFor(families, indices[k], priority)
  {
    seq(|indices|, k requires 0 <= k < |indices| => InfoFor(families, indices[k], priority))
  }

  /** One info per family whose flags intersect `queueType`, ascending. */
  function TypedInfos(families: seq<QueueFamily>, queueType: Flags, priority: real): seq<QueueCreateInfo> {
    InfosAt(families, Search.IndicesWhere(families, (f: QueueFamily) => HasAny(f.queueFlags, queueType)), priority)
  }

  /** `TypedInfos` lists, by ascending family, the info of every family whose
      flags intersect `queueType`, and nothing else. */
  lemma TypedInfosMeaning(families: seq<QueueFamily>, queueType: Flags, priority: real)
    ensures var r := TypedInfos(families, queueType, priority);
      && AscendingByFamily(r)
      && (forall info :: info in r ==> (info.queueFamilyIndex < |families|
            && HasAny(families[info.queueFamilyIndex].queueFlags, queueType) && info == InfoFor(families, info.queueFamilyIndex, priority)))
      && (forall i :: 0 <= i < |families| && HasAny(families[i].queueFlags, queueType) ==> InfoFor(families, i, priority) in r)
  {
    var indices := Search.IndicesWhere(families, (f: QueueFamily) => HasAny(f.queueFlags, queueType));
    var r := TypedInfos(families, queueType, priority);
    forall i | 0 <= i < |families| && HasAny(families[i].queueFlags, queueType) ensures InfoFor(families, i, priority) in r {
      var k :| 0 <= k < |indices| && indices[k] == i;
      assert r[k] == InfoFor(families, i, priority);
    }
  }

  /** `PresentInfos` lists, by ascending family, the info of every family
      that can present, and nothing else. */
  lemma PresentInfosMeaning(families: seq<QueueFamily>, priority: real)
    ensures var r := PresentInfos(families, priority);
      && AscendingByFamily(r)
      && (forall info :: info in r ==> (info.queueFamilyIndex < |families|
            && families[info.queueFamilyIndex].presentSupport && info == InfoFor(families, info.queueFamilyIndex, priority)))
      && (forall i :: 0 <= i < |families| && families[i].presentSupport ==> InfoFor(families, i, priority) in r)
  {
    var indices := Search.IndicesWhere(families, (f: QueueFamily) => f.presentSupport);
    var r := PresentInfos(families, priority);
    forall i | 0 <= i < |families| && families[i].presentSupport ensures InfoFor(families, i, priority) in r {
      var k :| 0 <= k < |indices| && indices[k] == i;
      assert r[k] == InfoFor(families, i, priority);
    }
  }

  /** One info per family that can present to the surface, ascending. */
  function PresentInfos(families: seq<QueueFamily>, priority: real): seq<QueueCreateInfo> {
    InfosAt(families, Search.IndicesWhere(families, (f: QueueFamily) => f.presentSupport), priority)
  }

  /** The infos in the order the two loops produce them: each requested type in turn, then presenting. */
  function AllInfos(families: seq<QueueFamily>, queueTypes: seq<Flags>, hasSurface: bool, priority: real): seq<QueueCreateInfo>
    decreases |queueTypes|
  {
    if |queueTypes| == 0 then (if hasSurface then PresentInfos(families, priority) else [])
    else TypedInfos(families, queueTypes[0], priority) + AllInfos(families, queueTypes[1..], hasSurface, priority)
  }

  /** `std::map::try_emplace` of each info under its family index: an index
      already present keeps the info inserted first. */
  function Emplace(m: map<nat, QueueCreateInfo>, infos: seq<QueueCreateInfo>): (r: map<nat, QueueCreateInfo>)
    ensures forall k :: k in r <==> k in m || k in FamilyIndices(infos)
    ensures forall k :: k in m ==> r[k] == m[k]
    ensures forall k :: k in r && k !in m ==>
      exists j :: 0 <= j < |infos| && r[k] == infos[j] && infos[j].queueFamilyIndex == k
        && forall j' :: 0 <= j' < j ==> infos[j'].queueFamilyIndex != k
    decreases |infos|
  {
    if |infos| == 0 then m
    else
      var i := infos[0].queueFamilyIndex;
      var r := Emplace(if i in m then m else m[i := infos[0]], infos[1..]);
      assert forall j :: 1 <= j < |infos| ==> infos[j] == infos[1..][j - 1];
      r
  }

  /** The values of `m` with keys below `n`, in ascending key order: the
      iteration of a `std::map`. */
  function AscendingValues(m: map<nat, QueueCreateInfo>, n: nat): (r: seq<QueueCreateInfo>)
    ensures |r| <= n
    ensures forall v :: v in r <==> exists k :: k < n && k in m && m[k] == v
    decreases n
  {
    if n == 0 then []
    else
      var rest := AscendingValues(m, n - 1);
      if n - 1 in m then rest + [m[n - 1]] else rest
  }

  /** A family index one of the loops inserts. */
  predicate Inserted(families: seq<QueueFamily>, queueTypes: seq<Flags>, hasSurface: bool, i: nat) {
    i < |families| && (
      (exists t :: t in queueTypes && HasAny(families[i].queueFlags, t))
      || (hasSurface && families[i].presentSupport))
  }

  /** Each info is the one `InfoFor` gives for its family. */
  predicate InfosOfFamilies(families: seq<QueueFamily>, priority: real, infos: seq<QueueCreateInfo>) {
    forall j :: 0 <= j < |infos| ==>
      infos[j].queueFamilyIndex < |families| && infos[j] == InfoFor(families, infos[j].queueFamilyIndex, priority)
  }

  /** The family indices the infos name. */
  function FamilyIndices(infos: seq<QueueCreateInfo>): set<nat> {
    set j | 0 <= j < |infos| :: infos[j].queueFamilyIndex
  }

  /** The infos name exactly the inserted families. */
  ghost predicate NamesInserted(families: seq<QueueFamily>, queueTypes: seq<Flags>, hasSurface: bool, infos: seq<QueueCreateInfo>) {
    forall i: nat :: Inserted(families, queueTypes, hasSurface, i) <==> i in FamilyIndices(infos)
  }

  /** The infos the loops produce are those of the inserted families. */
  lemma {:induction false} AllInfosMeaning(families: seq<QueueFamily>, queueTypes: seq<Flags>, hasSurface: bool, priority: real)
    ensures InfosOfFamilies(families, priority, AllInfos(families, queueTypes, hasSurface, priority))
    ensures NamesInserted(families, queueTypes, hasSurface, AllInfos(families, queueTypes, hasSurface, priority))
    decreases |queueTypes|
  {
    if |queueTypes| == 0 {
      if hasSurface {
        IndexedInfos(families, Search.IndicesWhere(families, (f: QueueFamily) => f.presentSupport), priority);
      }
    } else {
      var t := queueTypes[0];
      var head := TypedInfos(families, t, priority);
      var tail := AllInfos(families, queueTypes[1..], hasSurface, priority);
      IndexedInfos(families, Search.IndicesWhere(families, (f: QueueFamily) => HasAny(f.queueFlags, t)), priority);
      AllInfosMeaning(families, queueTypes[1..], hasSurface, priority);
      ConcatInfos(families, priority, head, tail);
      forall i: nat
        ensures Inserted(families, queueTypes, hasSurface, i) <==> i in FamilyIndices(head) || i in FamilyIndices(tail)
      {
        if Inserted(families, queueTypes, hasSurface, i) && !HasAny(families[i].queueFlags, t) && !(hasSurface && families[i].presentSupport) {
          var u :| u in queueTypes && HasAny(families[i].queueFlags, u);
          assert u in queueTypes[1..];
        }
      }
    }
  }

  /** Infos built from indices name exactly those indices. */
  lemma IndexedInfos(families: seq<QueueFamily>, indices: seq<nat>, priority: real)
    requires forall k :: 0 <= k < |indices| ==> indices[k] < |families|
    ensures InfosOfFamilies(families, priority, InfosAt(families, indices, priority))
    ensures forall i: nat :: i in indices <==> i in FamilyIndices(InfosAt(families, indices, priority))
  {
    var infos := InfosAt(families, indices, priority);
    forall i: nat | i in indices ensures i in FamilyIndices(infos) {
      var j :| 0 <= j < |indices| && indices[j] == i;
      assert infos[j].queueFamilyIndex == i;
    }
  }

  /** Both properties carry over to a concatenation. */
  lemma ConcatInfos(families: seq<QueueFamily>, priority: real, head: seq<QueueCreateInfo>, tail: seq<QueueCreateInfo>)
    requires InfosOfFamilies(families, priority, head) && InfosOfFamilies(families, priority, tail)
    ensures InfosOfFamilies(families, priority, head + tail)
    ensures FamilyIndices(head + tail) == FamilyIndices(head) + FamilyIndices(tail)
  {
    var all := head + tail;
    forall i | i in FamilyIndices(all) ensures i in FamilyIndices(head) + FamilyIndices(tail) {
      var j :| 0 <= j < |all| && all[j].queueFamilyIndex == i;
      if j >= |head| {
        assert tail[j - |head|] == all[j];
      }
    }
    forall i | i in FamilyIndices(head) ensures i in FamilyIndices(all) {
      var j :| 0 <= j < |head| && head[j].queueFamilyIndex == i;
      assert all[j] == head[j];
    }
    forall i | i in FamilyIndices(tail) ensures i in FamilyIndices(all) {
      var j :| 0 <= j < |tail| && tail[j].queueFamilyIndex == i;
      assert all[|head| + j] == tail[j];
    }
  }

  /** `uniqueQueueCreateInfos`: the map's values in key order. */
  function UniqueQueueCreateInfos(families: seq<QueueFamily>, queueTypes: seq<Flags>, hasSurface: bool, priority: real): seq<QueueCreateInfo> {
    AscendingValues(Emplace(map[], AllInfos(families, queueTypes, hasSurface, priority)), |families|)
  }

  /**
   * One info per inserted family, ascending by family index, each being
   * that family's `InfoFor`: one queue at the given priority.
   */
  lemma UniqueQueueCreateInfosMeaning(families: seq<QueueFamily>, queueTypes: seq<Flags>, hasSurface: bool, priority: real)
    ensures var r := UniqueQueueCreateInfos(families, queueTypes, hasSurface, priority);
      && (forall i: nat :: i < |families| ==> (Inserted(families, queueTypes, hasSurface, i) <==> InfoFor(families, i, priority) in r))
      && (forall info :: info in r ==> info.queueFamilyIndex < |families| && info == InfoFor(families, info.queueFamilyIndex, priority))
  {
    var infos := AllInfos(families, queueTypes, hasSurface, priority);
    var m := Emplace(map[], infos);
    var r := UniqueQueueCreateInfos(families, queueTypes, hasSurface, priority);
    AllInfosMeaning(families, queueTypes, hasSurface, priority);
    assert forall k :: k in m ==> k < |families| && m[k] == InfoFor(families, k, priority) by {
      forall k | k in m ensures k < |families| && m[k] == InfoFor(families, k, priority) {
        var j :| 0 <= j < |infos| && m[k] == infos[j] && infos[j].queueFamilyIndex == k;
      }
    }
    forall i: nat | Inserted(families, queueTypes, hasSurface, i) ensures InfoFor(families, i, priority) in r {
      assert i in m;
    }
  }

  /** Every unique info asks for one queue, whatever its family offers, at
      the given priority. */
  lemma UniqueInfosAskOneQueue(families: seq<QueueFamily>, queueTypes: seq<Flags>, hasSurface: bool, priority: real)
    ensures forall info :: info in UniqueQueueCreateInfos(families, queueTypes, hasSurface, priority) ==>
      && info.queueFamilyIndex < |families|
      && info.queueCount == 1
      && info.priority == priority
  {
    UniqueQueueCreateInfosMeaning(families, queueTypes, hasSurface, priority);
  }

  /**
   * The unique infos never ask for more queues than `getQueueFamilyCount`
   * reports for their family, since the driver reports at least one queue
   * per family.
   */
  lemma UniqueInfosWithinFamilyCount(families: seq<QueueFamily>, queueTypes: seq<Flags>, hasSurface: bool, priority: real)
    requires forall i :: 0 <= i < |families| ==> families[i].queueCount >= 1
    ensures forall info :: info in UniqueQueueCreateInfos(families, queueTypes, hasSurface, priority) ==>
      && info.queueFamilyIndex < |families|
      && info.queueCount <= RaiiUtility.GetQueueFamilyCount(families, info.queueFamilyIndex)
  {
    UniqueInfosAskOneQueue(families, queueTypes, hasSurface, priority);
  }

  /** Strictly ascending by family index, hence at most one info per family. */
  predicate AscendingByFamily(infos: seq<QueueCreateInfo>) {
    forall a, b :: 0 <= a < b < |infos| ==> infos[a].queueFamilyIndex < infos[b].queueFamilyIndex
  }

  /** Ascending order of `AscendingValues`, stated on the family index. */
  lemma {:induction false} AscendingValuesSorted(m: map<nat, QueueCreateInfo>, n: nat)
    requires forall k :: k in m ==> m[k].queueFamilyIndex == k
    ensures AscendingByFamily(AscendingValues(m, n))
    decreases n
  {
    if n > 0 {
      AscendingValuesSorted(m, n - 1);
      var rest := AscendingValues(m, n - 1);
      forall a | 0 <= a < |rest| ensures rest[a].queueFamilyIndex < n - 1 {
        assert rest[a] in rest;
        var k :| k < n - 1 && k in m && m[k] == rest[a];
      }
      if n - 1 in m {
        var r := rest + [m[n - 1]];
        assert AscendingValues(m, n) == r;
        forall a, b | 0 <= a < b < |r| ensures r[a].queueFamilyIndex < r[b].queueFamilyIndex {
          assert r[a] == rest[a];
          if b < |rest| {
            assert r[b] == rest[b];
          } else {
            assert r[b] == m[n - 1];
            assert rest[a].queueFamilyIndex < n - 1;
            assert m[n - 1].queueFamilyIndex == n - 1;
          }
        }
      }
    }
  }

  /** The unique infos are strictly ascending by family index, hence one per family. */
  lemma UniqueQueueCreateInfosAscending(families: seq<QueueFamily>, queueTypes: seq<Flags>, hasSurface: bool, priority: real)
    ensures AscendingByFamily(UniqueQueueCreateInfos(families, queueTypes, hasSurface, priority))
  {
    var infos := AllInfos(families, queueTypes, hasSurface, priority);
    var m := Emplace(map[], infos);
    AllInfosMeaning(families, queueTypes, hasSurface, priority);
    forall k | k in m ensures m[k].queueFamilyIndex == k {
      var j :| 0 <= j < |infos| && m[k] == infos[j] && infos[j].queueFamilyIndex == k;
    }
    AscendingValuesSorted(m, |families|);
  }

  /** The per-device test of `createPhysicalDevice`, in the order it is checked. */
  predicate Accepts(device: DeviceInfo, queueTypes: seq<Flags>, hasSurface: bool,
                    enabledDeviceExtensionNames: seq<string>, samplerAnisotropyRequested: bool)
  {
    var queueFamilyIndicesAdequate :=
      && (forall t :: t in queueTypes ==> |TypedInfos(device.families, t, 0.0)| > 0)
      && (hasSurface ==> |PresentInfos(device.families, 0.0)| > 0);
    var deviceExtensionAdequate := ExtensionsSupported(enabledDeviceExtensionNames, device.extensionNames);
    var swapChainAdequate :=
      hasSurface ==> |device.swapChainSupport.formats| > 0 && |device.swapChainSupport.presentModes| > 0;
    var anisotropyAdequate := samplerAnisotropyRequested ==> device.samplerAnisotropy;
    queueFamilyIndicesAdequate && deviceExtensionAdequate && swapChainAdequate && anisotropyAdequate
  }

  /**
   * A device is accepted iff every requested queue type has a family with
   * that flag, a surface has a family that can present, the extensions are
   * available, a surface comes with formats and present modes, and the
   * anisotropy feature is there when requested.
   */
  lemma AcceptsMeaning(device: DeviceInfo, queueTypes: seq<Flags>, hasSurface: bool,
                       enabledDeviceExtensionNames: seq<string>, samplerAnisotropyRequested: bool)
    ensures Accepts(device, queueTypes, hasSurface, enabledDeviceExtensionNames, samplerAnisotropyRequested) <==>
      && (forall t :: t in queueTypes ==> exists i :: 0 <= i < |device.families| && HasAny(device.families[i].queueFlags, t))
      && (hasSurface ==> exists i :: 0 <= i < |device.families| && device.families[i].presentSupport)
      && NamesSupported(enabledDeviceExtensionNames, device.extensionNames)
      && (hasSurface ==> |device.swapChainSupport.formats| > 0 && |device.swapChainSupport.presentModes| > 0)
      && (samplerAnisotropyRequested ==> device.samplerAnisotropy)
  {
    ExtensionsSupportedIffSubset(enabledDeviceExtensionNames, device.extensionNames);
    var families := device.families;
    forall t | t in queueTypes
      ensures |TypedInfos(families, t, 0.0)| > 0 <==> exists i :: 0 <= i < |families| && HasAny(families[i].queueFlags, t)
    {
      var indices := Search.IndicesWhere(families, (f: QueueFamily) => HasAny(f.queueFlags, t));
      if |indices| > 0 {
        assert HasAny(families[indices[0]].queueFlags, t);
      }
    }
    if hasSurface {
      var indices := Search.IndicesWhere(families, (f: QueueFamily) => f.presentSupport);
      if |indices| > 0 {
        assert families[indices[0]].presentSupport;
      }
    }
  }

  /** Every device accepted here is adequate for `raii::Utility` with the
      same types: this test asks for a typed family per type and a
      presenting family besides, where that one lets a presenting family
      stand in for any type. */
  lemma AcceptsImpliesRaiiAdequate(device: DeviceInfo, queueTypes: seq<Flags>, hasSurface: bool,
                                   enabledDeviceExtensionNames: seq<string>, samplerAnisotropyRequested: bool)
    requires Accepts(device, queueTypes, hasSurface, enabledDeviceExtensionNames, samplerAnisotropyRequested)
    ensures RaiiUtility.DeviceAdequate(device, (set t | t in queueTypes), hasSurface, enabledDeviceExtensionNames, samplerAnisotropyRequested)
  {
    AcceptsMeaning(device, queueTypes, hasSurface, enabledDeviceExtensionNames, samplerAnisotropyRequested);
    RaiiUtility.DeviceAdequateMeaning(device, (set t | t in queueTypes), hasSurface, enabledDeviceExtensionNames, samplerAnisotropyRequested);
  }

  /** The stored `PhysicalDevice` record. */
  datatype PhysicalDevice = PhysicalDevice(
    deviceIndex: nat,
    queuePriorities: real,
    samplerAnisotropyRequested: bool,
    computeQueueCreateInfos: seq<QueueCreateInfo>,
    transferQueueCreateInfos: seq<QueueCreateInfo>,
    graphicsQueueCreateInfos: seq<QueueCreateInfo>,
    presentQueueCreateInfos: seq<QueueCreateInfo>,
    uniqueQueueCreateInfos: seq<QueueCreateInfo>
  )

  /** The per-type vector a requested type is copied into; types other than
      compute, transfer and graphics are checked but not kept. */
  function KeptInfos(families: seq<QueueFamily>, queueTypes: seq<Flags>, kept: Flags, priority: real): seq<QueueCreateInfo> {
    if kept in queueTypes then TypedInfos(families, kept, priority) else []
  }

  /**
   * `createPhysicalDevice`: the id is taken before the search, so a failure
   * still consumes one; the first accepted device is recorded and stored,
   * and no accepted device is an exception.
   */
  function CreatePhysicalDevice(reg: Registry<PhysicalDevice>, devices: seq<DeviceInfo>,
                                enabledDeviceExtensionNames: seq<string>, samplerAnisotropyRequested: bool,
                                queuePriorities: real, queueTypes: seq<Flags>, hasSurface: bool): (r: (Registry<PhysicalDevice>, Result<Entry<PhysicalDevice>, string>))
    requires reg.next <= UINT32_MAX
    ensures reg.next < UINT32_MAX ==> r.0.next == reg.next + 1
    ensures r.1.Err? <==> forall i :: 0 <= i < |devices| ==>
      !Accepts(devices[i], queueTypes, hasSurface, enabledDeviceExtensionNames, samplerAnisotropyRequested)
    ensures r.1.Err? ==> r.0.entries == reg.entries
    ensures r.1.Ok? ==> var e := r.1.value; var d := e.payload.deviceIndex;
      && e.id == reg.next && r.0.entries == reg.entries[e.id := e]
      && d < |devices| && Accepts(devices[d], queueTypes, hasSurface, enabledDeviceExtensionNames, samplerAnisotropyRequested)
      && (forall j :: 0 <= j < d ==> !Accepts(devices[j], queueTypes, hasSurface, enabledDeviceExtensionNames, samplerAnisotropyRequested))
      && e.payload.queuePriorities == queuePriorities && e.payload.samplerAnisotropyRequested == samplerAnisotropyRequested
      && e.payload.computeQueueCreateInfos ==
           (if QUEUE_COMPUTE_BIT in queueTypes then TypedInfos(devices[d].families, QUEUE_COMPUTE_BIT, queuePriorities) else [])
      && e.payload.transferQueueCreateInfos ==
           (if QUEUE_TRANSFER_BIT in queueTypes then TypedInfos(devices[d].families, QUEUE_TRANSFER_BIT, queuePriorities) else [])
      && e.payload.graphicsQueueCreateInfos ==
           (if QUEUE_GRAPHICS_BIT in queueTypes then TypedInfos(devices[d].families, QUEUE_GRAPHICS_BIT, queuePriorities) else [])
      && e.payload.presentQueueCreateInfos == (if hasSurface then PresentInfos(devices[d].families, queuePriorities) else [])
      && e.payload.uniqueQueueCreateInfos == UniqueQueueCreateInfos(devices[d].families, queueTypes, hasSurface, queuePriorities)
  {
    var (bumped, id) := Allocate(reg);
    var found := Search.FirstIndex(devices, (d: DeviceInfo) => Accepts(d, queueTypes, hasSurface, enabledDeviceExtensionNames, samplerAnisotropyRequested));
    match found
    case None => (bumped, Err("failed to create physical device!"))
    case Some(d) =>
      var families := devices[d].families;
      var value := PhysicalDevice(d, queuePriorities, samplerAnisotropyRequested,
        KeptInfos(families, queueTypes, QUEUE_COMPUTE_BIT, queuePriorities),
        KeptInfos(families, queueTypes, QUEUE_TRANSFER_BIT, queuePriorities),
        KeptInfos(families, queueTypes, QUEUE_GRAPHICS_BIT, queuePriorities),
        if hasSurface then PresentInfos(families, queuePriorities) else [],
        UniqueQueueCreateInfos(families, queueTypes, hasSurface, queuePriorities));
      var e := Entry(id, value);
      (bumped.(entries := bumped.entries[id := e]), Ok(e))
  }

  /**
   * Where a record's `value` points: into the `physicalDevices` vector of
   * the `enumeration`-th call, at `index`.
   */
  datatype DevicePointer = DevicePointer(enumeration: nat, index: nat)

  /** The device a pointer reaches while `current` calls have replaced the
      `physicalDevices` member: none once a later call has replaced it. */
  function Designates(p: DevicePointer, current: nat): (r: Option<nat>)
    ensures r.Some? <==> p.enumeration == current
    ensures r.Some? ==> r.value == p.index
  {
    if p.enumeration == current then Some(p.index) else None
  }

  /**
   * `createPhysicalDevice` as written, with the lifetime of the device it
   * records. Every call, failing or not, replaces the `physicalDevices`
   * member before the search, which destroys the devices of the previous
   * call; the record keeps `&physicalDevice`, a pointer into the new vector.
   * `enumeration` counts those replacements.
   */
  function CreatePhysicalDeviceAsWritten(enumeration: nat, reg: Registry<PhysicalDevice>, devices: seq<DeviceInfo>,
                                         enabledDeviceExtensionNames: seq<string>, samplerAnisotropyRequested: bool,
                                         queuePriorities: real, queueTypes: seq<Flags>, hasSurface: bool): (r: (nat, Registry<PhysicalDevice>, Option<DevicePointer>))
    requires reg.next <= UINT32_MAX
    ensures r.0 == enumeration + 1
    ensures var (reg', result) := CreatePhysicalDevice(reg, devices, enabledDeviceExtensionNames, samplerAnisotropyRequested,
                                                       queuePriorities, queueTypes, hasSurface);
      && r.1 == reg'
      && (r.2.Some? <==> result.Ok?)
      && (r.2.Some? ==>
            r.2.value == DevicePointer(r.0, result.value.payload.deviceIndex)
            && Designates(r.2.value, r.0) == Some(result.value.payload.deviceIndex))
  {
    var (reg', result) := CreatePhysicalDevice(reg, devices, enabledDeviceExtensionNames, samplerAnisotropyRequested,
                                               queuePriorities, queueTypes, hasSurface);
    (enumeration + 1, reg', if result.Ok? then Some(DevicePointer(enumeration + 1, result.value.payload.deviceIndex)) else None)
  }

  /**
   * As written, any later `createPhysicalDevice` on the same environment,
   * even one that fails, leaves the device pointer of an earlier record
   * dangling.
   */
  lemma EarlierDevicePointerDangles(enumeration: nat, reg: Registry<PhysicalDevice>,
                                    devices1: seq<DeviceInfo>, extensions1: seq<string>, anisotropy1: bool,
                                    priorities1: real, queueTypes1: seq<Flags>, hasSurface1: bool,
                                    devices2: seq<DeviceInfo>, extensions2: seq<string>, anisotropy2: bool,
                                    priorities2: real, queueTypes2: seq<Flags>, hasSurface2: bool)
    requires reg.next < UINT32_MAX
    ensures var first := CreatePhysicalDeviceAsWritten(enumeration, reg, devices1, extensions1, anisotropy1,
                                                        priorities1, queueTypes1, hasSurface1);
      var second := CreatePhysicalDeviceAsWritten(first.0, first.1, devices2, extensions2, anisotropy2,
                                                  priorities2, queueTypes2, hasSurface2);
      first.2.Some? ==> Designates(first.2.value, first.0).Some? && Designates(first.2.value, second.0).None?
  {
  }

  /**
   * The intended behaviour, which `CreatePhysicalDevice` models: a record
   * keeps designating its device. After a later call, failing or not, the
   * earlier record is still stored unchanged under its id.
   */
  lemma EarlierRecordSurvives(reg: Registry<PhysicalDevice>,
                              devices1: seq<DeviceInfo>, extensions1: seq<string>, anisotropy1: bool,
                              priorities1: real, queueTypes1: seq<Flags>, hasSurface1: bool,
                              devices2: seq<DeviceInfo>, extensions2: seq<string>, anisotropy2: bool,
                              priorities2: real, queueTypes2: seq<Flags>, hasSurface2: bool)
    requires reg.next < UINT32_MAX
    ensures var first := CreatePhysicalDevice(reg, devices1, extensions1, anisotropy1, priorities1, queueTypes1, hasSurface1);
      var second := CreatePhysicalDevice(first.0, devices2, extensions2, anisotropy2, priorities2, queueTypes2, hasSurface2);
      first.1.Ok? ==>
        && first.1.value.id in second.0.entries
        && second.0.entries[first.1.value.id] == first.1.value
        && first.1.value.payload.deviceIndex < |devices1|
  {
  }

  // ---------------------------------------------------------------------
  // createImage, createBuffer

  /** What an `Image` or `Buffer` record keeps of its memory allocation. */
  datatype MemoryBacked = MemoryBacked(memoryTypeIndex: nat, size: nat)

  /**
   * `createImage`/`createBuffer`: the id is taken first, then a memory type
   * is chosen for the object's requirements with `memoryTypeIndex` as
   * written, which consults bit 0 of `memoryTypeBits` only; no matching
   * type is an exception after the id is consumed.
   */
  function CreateMemoryBacked(reg: Registry<MemoryBacked>, types: seq<MemoryType>, memoryTypeBits: Flags,
                              properties: Flags, size: nat): (r: (Registry<MemoryBacked>, Result<Entry<MemoryBacked>, string>))
    requires reg.next <= UINT32_MAX
    ensures reg.next < UINT32_MAX ==> r.0.next == reg.next + 1
    ensures r.1.Err? <==> memoryTypeBits & 1 == 0 || forall j :: 0 <= j < |types| ==> !HasAll(types[j].propertyFlags, properties)
    ensures r.1.Err? ==> r.0.entries == reg.entries
    ensures r.1.Ok? ==> var e := r.1.value; var k := e.payload.memoryTypeIndex;
      && e.id == reg.next && r.0.entries == reg.entries[e.id := e] && e.payload.size == size
      && k < |types| && HasAll(types[k].propertyFlags, properties)
      && (forall j :: 0 <= j < k ==> !HasAll(types[j].propertyFlags, properties))
  {
    Store(reg, Utility.MemoryTypeIndexAsWritten(types, memoryTypeBits, properties, 0), size)
  }

  /**
   * The same creation with the corrected `memoryTypeIndex`: the chosen type
   * is the lowest one whose bit is set in `memoryTypeBits` and which has
   * the properties.
   */
  function CreateMemoryBackedCorrected(reg: Registry<MemoryBacked>, types: seq<MemoryType>, memoryTypeBits: Flags,
                                       properties: Flags, size: nat): (r: (Registry<MemoryBacked>, Result<Entry<MemoryBacked>, string>))
    requires reg.next <= UINT32_MAX && |types| <= 32
    ensures reg.next < UINT32_MAX ==> r.0.next == reg.next + 1
    ensures r.1.Err? <==> forall j :: 0 <= j < |types| ==> !Factory.MemoryTypeMatches(types, memoryTypeBits, properties, j)
    ensures r.1.Err? ==> r.0.entries == reg.entries
    ensures r.1.Ok? ==> var e := r.1.value; var k := e.payload.memoryTypeIndex;
      && e.id == reg.next && r.0.entries == reg.entries[e.id := e] && e.payload.size == size
      && k < |types| && Factory.MemoryTypeMatches(types, memoryTypeBits, properties, k)
      && (forall j :: 0 <= j < k ==> !Factory.MemoryTypeMatches(types, memoryTypeBits, properties, j))
  {
    Store(reg, Utility.MemoryTypeIndex(types, memoryTypeBits, properties), size)
  }

  /** Take an id, then store the record for a found memory type or pass the error on. */
  function Store(reg: Registry<MemoryBacked>, found: Result<nat, string>, size: nat): (r: (Registry<MemoryBacked>, Result<Entry<MemoryBacked>, string>))
    requires reg.next <= UINT32_MAX
    ensures reg.next < UINT32_MAX ==> r.0.next == reg.next + 1
    ensures r.1.Err? <==> found.Err?
    ensures r.1.Err? ==> r.0.entries == reg.entries
    ensures r.1.Ok? ==> (found.Ok? && r.1.value == Entry(reg.next, MemoryBacked(found.value, size))
      && r.0.entries == reg.entries[reg.next := r.1.value])
  {
    var (bumped, id) := Allocate(reg);
    match found
    case Err(msg) => (bumped, Err(msg))
    case Ok(memoryType) =>
      var e := Entry(id, MemoryBacked(memoryType, size));
      (bumped.(entries := bumped.entries[id := e]), Ok(e))
  }

  // ---------------------------------------------------------------------
  // createSwapChainImageViews

  // VkImageViewType, VkImageAspectFlagBits
  const IMAGE_VIEW_TYPE_2D: nat := 1
  const IMAGE_ASPECT_COLOR_BIT: Flags := 0x1

  datatype ImageViewCreateInfo = ImageViewCreateInfo(
    image: nat,
    viewType: nat,
    format: nat,
    aspectMask: Flags,
    baseMipLevel: nat,
    levelCount: nat,
    baseArrayLayer: nat,
    layerCount: nat
  )

  /** The view of one swap-chain image: 2D, colour, one mip level, one layer. */
  function ColorViewInfo(image: nat, format: nat): ImageViewCreateInfo {
    ImageViewCreateInfo(image, IMAGE_VIEW_TYPE_2D, format, IMAGE_ASPECT_COLOR_BIT, 0, 1, 0, 1)
  }

  /** `createSwapChainImageViews`: one view per swap-chain image, in order,
      each created through `createImageView` and so given the next ids. */
  function CreateSwapChainImageViews(reg: Registry<ImageViewCreateInfo>, images: seq<nat>, imageFormat: nat): (r: (Registry<ImageViewCreateInfo>, seq<Entry<ImageViewCreateInfo>>))
    requires reg.next + |images| <= UINT32_MAX
    ensures |r.1| == |images|
    ensures forall k :: 0 <= k < |images| ==>
      && r.1[k].id == reg.next + k
      && r.1[k].payload.image == images[k] && r.1[k].payload.format == imageFormat
      && r.1[k].payload.viewType == IMAGE_VIEW_TYPE_2D && r.1[k].payload.aspectMask == IMAGE_ASPECT_COLOR_BIT
      && r.1[k].payload.baseMipLevel == 0 && r.1[k].payload.levelCount == 1
      && r.1[k].payload.baseArrayLayer == 0 && r.1[k].payload.layerCount == 1
      && r.1[k].id in r.0.entries && r.0.entries[r.1[k].id] == r.1[k]
    ensures r.0.next == reg.next + |images|
    ensures forall id :: id in reg.entries && !(reg.next <= id < reg.next + |images|) ==>
      id in r.0.entries && r.0.entries[id] == reg.entries[id]
  {
    var infos := seq(|images|, k requires 0 <= k < |images| => ColorViewInfo(images[k], imageFormat));
    var r := CreateAll(reg, infos);
    assert forall k :: 0 <= k < |images| ==> r.1[k] == Entry(reg.next + k, infos[k]);
    assert forall k :: 0 <= k < |images| ==> r.1[k].id in r.0.entries && r.0.entries[r.1[k].id] == r.1[k];
    r
  }
}
