/**
 * Vulkan handles and the driver calls that release them. A handle is either
 * `VK_NULL_HANDLE` or a live object; the destroy functions of both factories
 * are modelled as returning the new handle values together with the log of
 * driver calls they issue, in order.
 */
module Handles {

  datatype Handle = Null | Live(id: nat)

  datatype ObjectKind =
    | ImageViewObject | FramebufferObject | ImageObject | BufferObject | MemoryObject
    | PipelineObject | PipelineLayoutObject | SwapchainObject | ShaderModuleObject
    | CommandPoolObject | DescriptorPoolObject | DescriptorSetLayoutObject | RenderPassObject
    | SurfaceObject | DeviceObject | InstanceObject | DebugMessengerObject

  /** One driver call: `vkDestroy*`/`vkFreeMemory` of an object, `vkUnmapMemory`,
      or `vkFreeCommandBuffers` with its count argument. */
  datatype DriverCall = Destroy(kind: ObjectKind, id: nat) | Unmap(id: nat) | FreeCommandBuffers(count: nat)

  /** The call a null-checked destroy issues for `h`: none for a null handle. */
  function Release(kind: ObjectKind, h: Handle): seq<DriverCall> {
    if h.Live? then [Destroy(kind, h.id)] else []
  }

  /**
   * The null-checked destroy every `destroyX(VkX& x, ...)` shares: when the
   * handle is live, destroy it and reset it to null.
   */
  function DestroyHandle(kind: ObjectKind, h: Handle): (r: (Handle, seq<DriverCall>))
    ensures r.0 == Null
    ensures r.1 == [] <==> h.Null?
    ensures h.Live? ==> r.1 == [Destroy(kind, h.id)]
  {
    (Null, Release(kind, h))
  }

  /** Destroying twice releases the object once: the second call is a no-op. */
  lemma DestroyHandleIdempotent(kind: ObjectKind, h: Handle)
    ensures var (h1, calls1) := DestroyHandle(kind, h);
      var (h2, calls2) := DestroyHandle(kind, h1);
      h2 == h1 && calls2 == [] && |calls1 + calls2| <= 1
  {
  }

  /** One call per live handle of `hs`, in the order of `hs`. */
  function ReleaseCalls(kind: ObjectKind, hs: seq<Handle>): (r: seq<DriverCall>)
    ensures |r| <= |hs|
    ensures forall c :: c in r <==> exists i :: 0 <= i < |hs| && hs[i].Live? && c == Destroy(kind, hs[i].id)
    ensures r == [] <==> forall i :: 0 <= i < |hs| ==> hs[i].Null?
    decreases |hs|
  {
    if |hs| == 0 then []
    else
      var rest := ReleaseCalls(kind, hs[1..]);
      assert forall i :: 1 <= i < |hs| ==> hs[i] == hs[1..][i - 1];
      Release(kind, hs[0]) + rest
  }

  /** A one-handle vector issues exactly that handle's `Release`. */
  lemma ReleaseCallsSingleton(kind: ObjectKind, h: Handle)
    ensures ReleaseCalls(kind, [h]) == Release(kind, h)
  {
    assert [h][1..] == [];
  }

  /**
   * A concatenation issues the calls of its parts one after the other. With
   * `ReleaseCallsSingleton` this determines the calls exactly: one
   * `Release` per handle, in vector order.
   */
  lemma {:induction false} ReleaseCallsConcat(kind: ObjectKind, a: seq<Handle>, b: seq<Handle>)
    ensures ReleaseCalls(kind, a + b) == ReleaseCalls(kind, a) + ReleaseCalls(kind, b)
    decreases |a|
  {
    if |a| == 0 {
      assert a + b == b;
    } else {
      var ab := a + b;
      assert ab[0] == a[0] && ab[1..] == a[1..] + b;
      ReleaseCallsConcat(kind, a[1..], b);
      var first, restA, restB := Release(kind, a[0]), ReleaseCalls(kind, a[1..]), ReleaseCalls(kind, b);
      assert ReleaseCalls(kind, ab) == first + (restA + restB);
      assert ReleaseCalls(kind, a) == first + restA;
      Reassociate(first, restA, restB);
    }
  }

  /** A call issued for `obj`: its object, or the unmap or free of its memory,
      each only while that handle is live. */
  predicate CallOf(kind: ObjectKind, obj: MemoryBacked, c: DriverCall) {
    || (obj.value.Live? && c == Destroy(kind, obj.value.id))
    || (obj.memory.Live? && (c == Destroy(MemoryObject, obj.memory.id) || c == Unmap(obj.memory.id)))
  }

  /** A handle that owns device memory (`Image`, `Buffer`), with the memory's
      property flags. */
  datatype MemoryBacked = MemoryBacked(value: Handle, memory: Handle, memoryProperties: bv32)

  // VkMemoryPropertyFlagBits
  const MEMORY_PROPERTY_HOST_VISIBLE_BIT: bv32 := 0x2

  /** Calls issued for the elements of a vector, one after the other, were
      each issued for some element. */
  lemma CallsFromElements(kind: ObjectKind, objs: seq<MemoryBacked>, first: seq<DriverCall>, rest: seq<DriverCall>)
    requires |objs| > 0
    requires forall c :: c in first ==> CallOf(kind, objs[0], c)
    requires forall c :: c in rest ==> exists i :: 0 <= i < |objs[1..]| && CallOf(kind, objs[1..][i], c)
    ensures forall c :: c in first + rest ==> exists i :: 0 <= i < |objs| && CallOf(kind, objs[i], c)
  {
    forall c | c in first + rest ensures exists i :: 0 <= i < |objs| && CallOf(kind, objs[i], c) {
      if c in first {
        assert CallOf(kind, objs[0], c);
      } else {
        var i :| 0 <= i < |objs[1..]| && CallOf(kind, objs[1..][i], c);
        assert objs[1..][i] == objs[i + 1];
      }
    }
  }

  /** Logs (and vectors) append associatively. */
  lemma Reassociate<T>(x: seq<T>, y: seq<T>, z: seq<T>)
    ensures x + (y + z) == (x + y) + z
  {
  }
}
