/**
 * `utility::Factory` (src/main/cpp/exqudens/vulkan/utility/Factory.cpp):
 * the destroy functions of the plain-Vulkan factory, the suffix rule of
 * `createShader`, the `createSurface` guard and the fixed counts of the
 * pipeline-layout, vertex-input and descriptor-pool create infos. Its
 * logger line is `LoggerLine.Line`.
 */
module UtilityFactory {
  import opened Wrappers
  import opened VkTypes
  import opened Handles
  import Factory

  // ---------------------------------------------------------------------
  // Destroy functions

  /** `destroyCommandPool`, `destroyPipelineLayout`, `destroySwapChain(VkSwapchainKHR&)`,
      `destroyDevice` and the other single-handle destroys: `Handles.DestroyHandle`. */
  function DestroyCommandPool(commandPool: Handle): (r: (Handle, seq<DriverCall>))
    ensures r.0.Null? && (r.1 == [] <==> commandPool.Null?)
    ensures commandPool.Live? ==> r.1 == [Destroy(CommandPoolObject, commandPool.id)]
  {
    DestroyHandle(CommandPoolObject, commandPool)
  }

  function DestroyDevice(device: Handle): (r: (Handle, seq<DriverCall>))
    ensures r.0.Null? && (r.1 == [] <==> device.Null?)
    ensures device.Live? ==> r.1 == [Destroy(DeviceObject, device.id)]
  {
    DestroyHandle(DeviceObject, device)
  }

  /** A second destroy of a command pool or a device issues no call. */
  lemma DestroyHandlesIdempotent(commandPool: Handle, device: Handle)
    ensures DestroyCommandPool(DestroyCommandPool(commandPool).0) == (Null, [])
    ensures DestroyDevice(DestroyDevice(device).0) == (Null, [])
  {
  }

  /** `destroyImageView`: destroys a live view but leaves the handle as it was. */
  function DestroyImageView(view: Handle): (r: (Handle, seq<DriverCall>))
    ensures r.0 == view
    ensures r.1 == [] <==> view.Null?
  {
    (view, Release(ImageViewObject, view))
  }

  /** `destroyImageViews`: one call per live view; the vector keeps its
      length and its (now dangling) handles. */
  function DestroyImageViews(views: seq<Handle>): (r: (seq<Handle>, seq<DriverCall>))
    ensures r.0 == views
    ensures forall c :: c in r.1 <==> exists i :: (0 <= i < |views| && views[i].Live?
      && c == Destroy(ImageViewObject, views[i].id))
  {
    (views, ReleaseCalls(ImageViewObject, views))
  }

  /** A second `destroyImageViews` re-issues every call: destroying views is
      not idempotent. */
  lemma DestroyImageViewsRepeats(views: seq<Handle>)
    ensures DestroyImageViews(DestroyImageViews(views).0) == DestroyImageViews(views)
  {
  }

  /** `destroyFrameBuffers`: each framebuffer is destroyed and nulled in
      place; the vector is not cleared. */
  function DestroyFrameBuffers(frameBuffers: seq<Handle>): (r: (seq<Handle>, seq<DriverCall>))
    ensures |r.0| == |frameBuffers|
    ensures forall i :: 0 <= i < |r.0| ==> r.0[i].Null?
    ensures forall c :: c in r.1 <==> exists i :: (0 <= i < |frameBuffers| && frameBuffers[i].Live?
      && c == Destroy(FramebufferObject, frameBuffers[i].id))
  {
    (seq(|frameBuffers|, _ => Null), ReleaseCalls(FramebufferObject, frameBuffers))
  }

  /** Destroying the framebuffers again issues no call. */
  lemma DestroyFrameBuffersIdempotent(frameBuffers: seq<Handle>)
    ensures var (once, _) := DestroyFrameBuffers(frameBuffers);
      DestroyFrameBuffers(once) == (once, [])
  {
    var once := DestroyFrameBuffers(frameBuffers).0;
    var again := DestroyFrameBuffers(once);
    assert again.0 == once;
  }

  /** `destroyImage`/`destroyBuffer` of this file: the object is destroyed
      before its memory is freed; both fields end up null. */
  function DestroyMemoryBacked(kind: ObjectKind, obj: MemoryBacked): (r: (MemoryBacked, seq<DriverCall>))
    ensures r.0.value.Null? && r.0.memory.Null?
    ensures r.1 == [] <==> obj.value.Null? && obj.memory.Null?
    ensures obj.value.Live? ==> r.1[0] == Destroy(kind, obj.value.id)
    ensures obj.memory.Live? ==> r.1[|r.1| - 1] == Destroy(MemoryObject, obj.memory.id)
    ensures forall c :: c in r.1 ==> c.Destroy? && CallOf(kind, obj, c)
    ensures |r.1| == (if obj.value.Live? then 1 else 0) + (if obj.memory.Live? then 1 else 0)
  {
    var (value, valueCalls) := DestroyHandle(kind, obj.value);
    var (memory, memoryCalls) := DestroyHandle(MemoryObject, obj.memory);
    (obj.(value := value, memory := memory), valueCalls + memoryCalls)
  }

  /** The two factories release the same object and memory, in opposite
      orders: this one the object first, `Factory.cpp` the memory first. */
  lemma DestroyOrderDiffers(kind: ObjectKind, obj: MemoryBacked)
    requires obj.value.Live? && obj.memory.Live?
    ensures DestroyMemoryBacked(kind, obj).1 == [Destroy(kind, obj.value.id), Destroy(MemoryObject, obj.memory.id)]
    ensures Factory.DestroyMemoryBacked(kind, obj, false).1 == [Destroy(MemoryObject, obj.memory.id), Destroy(kind, obj.value.id)]
  {
  }

  /** A destroyed image or buffer can be destroyed again without any call. */
  lemma DestroyMemoryBackedIdempotent(kind: ObjectKind, obj: MemoryBacked)
    ensures var (once, _) := DestroyMemoryBacked(kind, obj);
      DestroyMemoryBacked(kind, once) == (once, [])
  {
  }

  /** `destroyImages`: each image destroyed and nulled in place; the vector
      keeps its length. */
  function DestroyImages(images: seq<MemoryBacked>): (r: (seq<MemoryBacked>, seq<DriverCall>))
    ensures |r.0| == |images|
    ensures forall i :: 0 <= i < |r.0| ==>
      r.0[i].value.Null? && r.0[i].memory.Null? && r.0[i].memoryProperties == images[i].memoryProperties
    ensures forall i :: 0 <= i < |images| && images[i].value.Live? ==> Destroy(ImageObject, images[i].value.id) in r.1
    ensures forall i :: 0 <= i < |images| && images[i].memory.Live? ==> Destroy(MemoryObject, images[i].memory.id) in r.1
    ensures forall c :: c in r.1 ==> exists i :: 0 <= i < |images| && CallOf(ImageObject, images[i], c)
    decreases |images|
  {
    if |images| == 0 then ([], [])
    else
      var (first, firstCalls) := DestroyMemoryBacked(ImageObject, images[0]);
      var (rest, restCalls) := DestroyImages(images[1..]);
      assert forall i :: 1 <= i < |images| ==> images[i] == images[1..][i - 1];
      CallsFromElements(ImageObject, images, firstCalls, restCalls);
      ([first] + rest, firstCalls + restCalls)
  }

  /** A one-image vector is `DestroyMemoryBacked` of that image. */
  lemma DestroyImagesSingleton(o: MemoryBacked)
    ensures DestroyImages([o]) == ([DestroyMemoryBacked(ImageObject, o).0], DestroyMemoryBacked(ImageObject, o).1)
  {
    assert [o][1..] == [];
    var (first, firstCalls) := DestroyMemoryBacked(ImageObject, o);
    assert DestroyImages([o]) == ([first] + [], firstCalls + []);
    assert [first] + [] == [first] && firstCalls + [] == firstCalls;
  }

  /** Destroying a concatenation destroys its parts one after the other. With
      the singleton case this fixes the calls exactly: each image's object,
      then its memory, in vector order. */
  lemma {:induction false} DestroyImagesConcat(a: seq<MemoryBacked>, b: seq<MemoryBacked>)
    ensures DestroyImages(a + b) == (DestroyImages(a).0 + DestroyImages(b).0, DestroyImages(a).1 + DestroyImages(b).1)
    decreases |a|
  {
    if |a| == 0 {
      assert a + b == b;
      var (restB, callsB) := DestroyImages(b);
      assert DestroyImages(a) == ([], []);
      assert [] + restB == restB && [] + callsB == callsB;
    } else {
      var ab := a + b;
      assert ab[0] == a[0] && ab[1..] == a[1..] + b;
      DestroyImagesConcat(a[1..], b);
      var d := DestroyMemoryBacked(ImageObject, a[0]);
      var restA, restB := DestroyImages(a[1..]), DestroyImages(b);
      assert DestroyImages(ab).0 == [d.0] + (restA.0 + restB.0);
      assert DestroyImages(ab).1 == d.1 + (restA.1 + restB.1);
      assert DestroyImages(a).0 == [d.0] + restA.0;
      assert DestroyImages(a).1 == d.1 + restA.1;
      Reassociate([d.0], restA.0, restB.0);
      Reassociate(d.1, restA.1, restB.1);
    }
  }

  /** `destroyPipeline(Pipeline&)`: `destroyPipeline(value)` then
      `destroyPipelineLayout(layout)`, the same calls as `Factory.cpp`. */
  function DestroyPipeline(p: Factory.Pipeline): (r: (Factory.Pipeline, seq<DriverCall>))
    ensures r == Factory.DestroyPipeline(p)
    ensures r.0.value.Null? && r.0.layout.Null?
  {
    var (value, valueCalls) := DestroyHandle(PipelineObject, p.value);
    var (layout, layoutCalls) := DestroyHandle(PipelineLayoutObject, p.layout);
    (Factory.Pipeline(value, layout), valueCalls + layoutCalls)
  }

  /** `destroySwapChain(SwapChain&)`: destroy the handle, then zero the extent. */
  function DestroySwapChain(s: Factory.SwapChain): (r: (Factory.SwapChain, seq<DriverCall>))
    ensures r.0.value.Null? && r.0.extent == Extent2D(0, 0)
    ensures r == Factory.DestroySwapChain(s)
  {
    var (h, calls) := DestroyHandle(SwapchainObject, s.value);
    (Factory.SwapChain(h, Extent2D(0, 0)), calls)
  }

  /** `destroyQueue(VkQueue&)`: queues belong to the device, so only the
      handle is reset, with no call. Unlike `Factory.cpp`'s `destroyQueue`,
      there is no family index to reset. */
  function DestroyQueue(queue: Handle): (r: (Handle, seq<DriverCall>))
    ensures r.0.Null? && r.1 == []
  {
    (Null, [])
  }

  /** `destroyCommandBuffers`: one `vkFreeCommandBuffers` with the vector's
      size as a 32-bit count, whatever the handles; the vector is untouched. */
  function DestroyCommandBuffers(commandBuffers: seq<Handle>): (r: (seq<Handle>, seq<DriverCall>))
    ensures r.0 == commandBuffers
    ensures |r.1| == 1 && r.1[0].FreeCommandBuffers?
    ensures |commandBuffers| <= UINT32_MAX ==> r.1[0].count == |commandBuffers|
  {
    (commandBuffers, [FreeCommandBuffers(ToUint32(|commandBuffers|))])
  }

  // ---------------------------------------------------------------------
  // createShader, createSurface

  // VkShaderStageFlagBits
  const SHADER_STAGE_VERTEX_BIT: Flags := 0x1
  const SHADER_STAGE_FRAGMENT_BIT: Flags := 0x10

  predicate EndsWith(s: string, suffix: string) {
    |suffix| <= |s| && s[|s| - |suffix|..] == suffix
  }

  /** `Shader`: the module and the stage of its pipeline-stage info (entry
      point `main`). */
  datatype Shader = Shader(shaderModule: Handle, stage: Flags, entryPoint: string)

  /**
   * `createShader(device, path)`. The file's bytes are `code` (reading the
   * file is not modelled) and `created` is what `vkCreateShaderModule`
   * produced (`None` when it did not return success). Empty code, a failed
   * or null module, and a path with neither suffix are exceptions; the last
   * is raised after the module exists.
   */
  function CreateShader(code: seq<char>, created: Option<Handle>, path: string): (r: Result<Shader, string>)
    ensures r.Ok? <==>
      |code| > 0 && created.Some? && created.value.Live? && (EndsWith(path, ".vert.spv") || EndsWith(path, ".frag.spv"))
    ensures r.Ok? ==> r.value.shaderModule == created.value && r.value.entryPoint == "main"
    ensures r.Ok? ==> (r.value.stage == SHADER_STAGE_VERTEX_BIT <==> EndsWith(path, ".vert.spv"))
    ensures r.Ok? ==> (r.value.stage == SHADER_STAGE_FRAGMENT_BIT <==> !EndsWith(path, ".vert.spv"))
  {
    if |code| == 0 then Err("failed to create shader module code is empty!")
    else if created.None? || created.value.Null? then Err("failed to create shader module!")
    else if EndsWith(path, ".vert.spv") then Ok(Shader(created.value, SHADER_STAGE_VERTEX_BIT, "main"))
    else if EndsWith(path, ".frag.spv") then Ok(Shader(created.value, SHADER_STAGE_FRAGMENT_BIT, "main"))
    else Err("'" + path + "' failed to create shader!")
  }

  /** The two suffixes exclude each other, so the stage is determined by the path. */
  lemma ShaderSuffixesExclusive(path: string)
    ensures !(EndsWith(path, ".vert.spv") && EndsWith(path, ".frag.spv"))
  {
  }

  /** `createSurface`: `installed` is the result of the installed surface
      function, `None` when none is installed (`std::bad_function_call`). A
      missing function and a null surface are exceptions. */
  function CreateSurface(installed: Option<Handle>): (r: Result<Handle, string>)
    ensures r.Ok? <==> installed.Some? && installed.value.Live?
    ensures r.Ok? ==> r.value == installed.value
  {
    match installed
    case Some(Live(id)) => Ok(Live(id))
    case _ => Err("failed create surface!")
  }

  // ---------------------------------------------------------------------
  // Counts in create infos

  /** The counts `createGraphicsPipeline` puts in its create infos. */
  datatype PipelineCounts = PipelineCounts(
    setLayoutCount: nat,
    vertexBindingDescriptionCount: nat,
    vertexAttributeDescriptionCount: nat
  )

  function GraphicsPipelineCounts(descriptorSetLayout: Handle, hasBindingDescription: bool, attributeCount: nat): (r: PipelineCounts)
    ensures r.setLayoutCount <= 1 && (r.setLayoutCount == 1 <==> descriptorSetLayout.Live?)
    ensures r.vertexBindingDescriptionCount <= 1 && (r.vertexBindingDescriptionCount == 1 <==> hasBindingDescription)
    ensures attributeCount <= UINT32_MAX ==> r.vertexAttributeDescriptionCount == attributeCount
  {
    PipelineCounts(if descriptorSetLayout.Live? then 1 else 0, if hasBindingDescription then 1 else 0, ToUint32(attributeCount))
  }

  // VkDescriptorType
  const DESCRIPTOR_TYPE_COMBINED_IMAGE_SAMPLER: nat := 1
  const DESCRIPTOR_TYPE_UNIFORM_BUFFER: nat := 6

  datatype PoolSize = PoolSize(descriptorType: nat, descriptorCount: nat)

  datatype DescriptorPoolInfo = DescriptorPoolInfo(maxSets: nat, poolSizes: seq<PoolSize>)

  /** `createDescriptorPool(device, size)`: a uniform-buffer and a
      combined-image-sampler pool size, each of `size` descriptors, and
      `size` sets, all as 32-bit counts. */
  function CreateDescriptorPool(size: nat): (r: DescriptorPoolInfo)
    ensures |r.poolSizes| == 2
    ensures r.poolSizes[0].descriptorType == DESCRIPTOR_TYPE_UNIFORM_BUFFER
    ensures r.poolSizes[1].descriptorType == DESCRIPTOR_TYPE_COMBINED_IMAGE_SAMPLER
    ensures forall k :: 0 <= k < |r.poolSizes| ==> r.poolSizes[k].descriptorCount == r.maxSets
    ensures size <= UINT32_MAX ==> r.maxSets == size
    ensures r.maxSets <= UINT32_MAX
  {
    var count := ToUint32(size);
    DescriptorPoolInfo(count, [PoolSize(DESCRIPTOR_TYPE_UNIFORM_BUFFER, count), PoolSize(DESCRIPTOR_TYPE_COMBINED_IMAGE_SAMPLER, count)])
  }

  /** A `size` of 2^32 truncates to zero sets. */
  lemma DescriptorPoolSizeWraps()
    ensures CreateDescriptorPool(UINT32_MAX + 1).maxSets == 0
  {
  }
}
