# exqudens-cpp-vulkan: selection rules, lifecycles and helpers in Dafny

exqudens-cpp-vulkan is a C++ helper library around Vulkan. It has three layers:
- the C-API factory `exqudens::vulkan::Factory`;
- an older `utility::Factory` with the `UtilFunctions`/`CreateFunctions` pair;
- a `vulkan.hpp`/RAII layer, made of `Utility`, `raii::Utility` and `Environment`.

Under the driver calls, every layer makes the same kinds of deterministic decisions:
- which queue families to use and which physical device to pick;
- which swap-chain format, present mode, extent, image count, transform and composite alpha to use;
- which memory type and depth format match a set of flags;
- how destroying a handle resets it, and how objects get their ids.

This project models those decisions as pure Dafny functions over the data the driver would return. Each throw path is a `Result` error. Every Vulkan query is a parameter: queue family properties, surface support, extension and layer lists, format and memory properties. It also models three smaller parts:
- the `StringVector` and `QueueFamilyIndices` value types;
- the debug-message callback of `Messenger`;
- the string, stack-trace and PNG-layout helpers of the test suite.

Modules follow the source files:

| module | file |
|---|---|
| `QueueScan` | the queue-family scan loop shared by `Factory::findQueueFamilies` and `UtilFunctions::findQueueFamilies` |
| `Factory` | `Factory.cpp` (C-API factory) |
| `UtilityFactory`, `LoggerLine` | `utility/Factory.cpp` |
| `Utility` | `Utility.hpp` |
| `UtilFunctions`, `CreateFunctions` | `function/UtilFunctions.cpp`, `function/CreateFunctions.cpp` |
| `QueueFamilyIndices` | `model/QueueFamilyIndices.cpp` |
| `RaiiUtility` | `raii/Utility.hpp` |
| `Environment` | `Environment.hpp` |
| `StringVector` | `model/StringVector.hpp` |
| `Messenger` | `Messenger.hpp` |
| `TestUtils` | both `TestUtils.hpp` test headers |
| `Handles`, `VkTypes`, `Search`, `Wrappers` | shared handles, Vulkan data, search helpers, `Option`/`Result` |

Modelling choices:
- A handle is `Null` or `Live(id)`. A destroy function returns the new handle together with the driver calls it issues.
- Flags are `bv32`.
- `uint32_t` wrap-around is written out (`ToUint32`) where the source can overflow:
  - `minImageCount + 1`;
  - `size_t` to `uint32_t` counts;
  - `unsigned int` id counters.

## Model

| member | source | states |
|---|---|---|
| QueueScan.LastMatch | src/main/cpp/exqudens/vulkan/Factory.cpp:199-225 | the slot a kind ends with is the largest index below `n` whose family supports it: every later family lacks the kind, and `None` means no family below `n` has it |
| QueueScan.SlotsAtMeaning | src/main/cpp/exqudens/vulkan/Factory.cpp:199-225 | after `n` families, a required kind's slot holds the last supporting index below `n` (or `None` if there is none), and an unrequired kind's slot stays empty |
| QueueScan.RecordFamilyStep | src/main/cpp/exqudens/vulkan/Factory.cpp:199-225 | one loop iteration turns the slots after `i` families into the slots after `i + 1`, because a later match overwrites an earlier one |
| QueueScan.AllFoundAt | src/main/cpp/exqudens/vulkan/Factory.cpp:226-232 | the loop's stopping test holds on the slots after `n` families iff those families together support every stopping kind |
| QueueScan.CoveredMonotone | src/main/cpp/exqudens/vulkan/Factory.cpp:199-232 | once a prefix covers the stopping kinds, every longer prefix does too |
| QueueScan.ScanMeaning | src/main/cpp/exqudens/vulkan/Factory.cpp:191-239 | resumed after `i` families none of whose prefixes stopped, the loop breaks iff a longer prefix covers the stopping kinds, then holding the slots of the shortest such prefix; otherwise it ends with the slots of all families |
| QueueScan.ScanFromStart | src/main/cpp/exqudens/vulkan/Factory.cpp:191-239 | from the start, the loop breaks iff there is a family and all families together cover the stopping kinds, stopping at the first covering prefix |
| Factory.FindQueueFamiliesMeaning | src/main/cpp/exqudens/vulkan/Factory.cpp:179-260 | present is required iff there is a surface; `complete` iff the families cover every required kind (never with zero families); the slots are those of the first covering prefix; when complete, every required slot is filled and the unique set is exactly the recorded required indices, otherwise it is empty |
| Factory.FoundSlotsHold | src/main/cpp/exqudens/vulkan/Factory.cpp:226-232 | passing the per-kind completeness test means every required kind has a recorded index |
| Factory.RequiredIndicesMeaning | src/main/cpp/exqudens/vulkan/Factory.cpp:241-254 | the unique index set contains `i` iff some required kind recorded `i` |
| Factory.NoFamiliesNeverComplete | src/main/cpp/exqudens/vulkan/Factory.cpp:191-239 | with zero queue families the result is never complete, even if nothing is required |
| Factory.FindMemoryType | src/main/cpp/exqudens/vulkan/Factory.cpp:358-373 | the answer is the lowest index whose bit is set in `typeFilter` and whose property flags contain `properties`; it is an error iff no index qualifies |
| Factory.FindSupportedFormat | src/main/cpp/exqudens/vulkan/Factory.cpp:375-395 | the answer is the first candidate whose linear or optimal features (as `tiling` selects) contain `features`; it is an error iff none does |
| Factory.FindDepthFormat | src/main/cpp/exqudens/vulkan/Factory.cpp:397-408 | preference order D32_SFLOAT, then D32_SFLOAT_S8_UINT, then D24_UNORM_S8_UINT: each is chosen iff it supports depth-stencil attachment with optimal tiling and every earlier one does not; an error iff none does |
| Factory.ChooseSwapSurfaceFormat | src/main/cpp/exqudens/vulkan/Factory.cpp:314-325 | the choice is the first B8G8R8A8_SRGB/SRGB_NONLINEAR entry if one exists, else the first entry |
| Factory.ChooseSwapPresentMode | src/main/cpp/exqudens/vulkan/Factory.cpp:327-338 | MAILBOX iff it is offered, otherwise FIFO |
| Factory.Clamp | src/main/cpp/exqudens/vulkan/Factory.cpp:349-351 | with `lo <= hi` the result lies in `[lo, hi]`, and a value already in range is kept |
| Factory.ChooseSwapExtent | src/main/cpp/exqudens/vulkan/Factory.cpp:340-356 | the current extent unless its width is UINT32_MAX; then each dimension is clamped into `[min, max]`, keeping a request already in range |
| Factory.SwapChainImageCount | src/main/cpp/exqudens/vulkan/Factory.cpp:948-952 | `minImageCount + 1`, lowered to `maxImageCount` when that is positive and not larger; never above a positive maximum |
| Factory.ImageCountWrapsAtMax | src/main/cpp/exqudens/vulkan/Factory.cpp:948 | `minImageCount == UINT32_MAX` wraps the 32-bit count to 0 |
| Factory.SwapChainInfo | src/main/cpp/exqudens/vulkan/Factory.cpp:927-1001 | an error iff there is no surface or the graphics or present family is missing; otherwise sharing is concurrent with `[graphics, present]` iff the two differ and exclusive with no indices otherwise, one array layer, clipped, and the count, format, mode, extent, transform and opaque alpha follow the choosers |
| Factory.SuitableMeaning | src/main/cpp/exqudens/vulkan/Factory.cpp:758-786 | a device is suitable iff its queue families are complete, every required extension is available, a surface comes with formats and present modes, and anisotropy is there when required |
| Factory.CreatePhysicalDeviceMeaning | src/main/cpp/exqudens/vulkan/Factory.cpp:726-801 | present required without a surface, or no devices at all, is an error; otherwise the chosen device is the first suitable one, with complete families, and an error means no device is suitable |
| Factory.DestroyImageView | src/main/cpp/exqudens/vulkan/Factory.cpp:2371-2379 | a destroy call is issued iff the view is live, but the handle is left as it was (never reset to null) |
| Factory.DestroyImageViewRepeats | src/main/cpp/exqudens/vulkan/Factory.cpp:2371-2379 | since the handle is not reset, destroying a live view twice issues the destroy call twice |
| Factory.DestroyImageViews | src/main/cpp/exqudens/vulkan/Factory.cpp:2381-2390 | the vector is cleared, and a destroy call is issued exactly for the live views |
| Factory.DestroyFrameBuffers | src/main/cpp/exqudens/vulkan/Factory.cpp:2311-2320 | the vector is cleared, and a destroy call is issued exactly for the live framebuffers |
| Factory.DestroyMemoryBacked | src/main/cpp/exqudens/vulkan/Factory.cpp:2400-2419 | both handles end null and the properties are kept; live memory is freed whatever the object handle is, and a live object is destroyed; an unmap happens iff asked and host-visible, and comes first; the memory is freed before the object; each call is issued once, and no call iff both were null |
| Factory.DestroyMemoryBackedIdempotent | src/main/cpp/exqudens/vulkan/Factory.cpp:2400-2419 | a second destroy changes nothing and issues no call |
| Factory.DestroyAllMemoryBacked | src/main/cpp/exqudens/vulkan/Factory.cpp:2432-2441 | the vector is cleared; every live object and memory is destroyed; every call issued is for a live handle of some element; all-null input issues no call |
| Factory.DestroyAllMemoryBackedSingleton | src/main/cpp/exqudens/vulkan/Factory.cpp:2432-2441 | one element issues exactly its own destroy calls, memory before object |
| Factory.DestroyAllMemoryBackedConcat | src/main/cpp/exqudens/vulkan/Factory.cpp:2432-2441 | a concatenation issues the calls of its first part, then those of its second part; with the singleton case, the calls are exactly each element's calls in vector order |
| Factory.DestroyPipeline | src/main/cpp/exqudens/vulkan/Factory.cpp:2322-2335 | both handles end null; one call per live handle, the pipeline first and the layout last |
| Factory.DestroySwapChain | src/main/cpp/exqudens/vulkan/Factory.cpp:2494-2504 | the handle ends null and the extent zero; no call iff the handle was null |
| Factory.DestroyQueue | src/main/cpp/exqudens/vulkan/Factory.cpp:2517-2524 | the family index and the handle are reset, without a driver call |
| Handles.DestroyHandle | src/main/cpp/exqudens/vulkan/utility/Factory.cpp:1621-1630 | the handle ends null; the only call is the destroy of a live handle |
| Handles.DestroyHandleIdempotent | src/main/cpp/exqudens/vulkan/utility/Factory.cpp:1621-1630 | a second destroy issues no call and leaves the handle null |
| Handles.ReleaseCalls | src/main/cpp/exqudens/vulkan/utility/Factory.cpp:1654-1662 | every call destroys a live handle of the vector, every live handle is destroyed, at most one call per handle; no calls iff every handle is null |
| Handles.ReleaseCallsSingleton | src/main/cpp/exqudens/vulkan/utility/Factory.cpp:1654-1662 | a one-handle vector issues exactly that handle's null-checked destroy |
| Handles.ReleaseCallsConcat | src/main/cpp/exqudens/vulkan/utility/Factory.cpp:1654-1662 | a concatenation issues the calls of its first part, then those of its second part; with the singleton case, exactly one destroy per live handle, in vector order |
| UtilityFactory.DestroyCommandPool | src/main/cpp/exqudens/vulkan/utility/Factory.cpp:1621-1630 | the pool ends null; a destroy call is issued iff it was live |
| UtilityFactory.DestroyDevice | src/main/cpp/exqudens/vulkan/utility/Factory.cpp:1817-1826 | the device ends null; a destroy call is issued iff it was live |
| UtilityFactory.DestroyHandlesIdempotent | src/main/cpp/exqudens/vulkan/utility/Factory.cpp:1817-1826 | destroying a command pool or device twice is a no-op the second time |
| UtilityFactory.DestroyImageView | src/main/cpp/exqudens/vulkan/utility/Factory.cpp:1729-1737 | the handle is left as it was, even after a destroy call |
| UtilityFactory.DestroyImageViews | src/main/cpp/exqudens/vulkan/utility/Factory.cpp:1739-1747 | the vector is left unchanged, and calls are issued exactly for the live views |
| UtilityFactory.DestroyImageViewsRepeats | src/main/cpp/exqudens/vulkan/utility/Factory.cpp:1739-1747 | destroying the same views twice issues the same calls twice |
| UtilityFactory.DestroyFrameBuffers | src/main/cpp/exqudens/vulkan/utility/Factory.cpp:1654-1662 | the length is kept and every entry is null; calls are issued exactly for the live framebuffers |
| UtilityFactory.DestroyFrameBuffersIdempotent | src/main/cpp/exqudens/vulkan/utility/Factory.cpp:1654-1662 | a second pass changes nothing and issues no call |
| UtilityFactory.DestroyMemoryBacked | src/main/cpp/exqudens/vulkan/utility/Factory.cpp:1749-1762 | both handles end null; exactly one destroy per live handle and nothing else, the object before its memory |
| UtilityFactory.DestroyOrderDiffers | src/main/cpp/exqudens/vulkan/utility/Factory.cpp:1774-1787 | for a live object with live memory, the two factories issue the same calls in opposite orders |
| UtilityFactory.DestroyMemoryBackedIdempotent | src/main/cpp/exqudens/vulkan/utility/Factory.cpp:1774-1787 | a second destroy is a no-op |
| UtilityFactory.DestroyImages | src/main/cpp/exqudens/vulkan/utility/Factory.cpp:1764-1772 | the vector keeps its length and memory properties, each entry ends null, every live image's destroy call is issued, and every call issued is for a live handle of some image |
| UtilityFactory.DestroyImagesSingleton | src/main/cpp/exqudens/vulkan/utility/Factory.cpp:1764-1772 | one image is destroyed as `destroyImage` destroys it: object, then memory |
| UtilityFactory.DestroyImagesConcat | src/main/cpp/exqudens/vulkan/utility/Factory.cpp:1764-1772 | a concatenation is destroyed part by part, in order, both in the resulting vector and in the calls; with the singleton case, the calls are exactly each image's calls in vector order |
| UtilityFactory.DestroyPipeline | src/main/cpp/exqudens/vulkan/utility/Factory.cpp:1664-1693 | the same handles and calls as the C-API factory: the pipeline, then the layout, both left null |
| UtilityFactory.DestroySwapChain | src/main/cpp/exqudens/vulkan/utility/Factory.cpp:1789-1807 | the same as the C-API factory: the handle is null and the extent zero |
| UtilityFactory.DestroyQueue | src/main/cpp/exqudens/vulkan/utility/Factory.cpp:1809-1815 | only the queue handle is reset, with no driver call |
| UtilityFactory.DestroyCommandBuffers | src/main/cpp/exqudens/vulkan/utility/Factory.cpp:1613-1619 | a single free call whose 32-bit count is the vector's size; the vector is left unchanged |
| UtilityFactory.CreateShader | src/main/cpp/exqudens/vulkan/utility/Factory.cpp:1097-1140 | success iff the code is non-empty, the module was created and is non-null, and the path ends in `.vert.spv` or `.frag.spv`; the stage is VERTEX iff the path ends in `.vert.spv`, else FRAGMENT; the entry point is `main` |
| UtilityFactory.ShaderSuffixesExclusive | src/main/cpp/exqudens/vulkan/utility/Factory.cpp:1120-1131 | no path ends in both shader suffixes |
| UtilityFactory.CreateSurface | src/main/cpp/exqudens/vulkan/utility/Factory.cpp:555-573 | success iff a surface function is installed and returns a non-null surface, which is then the result |
| UtilityFactory.GraphicsPipelineCounts | src/main/cpp/exqudens/vulkan/utility/Factory.cpp:1186-1260 | the set-layout count is 1 iff a layout is given, the binding count is 1 iff a binding is given, and the attribute count is the list size |
| UtilityFactory.CreateDescriptorPool | src/main/cpp/exqudens/vulkan/utility/Factory.cpp:1376-1403 | a uniform-buffer pool size and then a combined-image-sampler one, each with `maxSets` descriptors, where `maxSets` is `size` as a 32-bit count |
| UtilityFactory.DescriptorPoolSizeWraps | src/main/cpp/exqudens/vulkan/utility/Factory.cpp:1380 | a size of 2^32 truncates to zero sets |
| LoggerLine.Line | src/main/cpp/exqudens/vulkan/utility/Factory.cpp:426-462 | the line ends with the message, and starts with a space iff the severity is not one of the named levels |
| LoggerLine.UpToSpace | src/main/cpp/exqudens/vulkan/utility/Factory.cpp:450-456 | the result is the longest space-free prefix |
| LoggerLine.ParseLine | src/main/cpp/exqudens/vulkan/utility/Factory.cpp:450-456 | every line splits back into its level, type and message |
| LoggerLine.LineInjective | src/main/cpp/exqudens/vulkan/utility/Factory.cpp:450-456 | equal lines come from equal level names, type names and messages |
| LoggerLine.ParseJoined | src/main/cpp/exqudens/vulkan/utility/Factory.cpp:450-456 | joining two space-free fields, the marker and a message parses back to those three |
| Utility.ChooseSurfaceFormat | src/main/cpp/exqudens/vulkan/Utility.hpp:105-115 | a list holding only the undefined format is taken as is; otherwise the result is the first B8G8R8A8Srgb/SrgbNonlinear entry, or nothing if there is none (no fallback) |
| Utility.ChooseSurfaceFormatAgreesWithFactory | src/main/cpp/exqudens/vulkan/Utility.hpp:108-114 | where it finds a format, it agrees with `Factory::chooseSwapSurfaceFormat`; it finds nothing exactly where the factory falls back |
| Utility.ChooseTransform | src/main/cpp/exqudens/vulkan/Utility.hpp:143-147 | identity iff it is supported, otherwise the current transform |
| Utility.ChooseCompositeAlpha | src/main/cpp/exqudens/vulkan/Utility.hpp:149-157 | the first supported of pre-multiplied, post-multiplied and inherit; opaque iff none of them is supported |
| Utility.SwapChainCreateInfo | src/main/cpp/exqudens/vulkan/Utility.hpp:159-174 | an error iff no format is chosen; the min image count is taken unchanged (no `+1`); one array layer; clipped; sharing is concurrent with both indices iff they differ, otherwise exclusive with no indices |
| Utility.ImageDepthFormatOf | src/main/cpp/exqudens/vulkan/Utility.hpp:180-198 | the first candidate with the features under the tiling, as `Factory::findSupportedFormat` answers; an error iff no candidate has them |
| Utility.ImageDepthFormat | src/main/cpp/exqudens/vulkan/Utility.hpp:200-214 | the same answer as `Factory::findDepthFormat` for every device |
| Utility.MemoryTypeIndexAsWritten | src/main/cpp/exqudens/vulkan/Utility.hpp:216-235 | as written: an even `typeBits` always fails; an odd one answers the lowest index from `i` on whose flags contain the mask, whatever its own bit, and fails iff there is none |
| Utility.MemoryTypeIndexAsWrittenMeaning | src/main/cpp/exqudens/vulkan/Utility.hpp:216-235 | for all inputs, the loop as written equals the corrected search run with all 32 bits when bit 0 is set and with none otherwise: bits 1 to 31 are never read |
| Utility.ShiftedBit | src/main/cpp/exqudens/vulkan/Utility.hpp:225 | bit `i` read by shifting is the bit a mask `1 << i` selects |
| Utility.MemoryTypeIndexFrom | src/main/cpp/exqudens/vulkan/Utility.hpp:216-235 | corrected: the lowest index from `i` on whose own bit is set and whose flags contain the mask; an error iff there is none |
| Utility.MemoryTypeIndex | src/main/cpp/exqudens/vulkan/Utility.hpp:216-235 | corrected: the same answer as `Factory::findMemoryType` |
| Utility.MemoryTypeIndexCounterexample | src/main/cpp/exqudens/vulkan/Utility.hpp:225-226 | with `typeBits == 2`, type 1 qualifies, yet the loop as written fails; the corrected loop answers 1 |
| Utility.MemoryTypeIndexAcceptsClearBit | src/main/cpp/exqudens/vulkan/Utility.hpp:225-226 | with `typeBits == 1`, the loop as written accepts type 1 although its bit is clear; the corrected loop fails |
| UtilFunctions.CheckValidationLayerSupport | src/main/cpp/exqudens/vulkan/function/UtilFunctions.cpp:55-82 | true iff every requested layer is available; an empty request gives true |
| UtilFunctions.CheckDeviceExtensionSupport | src/main/cpp/exqudens/vulkan/function/UtilFunctions.cpp:208-226 | true iff every required extension is available |
| UtilFunctions.FindQueueFamiliesMeaning | src/main/cpp/exqudens/vulkan/function/UtilFunctions.cpp:147-206 | `isComplete` holds iff the families cover transfer, graphics and present as required, with compute never mattering; a complete result over at least one family holds the slots of the shortest complete non-empty prefix; otherwise (or with zero families) the slots of all families |
| UtilFunctions.IsDeviceSuitableMeaning | src/main/cpp/exqudens/vulkan/function/UtilFunctions.cpp:97-145 | an error iff present is required without a surface; otherwise suitable iff the families are complete (ignoring compute), the extensions are available, a surface comes with formats and present modes, and anisotropy is there when required |
| UtilFunctions.FactorySuitableImpliesSuitable | src/main/cpp/exqudens/vulkan/function/UtilFunctions.cpp:114-141 | every device the C-API factory accepts is accepted here too |
| UtilFunctions.ComputeRequirementIgnored | src/main/cpp/exqudens/vulkan/model/QueueFamilyIndices.cpp:66-71 | with compute required, a device with no compute family is suitable here but not for the C-API factory |
| UtilFunctions.ZeroFamiliesComplete | src/main/cpp/exqudens/vulkan/function/UtilFunctions.cpp:147-206 | with zero families and nothing required, `isComplete` holds, while the factory's `complete` does not |
| QueueFamilyIndices.Construct | src/main/cpp/exqudens/vulkan/model/QueueFamilyIndices.cpp:7-26 | the transfer, graphics and present pairs are the arguments; compute stays required and empty |
| QueueFamilyIndices.CompletenessRequirements | src/main/cpp/exqudens/vulkan/model/QueueFamilyIndices.cpp:66-71 | the required kinds with compute switched off |
| QueueFamilyIndices.IsCompleteIgnoresCompute | src/main/cpp/exqudens/vulkan/model/QueueFamilyIndices.cpp:66-71 | `isComplete` is the scan's stopping test without compute, and changing the compute pair never changes it |
| QueueFamilyIndices.IsCompleteMonotone | src/main/cpp/exqudens/vulkan/model/QueueFamilyIndices.cpp:66-71 | giving any family a value never turns complete into incomplete |
| QueueFamilyIndices.Copy | src/main/cpp/exqudens/vulkan/model/QueueFamilyIndices.cpp:30-40 | the copy carries the source's transfer, graphics and present pairs and a fresh compute pair |
| QueueFamilyIndices.Swap | src/main/cpp/exqudens/vulkan/model/QueueFamilyIndices.cpp:55-64 | each side takes the other's transfer, graphics and present flags and families, keeps its own compute pair, and so takes the other's completeness |
| QueueFamilyIndices.SwapInvolution | src/main/cpp/exqudens/vulkan/model/QueueFamilyIndices.cpp:55-64 | swapping twice restores both values |
| QueueFamilyIndices.Move | src/main/cpp/exqudens/vulkan/model/QueueFamilyIndices.cpp:42-44 | the new value equals a copy of the source, and the source is left default apart from its compute pair |
| QueueFamilyIndices.CopyAssign | src/main/cpp/exqudens/vulkan/model/QueueFamilyIndices.cpp:46-48 | the target takes the source's transfer, graphics and present pairs and keeps its own compute pair |
| QueueFamilyIndices.MoveAssign | src/main/cpp/exqudens/vulkan/model/QueueFamilyIndices.cpp:50-53 | target and source exchange their transfer, graphics and present flags and families, each keeping its compute pair, and so exchange completeness |
| QueueFamilyIndices.CopyPreservesCompleteness | src/main/cpp/exqudens/vulkan/model/QueueFamilyIndices.cpp:30-48 | copying, moving and copy-assigning all preserve `isComplete` |
| RaiiUtility.IsValidationLayersSupported | src/main/cpp/exqudens/vulkan/raii/Utility.hpp:20-60 | an error iff either enumeration fails; otherwise true iff every enabled layer is available |
| RaiiUtility.IsDeviceExtensionSupported | src/main/cpp/exqudens/vulkan/raii/Utility.hpp:62-79 | true iff the required names are a subset of the available ones |
| RaiiUtility.GetQueueFamilyIndices | src/main/cpp/exqudens/vulkan/raii/Utility.hpp:81-113 | the result splits into the ascending indices of the families matching the type (none without a type), followed by the ascending indices of the presenting families (none without a surface), so an index can occur twice; every index is in range; an index is listed iff its family matches or presents |
| RaiiUtility.TypedIndices | src/main/cpp/exqudens/vulkan/raii/Utility.hpp:91-98 | exactly the families whose flags intersect the type, ascending; empty without a type |
| RaiiUtility.PresentingIndices | src/main/cpp/exqudens/vulkan/raii/Utility.hpp:100-107 | exactly the families that can present, ascending; empty without a surface |
| RaiiUtility.GetQueueFamilyIndicesExact | src/main/cpp/exqudens/vulkan/raii/Utility.hpp:81-113 | any list that splits into those two runs is the result, so the split fixes order and repetitions |
| RaiiUtility.DeviceAdequateMeaning | src/main/cpp/exqudens/vulkan/raii/Utility.hpp:128-179 | adequate iff each requested type is offered by a family (or, with a surface, any family can present), the extensions are available, a surface comes with formats and modes, and anisotropy is there when required |
| RaiiUtility.QueueTypeOffered | src/main/cpp/exqudens/vulkan/raii/Utility.hpp:140-147 | a type's index list is non-empty iff some family offers the type, or, with a surface, some family can present |
| RaiiUtility.GetPhysicalDeviceIndices | src/main/cpp/exqudens/vulkan/raii/Utility.hpp:128-179 | exactly the adequate devices, strictly ascending |
| Environment.Empty | src/main/cpp/exqudens/vulkan/Environment.hpp:37-48 | each counter starts at 1, with an empty map |
| Environment.Allocate | src/main/cpp/exqudens/vulkan/Environment.hpp:76 | the id is the counter, and the counter goes up by one, wrapping to 0 after 2^32 - 1 |
| Environment.Create | src/main/cpp/exqudens/vulkan/Environment.hpp:76-80 | the new record is stored under the counter's value and returned; other records are untouched |
| Environment.CreatePreservesValid | src/main/cpp/exqudens/vulkan/Environment.hpp:76-80 | before the counter wraps, the new id is unused, and every record stays under its own id below the counter |
| Environment.CreateAll | src/main/cpp/exqudens/vulkan/Environment.hpp:456-484 | one record per payload with consecutive ids, each stored under its id, and earlier records kept |
| Environment.IdsCountFromOne | src/main/cpp/exqudens/vulkan/Environment.hpp:37-48 | from a fresh registry (counter 1, no records), the k-th record of a kind has id k + 1, and the ids in the map are exactly 1..n |
| Environment.IdsFromCreateAll | src/main/cpp/exqudens/vulkan/Environment.hpp:456-484 | each id after a batch is an old id or one of the batch's ids, and is stored under itself |
| Environment.InfosAt | src/main/cpp/exqudens/vulkan/Environment.hpp:202-206 | one info per index, in order, each naming its family with one queue and the priority |
| Environment.TypedInfosMeaning | src/main/cpp/exqudens/vulkan/Environment.hpp:199-210 | a type's infos are, ascending by family, those of exactly the families whose flags intersect the type |
| Environment.PresentInfosMeaning | src/main/cpp/exqudens/vulkan/Environment.hpp:226-243 | the presenting infos are, ascending by family, those of exactly the families that can present |
| Environment.Emplace | src/main/cpp/exqudens/vulkan/Environment.hpp:282-286 | the keys are the old keys plus the infos' family indices; old entries are kept; a new key takes the first info with that family index |
| Environment.AscendingValues | src/main/cpp/exqudens/vulkan/Environment.hpp:282-286 | the values of the keys below `n`, at most `n` of them |
| Environment.AllInfosMeaning | src/main/cpp/exqudens/vulkan/Environment.hpp:195-248 | every collected info is its family's info, and a family index is collected iff it matches a requested type or can present with a surface |
| Environment.IndexedInfos | src/main/cpp/exqudens/vulkan/Environment.hpp:202-206 | the infos of a list of indices belong to those families and carry exactly those indices |
| Environment.ConcatInfos | src/main/cpp/exqudens/vulkan/Environment.hpp:195-248 | the family indices of two concatenated info lists are the union of both lists' indices |
| Environment.UniqueQueueCreateInfosMeaning | src/main/cpp/exqudens/vulkan/Environment.hpp:282-286 | a family's info is among the unique infos iff that family was inserted, and every unique info is its family's info |
| Environment.UniqueInfosAskOneQueue | src/main/cpp/exqudens/vulkan/Environment.hpp:202-206 | every unique info asks for one queue at the given priority: setting the single priority resets the count set just before to the size of a one-element array |
| Environment.UniqueInfosWithinFamilyCount | src/main/cpp/exqudens/vulkan/raii/Utility.hpp:115-126 | with at least one queue per family, as the driver reports, no unique info asks for more queues than `getQueueFamilyCount` returns for its family |
| Environment.AscendingValuesSorted | src/main/cpp/exqudens/vulkan/Environment.hpp:282-286 | when each key maps to an info for that family, the values come out strictly ascending by family |
| Environment.UniqueQueueCreateInfosAscending | src/main/cpp/exqudens/vulkan/Environment.hpp:282-286 | the unique infos are strictly ascending by family index, so there is one per family |
| Environment.AcceptsMeaning | src/main/cpp/exqudens/vulkan/Environment.hpp:198-276 | a device is accepted iff every requested type has a family, a surface has a presenting family and formats and modes, the extensions are available, and anisotropy is there when requested |
| Environment.AcceptsImpliesRaiiAdequate | src/main/cpp/exqudens/vulkan/raii/Utility.hpp:128-179 | every device this factory accepts is adequate for `getPhysicalDeviceIndices` |
| Environment.CreatePhysicalDevice | src/main/cpp/exqudens/vulkan/Environment.hpp:169-298 | the id is taken even on failure; an error iff no device is accepted, storing nothing; otherwise the first accepted device, stored under its id with its priority, the compute, transfer and graphics infos of each requested type (empty when not requested), the presenting infos when there is a surface, and the unique queue infos |
| Environment.Designates | src/main/cpp/exqudens/vulkan/Environment.hpp:183-184 | a record's device pointer reaches its device only while no later call has replaced the `physicalDevices` vector |
| Environment.CreatePhysicalDeviceAsWritten | src/main/cpp/exqudens/vulkan/Environment.hpp:183-287 | every call, failing or not, replaces the device vector; a success records a pointer into the new vector at the chosen device, with the same registry and device as `CreatePhysicalDevice` |
| Environment.EarlierDevicePointerDangles | src/main/cpp/exqudens/vulkan/Environment.hpp:183-287 | as written, any later call, even a failing one, leaves an earlier record's device pointer dangling |
| Environment.EarlierRecordSurvives | src/main/cpp/exqudens/vulkan/Environment.hpp:169-298 | as intended, after a later call, failing or not, an earlier record is still stored unchanged under its id, naming its device |
| Environment.CreateMemoryBacked | src/main/cpp/exqudens/vulkan/Environment.hpp:341-370 | with `memoryTypeIndex` as written: an error iff bit 0 of the type bits is clear or no type has the properties; otherwise the record holds the lowest type with the properties and the requested size, stored under its id |
| Environment.CreateMemoryBackedCorrected | src/main/cpp/exqudens/vulkan/Environment.hpp:341-370 | with the corrected search: an error iff no allowed type has the properties; otherwise the lowest allowed type with them |
| Environment.CreateSwapChainImageViews | src/main/cpp/exqudens/vulkan/Environment.hpp:456-484 | one 2D color view per swap-chain image, in order, with the chain's format, base mip level and layer 0 and one of each, under consecutive ids; the counter advances by the number of images and older entries are kept |
| StringVector.ToPointers | src/main/cpp/exqudens/vulkan/model/StringVector.hpp:19-28 | one pointer per value, in order, each into the given storage at its own position |
| StringVector.Construct | src/main/cpp/exqudens/vulkan/model/StringVector.hpp:30-36 | the pointers mirror the values, and pointer `i` reads as value `i` |
| StringVector.Default | src/main/cpp/exqudens/vulkan/model/StringVector.hpp:38 | both sequences are empty |
| StringVector.Copy | src/main/cpp/exqudens/vulkan/model/StringVector.hpp:40-45 | the copy has the same values and pointers into its own storage |
| StringVector.MemberwiseCopyBreaksMirror | src/main/cpp/exqudens/vulkan/model/StringVector.hpp:40-45 | copying the pointers as they are would leave them pointing into the source; rebuilding them keeps the mirror |
| StringVector.Swap | src/main/cpp/exqudens/vulkan/model/StringVector.hpp:60-63 | values and pointers are exchanged together, so the mirror holds on both sides |
| StringVector.SwapInvolution | src/main/cpp/exqudens/vulkan/model/StringVector.hpp:60-63 | swapping twice restores both |
| StringVector.Move | src/main/cpp/exqudens/vulkan/model/StringVector.hpp:47-53 | the new value is the source, and the source is left empty and mirrored |
| StringVector.Assign | src/main/cpp/exqudens/vulkan/model/StringVector.hpp:55-58 | the target ends with the source's values, mirrored into its own storage |
| StringVector.CopyReadsSource | src/main/cpp/exqudens/vulkan/model/StringVector.hpp:40-58 | after a copy or an assignment, every pointer reads as the source's value at that position |
| Messenger.Formatted | src/main/cpp/exqudens/vulkan/Messenger.hpp:28-39 | `<severity> <type>: <message>` unless a to-string function is set, in which case its result |
| Messenger.Callback | src/main/cpp/exqudens/vulkan/Messenger.hpp:17-77 | null user data gives no output and `VK_FALSE`; an exception iff the exception threshold is reached; at most one write, exactly one iff either threshold is reached, always of the formatted text to the stream (stdout when there is none) |
| Messenger.CallbackMonotone | src/main/cpp/exqudens/vulkan/Messenger.hpp:40-57 | a higher severity never raises fewer exceptions or writes less |
| Messenger.UnsetThresholdsSilent | src/main/cpp/exqudens/vulkan/Messenger.hpp:40-49 | with both thresholds unset, the callback is silent and returns `VK_FALSE` |
| CreateFunctions.CreateConfiguration | src/main/cpp/exqudens/vulkan/function/CreateFunctions.cpp:30-71 | version 1.0.0, Khronos validation on with the debug-utils extension, and every queue kind, anisotropy and the swap-chain extension required |
| CreateFunctions.LoggerLineOf | src/main/cpp/exqudens/vulkan/function/CreateFunctions.cpp:94-130 | the written line splits back into the level, the type and the message |
| CreateFunctions.CreateInstance | src/main/cpp/exqudens/vulkan/function/CreateFunctions.cpp:153-201 | success iff the helpers are present, the driver succeeds and, with validation on, the layers are available; the extension count is the list's size; the layers and the debug messenger are enabled iff validation is on |
| CreateFunctions.LayersIgnoredWithoutValidation | src/main/cpp/exqudens/vulkan/function/CreateFunctions.cpp:161-165 | with validation off, the available layers do not affect the result |
| CreateFunctions.CreateDebugUtilsMessenger | src/main/cpp/exqudens/vulkan/function/CreateFunctions.cpp:203-231 | success iff the helpers are present, the extension function is found and it creates a messenger, which is then the result |
| CreateFunctions.CreatePhysicalDevice | src/main/cpp/exqudens/vulkan/function/CreateFunctions.cpp:246-300 | an error iff the helpers are missing, present is required without a surface, or no device is suitable; otherwise the first suitable device |
| CreateFunctions.CreatePhysicalDeviceMeaning | src/main/cpp/exqudens/vulkan/function/CreateFunctions.cpp:246-300 | a chosen device, in its own terms: its families cover the transfer, graphics and present kinds as configured (compute is not checked), its extensions include the configured ones, a surface comes with formats and present modes, and anisotropy is there when required; once the guards pass, `isDeviceSuitable` cannot throw for any device |
| CreateFunctions.DefaultConfigurationAcceptsNoComputeDevice | src/main/cpp/exqudens/vulkan/function/CreateFunctions.cpp:30-71 | the default configuration, which requires compute, still picks a device with no compute family |
| VkTypes.RemainingRequiredIsDifference | src/main/cpp/exqudens/vulkan/function/UtilFunctions.cpp:208-226 | erasing each available name from the required set leaves exactly the required names that are not available |
| VkTypes.ExtensionsSupportedIffSubset | src/main/cpp/exqudens/vulkan/Factory.cpp:262-280 | the extension check holds iff every required name is available |
| VkTypes.LayersFoundIffSubset | src/main/cpp/exqudens/vulkan/function/UtilFunctions.cpp:55-82 | the layer loop holds iff every requested layer is available |
| TestUtils.Join | src/test/cpp/exqudens/test/TestUtils.hpp:17-35 | prefix, then the elements with the delimiter only between neighbours, then suffix |
| TestUtils.JoinEmpty | src/test/cpp/exqudens/test/TestUtils.hpp:17-35 | joining no elements gives just the prefix followed by the suffix |
| TestUtils.JoinedSnoc | src/test/cpp/exqudens/test/TestUtils.hpp:24-30 | appending an element adds a delimiter only when something precedes it |
| TestUtils.ToStringVectorFromMessages | src/test/cpp/exqudens/TestUtils.hpp:20-33 | the recursion through nested exceptions lists the messages outermost first after what was already collected |
| TestUtils.ToStringVector | src/test/cpp/exqudens/test/TestUtils.hpp:37-58 | the messages of the chain, outermost first |
| TestUtils.ToStackTrace | src/test/cpp/exqudens/test/TestUtils.hpp:60-68 | the messages reversed, innermost first, so the outermost comes last |
| TestUtils.StackTracesAgree | src/test/cpp/exqudens/TestUtils.hpp:35-45 | reversing only when there is more than one entry gives the same trace as always reversing |
| TestUtils.ToString | src/test/cpp/exqudens/TestUtils.hpp:47-61 | both headers' `toString` give the trace with a newline between entries and none after the last |
| TestUtils.StackTraceOfChain4 | src/test/cpp/exqudens/test/TestUtilsTests.hpp:39-54 | a chain of four messages gives the trace innermost to outermost |
| TestUtils.ToStringOfChain4 | src/test/cpp/exqudens/test/TestUtilsTests.hpp:39-54 | the unit test's expected text: the innermost message first, then each rethrow on its own line |
| TestUtils.Unflatten | src/test/cpp/exqudens/test/TestUtils.hpp:100-112 | a `height x width x 4` image whose channel `z` of pixel `(x, y)` is buffer entry `y*width*4 + x*4 + z` |
| TestUtils.ReadPng | src/test/cpp/exqudens/test/TestUtils.hpp:79-116 | a decoder error is an exception; otherwise the reshaped buffer |
| TestUtils.ConcatAt | src/test/cpp/exqudens/test/TestUtils.hpp:136-144 | concatenating equal-length parts puts element `j` of part `k` at `k*n + j` |
| TestUtils.FlattenAt | src/test/cpp/exqudens/test/TestUtils.hpp:133-144 | channel `z` of pixel `(x, y)` lands at the offset `readPng` reads it from |
| TestUtils.FlattenIndex | src/test/cpp/exqudens/test/TestUtils.hpp:133-144 | the flattened image has `height*width*depth` entries, each channel at its row-major offset |
| TestUtils.WritePng | src/test/cpp/exqudens/test/TestUtils.hpp:118-159 | an exception iff the image, its first row or its first pixel is empty, or the encoder fails; otherwise the encoder gets the first row's width, the height and the row-major pixels, each row and pixel read only up to the first one's size |
| TestUtils.Crop | src/test/cpp/exqudens/test/TestUtils.hpp:130-143 | the part of the image the loops read: rectangular, with the first row's width and the first pixel's depth, agreeing with the image there |
| TestUtils.CropShaped | src/test/cpp/exqudens/test/TestUtils.hpp:130-143 | a rectangular image is read whole |
| TestUtils.WriteThenRead | src/test/cpp/exqudens/test/TestUtils.hpp:79-159 | a non-empty `height x width x 4` image is written without error, and reading the encoder's pixels back gives the same image |
| TestUtils.Decompose | src/test/cpp/exqudens/TestUtils.hpp:75-90 | every offset below `height*width*depth` is the offset of some channel position inside the image, so the flattened buffer has no gaps |
| TestUtils.FlattenUnflatten | src/test/cpp/exqudens/TestUtils.hpp:63-127 | writing what was read gives the encoder the decoded buffer back |
| TestUtils.UnflattenFlatten | src/test/cpp/exqudens/TestUtils.hpp:63-127 | reading what was written restores a `height x width x 4` image |

## Left out

- conanfile.py, the package recipe: it is build tooling, not library behaviour.
- All driver calls, file reading, environment-variable access, stream output beyond the text written, and lodepng decoding and encoding. Their results are parameters.
- `createEnvironmentVariables` and its `make_preferred` path formatting: they set a process environment variable, which is I/O outside the library's logic.
- Floating point: queue priorities are carried as `real`, and colour-blend constants are not modelled.
- Nested exceptions (`std::throw_with_nested`, `CALL_INFO`): an error is a single `Result.Err` with a short message.
- The create functions that only fill Vulkan structures and call the driver: render passes, samplers, fences, semaphores, command buffers, descriptor sets and device creation.
- The other `destroy*` functions of both factories. The single-handle ones (fence, semaphore, command buffer, descriptor pool, sampler, descriptor-set layout, render pass, surface, debug messenger, instance, and the separate pipeline and pipeline-layout destroys of `utility/Factory.cpp`) are a null check, one driver call and a reset, as `Handles.DestroyHandle` states. `destroyFences` and `destroySemaphores` repeat that per element and then clear, as `Factory.DestroyFrameBuffers` does. The exceptions carry no further property: `Factory.cpp`'s `destroyCommandBuffers` issues one `freeCommandBuffers` with the vector's size whatever the handles are, then clears; `destroyDescriptorSet` and `destroyDescriptorSets` only reset handles, with no driver call; `destroyShader` also resets the stage create info; `destroyPhysicalDevice` resets its fields with no driver call.
- Environment.CreatePhysicalDevice: assumes the counter has not wrapped when it states the next id.
- Environment.CreatePhysicalDevice: records the chosen device by index, the intended behaviour; the source's pointer into a vector the next call replaces is modelled by `Environment.CreatePhysicalDeviceAsWritten` (see Findings). The `new PhysicalDevice` that a failing call leaks is not modelled, since the model has no heap.
- Environment.CreateAll: requires the ids of a batch to fit below 2^32 - 1, so it never models a counter that wraps in the middle of a batch.
- RaiiUtility.GetQueueFamilyCount: indexing past the end is undefined behaviour in the source, so the model requires an index in range.
- Factory.ChooseSwapSurfaceFormat: requires a non-empty list, because `[0]` of an empty list is undefined behaviour in the source.
- Factory.SwapChainInfo: requires a non-empty format list, for the same reason.
- TestUtils.WritePng: for a non-empty image, requires every row to have at least the first row's pixels and each of those at least the first pixel's channels. Shorter ones index out of bounds in the source; longer ones are cut, as in the source.
- TestUtils.ReadPng: requires the decoded buffer to have `height * width * 4` entries, as lodepng guarantees.
- TestUtils.WritePng: sizes and the buffer length are unbounded integers. The source narrows the three sizes to `unsigned int` and sizes the pixel buffer with `width * height * depth` in 32-bit arithmetic, which wraps once that product reaches 2^32 (or a dimension exceeds 2^32 - 1); the model assumes smaller images.
- TestUtils.ReadPng: offsets are unbounded integers. The source computes them in `unsigned int`, which wraps once `height * width * depth` reaches 2^32, an image of over a billion pixels; the model assumes smaller images.
- Messenger.Callback: takes the `vk::to_string` texts of severity and type as parameters, and its error message is the formatted text.
- QueueFamilyIndices: the header also declares compute fields, but the constructor, copy and swap in `QueueFamilyIndices.cpp` never touch them. The model follows the `.cpp`.

## Findings

| source | as written | input that shows it | evidently intended | confidence | as-written member | corrected member |
|---|---|---|---|---|---|---|
| src/main/cpp/exqudens/vulkan/Utility.hpp:225 | `memoryTypeIndex` tests `typeBits & 1`, always bit 0, at every index `i` | two host-visible memory types with `typeBits == 2` fail, although type 1 is allowed and matches; with `typeBits == 1`, type 1 is accepted although only type 0 is allowed | test bit `i`, `(typeBits >> i) & 1`, as `Factory::findMemoryType` does | high (not executed) | Utility.MemoryTypeIndexAsWritten, Utility.MemoryTypeIndexCounterexample, Environment.CreateMemoryBacked | Utility.MemoryTypeIndex, Environment.CreateMemoryBackedCorrected |
| src/main/cpp/exqudens/vulkan/Environment.hpp:183 | `createPhysicalDevice` move-assigns the `physicalDevices` member on every call and records `&physicalDevice`, a pointer into that vector (line 287) | two `createPhysicalDevice` calls on one environment, the second failing or not: the first record's `value` then points into the destroyed vector | a device that outlives later calls, such as a copy of the `vk::raii::PhysicalDevice` or a vector that is only filled once | high (not executed) | Environment.CreatePhysicalDeviceAsWritten, Environment.EarlierDevicePointerDangles | Environment.CreatePhysicalDevice, Environment.EarlierRecordSurvives |
