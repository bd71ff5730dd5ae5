# Speed-Racer renderer core in Dafny

Speed-Racer is a small C++ Vulkan renderer. This project models the
sequential logic that sits under its Vulkan, VMA and GLFW calls, and proves
properties of that model:

- **Buffer handles and the resource table.** `HandleAllocator` issues
  32-bit buffer handles from a counter that only ever moves forward,
  modulo 2^32.
  `ResourceManager` maps each handle to the VMA (buffer, allocation) pair
  created for it. `BufferManager::createStagingBuffer` builds the request
  for a staging buffer.
- **Ownership wrappers.**
  - `ScopedBuffer` is a move-only owner of one pair.
  - `VmaWrapper` owns the VMA allocator and may be initialized only once.
  - `CommandManager` owns the graphics command pool.
- **Device setup.**
  - Queue-family discovery and the sufficiency check in `QueueManager`.
  - One queue create-info per distinct family, built by
    `LogicalDeviceCreator`.
  - First-suitable GPU selection in `PhysicalDeviceSelector`.
  - The "required names are all available" checks for device extensions
    (`SwapchainManager`) and for validation layers (`VulkanTools`).
  - The remaining helpers in `VulkanTools`: the instance-extension list,
    the debug-messenger entry points and the debug callback.
- **The frame loop of `VulkanManager`.**
  - `drawFrame`, a state machine over the answers of acquire, submit and
    present. The fence and semaphore protocol is tracked as bookkeeping next
    to the handles.
  - `recreateSwapChain`, `createSyncObjects` and
    `framebufferResizeCallback`.
  - The ring index `currentFrame` modulo `MAX_FRAMES_IN_FLIGHT`.
- **Teardown.** `VulkanManager::cleanup` and the destructor, modelled as the
  ordered sequence of release calls they make.

Every foreign call (`vk*`, `vma*`, `glfw*`) is a parameter of the model: a
function or value that gives the call's answer. Every property therefore
holds for every answer the driver or the window system could give. An
exception becomes `Err`/`Fail` with one `Error` constructor per `throw`
site.

Files:
- `vk.dfy`: shared vocabulary (handles, `VkResult`, errors, `u32`).
- `handles.dfy`: `HandleAllocator`.
- `resource_table.dfy`: `ResourceManager` and `createStagingBuffer`.
- `scoped_buffer.dfy`: `ScopedBuffer`.
- `vma_wrapper.dfy`: `VmaWrapper`.
- `command_manager.dfy`: `CommandManager`.
- `queues.dfy`: `QueueManager`.
- `logical_device.dfy`: `LogicalDeviceCreator`.
- `physical_device.dfy`: `PhysicalDeviceSelector`.
- `swapchain_support.dfy`: the `SwapchainManager` functions that have bodies.
- `vulkan_tools.dfy`: `VulkanTools`.
- `frame_scheduler.dfy`: the frame loop.
- `teardown.dfy`: cleanup and destruction.

A frame that finds the swapchain stale handles it in one of two ways,
depending on where it finds out. A stale acquire recreates the swapchain
and returns at once, so `currentFrame` does not move
(src/core/VulkanManager.cpp:101-105; `FrameScheduler.AcquireOutOfDate`).
A stale or suboptimal present, or a pending resize, recreates the
swapchain and then still advances the ring index
(src/core/VulkanManager.cpp:151-160; `FrameScheduler.PresentResultHandling`).

## Model

| member | source | states |
|---|---|---|
| Vk.ToU32 | src/core/logicalDevice.cpp:34-41 | A `static_cast<uint32_t>` of a size keeps sizes below 2^32 and otherwise agrees with the size modulo 2^32 |
| Vk.FirstWhere | src/core/physicalDevice.cpp:12-16 | The first position in enumeration order whose element satisfies the test. None exactly when no element does |
| Vk.FirstWhereIsUnique | src/core/physicalDevice.cpp:12-16 | A satisfying position with no satisfying position before it is the one the first-match search returns |
| Handles.NewAllocator | include/core/Handle.hpp:17-19 | A new allocator's counter is 0 |
| Handles.Allocate | include/core/Handle.hpp:21-23 | Returns the counter and increments it by one modulo 2^32, so `INVALID_HANDLE` is followed by 0 |
| Handles.Free | include/core/Handle.hpp:25-27 | Freeing leaves the counter as it was |
| Handles.AllocateManyValues | include/core/Handle.hpp:21-23 | The i-th of n successive allocations returns start + i modulo 2^32, and the counter ends at start + n modulo 2^32 |
| Handles.FirstHandleIsZero | include/core/Handle.hpp:17-23 | A fresh allocator's first handle is 0 and its counter is then 1 |
| Handles.FreshHandlesDistinct | include/core/Handle.hpp:11-23 | From a fresh allocator, the first n < 2^32 handles are 0..n-1: pairwise distinct and never `INVALID_HANDLE` |
| Handles.CounterWrapsAfterWord | include/core/Handle.hpp:21-23 | After exactly 2^32 allocations the counter is back at its start, so handles repeat only after wrap-around |
| Handles.FreeDoesNotRecycle | include/core/Handle.hpp:25-27 | Freeing does not change the next handle, and a freed handle is not the next one issued |
| ResourceTable.NewTable | src/core/ResourceManager.cpp:4 | A new manager has an empty map and a fresh allocator |
| ResourceTable.CreateBuffer | src/core/ResourceManager.cpp:12-34 | Throws exactly when VMA refuses, and then consumes no handle and leaves the map unchanged. On success returns the old counter and adds that key with VMA's pair |
| ResourceTable.CreateBufferFresh | src/core/ResourceManager.cpp:29-33 | Before wrap-around, a successful create returns a handle that was not a key and not `INVALID_HANDLE`, adds exactly one entry, keeps every other entry and keeps all keys below the counter |
| ResourceTable.DestroyBuffer | src/core/ResourceManager.cpp:36-45 | A live handle has its pair released and exactly that entry removed, and the others are unchanged. Any other handle is a no-op. The counter is untouched and the key bound is preserved |
| ResourceTable.GetBuffer | src/core/ResourceManager.cpp:46-53 | Never fails: a live handle gives its stored pair, any other handle the null pair. How lookups change under create and destroy is stated by `GetAfterCreate`, `GetAfterDestroy` and `NeverIssuedIsEmpty` |
| ResourceTable.GetVkBuffer | src/core/ResourceManager.cpp:55-57 | The buffer half of `getBuffer`: a live handle's buffer, null for any other handle |
| ResourceTable.GetAfterCreate | src/core/ResourceManager.cpp:46-57 | After a successful create, the new handle resolves to VMA's pair and its raw buffer, and every other handle resolves as before |
| ResourceTable.GetAfterDestroy | src/core/ResourceManager.cpp:36-57 | After a destroy, the handle resolves to the null pair and a null `VkBuffer`, and a second destroy is a no-op. Other handles resolve as before. No lookup throws |
| ResourceTable.NeverIssuedIsEmpty | src/core/ResourceManager.cpp:46-53 | A handle at or beyond the counter resolves to the null pair |
| ResourceTable.RunIssuesUniqueHandles | src/core/ResourceManager.cpp:12-45 | Over any sequence of creates and destroys that does not wrap the counter, the returned handles are strictly increasing and none was a key before. Destroyed handles are never reissued, and every key stays below the counter |
| ResourceTable.Teardown | src/core/ResourceManager.cpp:5-10 | The destructor releases the pair of every remaining handle exactly once and leaves the map empty |
| ResourceTable.CreateStagingBuffer | src/core/BufferManager.cpp:14-23 | Throws exactly when VMA refuses a request of exactly the caller's size, only `TRANSFER_SRC` usage and `CPU_TO_GPU` memory. Otherwise the handle is the allocator's next one and resolves to the pair VMA created |
| ResourceTable.StagingBufferOutcome | src/core/BufferManager.cpp:14-23 | The outcome depends only on VMA's answer to that one request. On success the handle is the table's counter |
| ScopedBuffer.Construct | src/core/ScopedBuffer.cpp:3-9 | Stores allocator, buffer and allocation verbatim and releases nothing |
| ScopedBuffer.Destroy | src/core/ScopedBuffer.cpp:11-18 | Releases only when allocator, buffer and allocation are all non-null, and then nulls buffer and allocation. Otherwise nothing changes |
| ScopedBuffer.MoveConstruct | include/core/ScopedBuffer.hpp:20-27 | The new object gets the source's triple. The source keeps its allocator and loses buffer and allocation |
| ScopedBuffer.MoveAssign | include/core/ScopedBuffer.hpp:28-45 | The target releases its own pair exactly when its buffer is non-null, then takes the source's triple. The source loses buffer and allocation |
| ScopedBuffer.MoveAssignSelf | include/core/ScopedBuffer.hpp:29 | Self-assignment changes nothing and releases nothing |
| ScopedBuffer.IsValid | include/core/ScopedBuffer.hpp:55-58 | Valid exactly when `get()` is non-null. The destructor of an invalid buffer releases nothing |
| ScopedBuffer.Get | include/core/ScopedBuffer.hpp:48-50 | The buffer handle held; after a move `MovedFromIsInert` states what each side reports |
| ScopedBuffer.GetAllocation | include/core/ScopedBuffer.hpp:51-53 | The allocation handle held; after a move `MovedFromIsInert` states what each side reports |
| ScopedBuffer.MovedFromIsInert | include/core/ScopedBuffer.hpp:20-58 | After either move, the getters and `isValid` of the new owner report the source's former state. The source is invalid and its destructor does nothing |
| ScopedBuffer.DestroyIdempotent | src/core/ScopedBuffer.cpp:11-18 | A destroyed object releases nothing when destroyed again |
| ScopedBuffer.Step | include/core/ScopedBuffer.hpp:16-45 | Each lifetime event only appends to the release log, and by at most one release. Copying is not an event |
| ScopedBuffer.StepKeepsExclusive | src/core/ScopedBuffer.cpp:11-18 | Each lifetime event keeps ownership exclusive: no buffer has two live owners, and none is owned after its release or released twice |
| ScopedBuffer.EachBufferReleasedAtMostOnce | src/core/ScopedBuffer.cpp:12-16 | For any sequence of constructions from fresh pairs, moves, move-assignments and destructions, no buffer is ever released twice |
| VmaWrapper.NewWrapper | src/core/VmaWrapper.cpp:5-7 | A new wrapper is not initialized and has no device |
| VmaWrapper.IsInitialized | include/core/VmaWrapper.hpp:16 | Initialized exactly when the allocator is non-null, whatever the device. `Initialize`, `Destroy` and `DestroyAndReset` are stated in terms of it |
| VmaWrapper.Initialize | src/core/VmaWrapper.cpp:9-29 | Throws and changes nothing when already initialized or when VMA refuses. Succeeds exactly otherwise, and then records VMA's allocator and the device |
| VmaWrapper.InitializeAtMostOnce | src/core/VmaWrapper.cpp:10-12 | After a successful initialization every further `initialize` throws and changes nothing, whatever VMA would answer |
| VmaWrapper.Destroy | src/core/VmaWrapper.cpp:31-43 | The destructor destroys the allocator exactly when initialized and leaves the fields as they are |
| VmaWrapper.DestroyTwiceAsWritten | src/core/VmaWrapper.cpp:31-43 | Running the destructor twice on an initialized wrapper destroys the same allocator twice |
| VmaWrapper.DestroyAndReset | src/core/VmaWrapper.cpp:31-43 | The corrected destructor destroys the allocator exactly when initialized and leaves the wrapper uninitialized |
| VmaWrapper.DestroyAndResetIdempotent | src/core/VmaWrapper.cpp:31-43 | With the reset, a second destruction destroys nothing and changes nothing |
| VmaWrapper.CreateBuffer | src/core/VmaWrapper.cpp:45-53 | Asks VMA on the wrapper's own allocator. Returns VMA's pair exactly when VMA succeeds and throws otherwise |
| VmaWrapper.DestroyBuffer | src/core/VmaWrapper.cpp:55-63 | A non-null buffer is released through the wrapper's allocator and both fields are nulled. A null buffer is left alone |
| VmaWrapper.DestroyBufferTwiceReleasesOnce | src/core/VmaWrapper.cpp:55-63 | Destroying the same pair twice releases it at most once |
| CommandManager.NewManager | src/core/CommandManager.cpp:4-7 | A new manager has a null pool |
| CommandManager.CreateCommandPool | src/core/CommandManager.cpp:14-27 | Throws without creating anything when GRAPHICS is absent. Otherwise requests a resettable pool on the GRAPHICS family. If the driver refuses, it throws, and the member keeps whatever the driver wrote into it |
| CommandManager.AllocateCommandBuffers | src/core/CommandManager.cpp:29-45 | Exactly `count` handles, the ones the driver wrote, when allocation succeeds. Throws otherwise |
| CommandManager.Cleanup | src/core/CommandManager.cpp:47-54 | Destroys the pool exactly when it is non-null and always leaves it null |
| CommandManager.Destroy | src/core/CommandManager.cpp:9-11 | The destructor destroys the pool exactly when it is non-null |
| CommandManager.CleanupIdempotent | src/core/CommandManager.cpp:9-11 | An explicit `cleanup` followed by more cleanups or by the destructor destroys the pool once |
| CommandManager.CreatedPoolIsDestroyed | src/core/CommandManager.cpp:14-54 | A pool created for the GRAPHICS family is the pool `cleanup` destroys |
| CommandManager.FailedCreateDestroysDriverOutput | src/core/CommandManager.cpp:23-24 | After a refused creation, `cleanup` destroys the value the driver left in the member exactly when it is non-null, although no pool was created |
| Queues.LastQualifying | src/core/queueManager.cpp:25-51 | The reference definition: the highest family index that qualifies for a queue type, if any |
| Queues.ScanIsLastMatch | src/core/queueManager.cpp:25-51 | After visiting a prefix of the families, a type is recorded exactly when some visited family qualifies. It is then recorded from the last such family |
| Queues.FindQueueFamilies | src/core/queueManager.cpp:16-54 | A type is recorded exactly when the reference `LastQualifying` finds a family for it, and the entry is that family's index, count, flags and present flag |
| Queues.FullScanIsLastMatch | src/core/queueManager.cpp:25-51 | The full scan agrees with `LastQualifying` for every queue type at once |
| Queues.FindQueueFamiliesIsLastMatch | src/core/queueManager.cpp:16-54 | Each type is recorded exactly when some family qualifies, from the highest-index one, with its count and flags. `supportsPresent` is set only on PRESENT |
| Queues.NoSurfaceNoPresent | src/core/queueManager.cpp:44-50 | Without a surface, PRESENT is never recorded |
| Queues.AreQueueFamiliesSufficient | src/core/queueManager.cpp:58-74 | True exactly when every requirement's type is present with enough queues, all required flags and, if required, present support. The empty list is sufficient |
| Queues.Initialize | src/core/queueManager.cpp:3-14 | Stores the discovered families. Throws unless GRAPHICS (with the graphics bit) and a present-capable PRESENT each exist with at least one queue |
| Queues.InitializeOnDevice | src/core/queueManager.cpp:3-54 | With a surface, `initialize` succeeds exactly when some family has the graphics bit, and the last graphics family and the last present-capable family each have a queue |
| Queues.GetQueue | src/core/queueManager.cpp:77-88 | Throws when the type is absent or the index is out of range, or when the driver returns null. Otherwise returns the driver's queue for that family and index |
| LogicalDevice.UniqueQueueCreateInfos | src/core/logicalDevice.cpp:12-26 | At most one create-info per map entry, with pairwise distinct family indices. Every family index is covered, each by the count of the first entry in iteration order that has it |
| LogicalDevice.Create | src/core/logicalDevice.cpp:3-59 | For any iteration order, the request has one create-info per distinct family, each copying the index and queue count of the first entry in iteration order with that index. It carries all device extensions, and the validation layers exactly when enabled. Throws on device failure. Otherwise returns the device with queue 0 (an assumed default index) of GRAPHICS and of PRESENT, and getQueue failures propagate |
| LogicalDevice.DropLastKey | src/core/logicalDevice.cpp:16 | Removing the last key visited leaves an iteration order of the smaller map |
| LogicalDevice.OrderCoversKeys | src/core/logicalDevice.cpp:16 | Iterating an unordered map visits exactly as many entries as it has keys |
| PhysicalDevice.IsDeviceSuitable | src/core/physicalDevice.cpp:23-40 | Suitable exactly when the device is a discrete GPU and supports geometry shaders |
| PhysicalDevice.Select | src/core/physicalDevice.cpp:4-19 | Throws when no device is enumerated. Returns the first suitable device in enumeration order (a discrete GPU with geometry shaders). Throws when none is suitable |
| SwapchainSupport.MissingExtensions | src/core/SwapchainManager.cpp:40-44 | Erasing every available name from the set of required names leaves exactly the required names that are unavailable |
| SwapchainSupport.CheckDeviceSupportSwapChain | src/core/SwapchainManager.cpp:32-54 | True exactly when every required device extension is available, that is exactly when `VK_KHR_swapchain` is |
| SwapchainSupport.SupportIgnoresOrderAndDuplicates | src/core/SwapchainManager.cpp:40-44 | Adding, repeating or reordering available names never turns a supported device into an unsupported one |
| SwapchainSupport.CheckDeviceSupportSwapChainStub | src/core/SwapchainManager.cpp:4-6 | The free function accepts every device |
| SwapchainSupport.QuerySwapchainSupport | src/core/SwapchainManager.cpp:8-30 | The capabilities are copied. Formats and present modes are empty when their count is 0 and otherwise hold exactly the driver's entries, sized to the count |
| VulkanTools.LayersSupported | src/core/VulkanTools/VulkanTools.cpp:7-29 | True exactly when every required layer occurs among the available ones. Stops at the first missing one |
| VulkanTools.CheckValidationLayerSupport | src/core/VulkanTools/VulkanTools.cpp:5-29 | True exactly when `VK_LAYER_KHRONOS_validation` is available |
| VulkanTools.GetRequiredExtensions | src/core/VulkanTools/VulkanTools.cpp:31-41 | The window extensions in order, followed by the debug-utils extension exactly when validation is enabled |
| VulkanTools.CreateDebugUtilsMessenger | src/core/VulkanTools/VulkanTools.cpp:43-51 | `VK_ERROR_EXTENSION_NOT_PRESENT` when the entry point is missing. Otherwise the entry point's own result |
| VulkanTools.DestroyDebugUtilsMessenger | src/core/VulkanTools/VulkanTools.cpp:53-62 | The destroy entry point is called exactly when the lookup finds it. Otherwise nothing happens |
| VulkanTools.SetupDebugMessenger | src/core/VulkanTools/VulkanTools.cpp:76-84 | Throws unless creation returns `VK_SUCCESS` |
| VulkanTools.SetupNeedsEntryPoint | src/core/VulkanTools/VulkanTools.cpp:43-84 | Setup succeeds exactly when the entry point exists and returns success |
| VulkanTools.DebugCallback | src/core/VulkanTools/VulkanTools.cpp:64-74 | Always answers `VK_FALSE`, and prints exactly for severity WARNING and above |
| VulkanTools.PopulateDebugMessengerCreateInfo | src/core/VulkanTools/VulkanTools.cpp:86-92 | Verbose, warning and error messages, but not info, of all three message types reach the callback |
| VulkanTools.CallbackPrintsWarningsAndErrors | src/core/VulkanTools/VulkanTools.cpp:64-74 | Of the four severities, warnings and errors are printed. Verbose and info messages are not |
| FrameScheduler.WaitForDrawableSize | src/core/VulkanManager.cpp:71-78 | The polling loop stops at the first size with both sides non-zero, after one query per size up to that one. It stalls when the answers run out. Afterwards the resize flag is set exactly when it was set before or one of the loop's waits delivered a resize event |
| FrameScheduler.ResizeDeliveredStep | src/core/VulkanManager.cpp:75-78 | One more wait delivers a resize event exactly when the earlier waits did or the new one does |
| FrameScheduler.DeliverWaits | src/core/VulkanManager.cpp:58-66 | Running the callback once per wait sets the flag exactly when it was set or some wait delivered an event, and changes nothing else |
| FrameScheduler.Recreate | src/core/VulkanManager.cpp:68-87 | Proceeds only once a drawable size is found. Then it waits for idle, recreates the swapchain at that size and rebuilds the framebuffers, in that order. Without a drawable size nothing is issued and the fences are untouched. The flag ends set exactly when it was set or a wait of the size loop delivered a resize event. The ring index and semaphores are untouched |
| FrameScheduler.NextSlot | src/core/VulkanManager.cpp:160 | The ring advance stays below `MAX_FRAMES_IN_FLIGHT`: the next slot, or 0 after the last slot |
| FrameScheduler.SlotAfterIsModular | src/core/VulkanManager.cpp:160 | k ring advances from a slot in range land on (slot + k) mod `MAX_FRAMES_IN_FLIGHT` |
| FrameScheduler.AfterPresent | src/core/VulkanManager.cpp:137-160 | A stale or suboptimal present, or a pending resize, recreates and still advances the ring. Any other failure throws without advancing. Success advances |
| FrameScheduler.AfterAcquire | src/core/VulkanManager.cpp:110-160 | After the acquire the frame resets the slot's fence and command buffer and records. If it submits, it then presents, both on the current slot |
| FrameScheduler.DrawFrame | src/core/VulkanManager.cpp:89-161 | Every frame first waits on the current slot's fence, then acquires. It deadlocks exactly when that fence was reset with no work pending. The ring advances exactly on completed frames |
| FrameScheduler.AcquireOutOfDate | src/core/VulkanManager.cpp:101-105 | A stale acquire recreates and returns. The fence is not reset, nothing is recorded, submitted or presented, and the ring index and semaphores are unchanged |
| FrameScheduler.AcquireResultHandling | src/core/VulkanManager.cpp:106-110 | An acquire result other than success, suboptimal or out-of-date throws right after the acquire. Suboptimal proceeds to reset the fence |
| FrameScheduler.AcquiredFrameSlots | src/core/VulkanManager.cpp:110-141 | After a usable acquire, every fence reset, command-buffer reset, record, submit and present uses the current slot, and present directly follows submit |
| FrameScheduler.SlotDiscipline | src/core/VulkanManager.cpp:90-141 | Fence reset, command-buffer reset, record, submit and present happen only after a successful or suboptimal acquire, and only on the current slot. Submit waits on image-available and signals render-finished and the fence. Present waits on render-finished |
| FrameScheduler.SubmitFailureStopsBeforePresent | src/core/VulkanManager.cpp:117-135 | A submit failure throws before anything is submitted or presented and leaves the slot's fence reset |
| FrameScheduler.PresentResultHandling | src/core/VulkanManager.cpp:137-160 | A stale or suboptimal present, or a resize, clears the flag, recreates and advances. The flag ends set exactly when a wait of the size loop delivered a resize event. Any other failure throws. Success advances and keeps the flag |
| FrameScheduler.QuiescentIsSafe | src/core/VulkanManager.cpp:90-135 | From a state with no reset fence and no pending semaphore signal, a frame neither waits forever on a fence nor signals a semaphore twice |
| FrameScheduler.DrawFramePreservesQuiescent | src/core/VulkanManager.cpp:89-161 | A frame that does not throw leaves that state again |
| FrameScheduler.Poll | src/core/VulkanManager.cpp:345 | Polling the window's events sets the resize flag exactly when it was set or a resize event arrived, and changes nothing else |
| FrameScheduler.PollKeepsQuiescent | src/core/VulkanManager.cpp:345 | Polling keeps a state with no reset fence and no pending semaphore signal in that condition |
| FrameScheduler.Run | src/core/VulkanManager.cpp:343-349 | The main loop completes at most one frame per iteration |
| FrameScheduler.RunStep | src/core/VulkanManager.cpp:343-349 | Each iteration polls events and then draws. The loop goes on after a completed frame or a stale acquire, and stops on anything else. Only a completed frame moves the ring |
| FrameScheduler.RunCountsAdvances | src/core/VulkanManager.cpp:160 | Over the loop, the ring index moves once per completed frame and never otherwise |
| FrameScheduler.SlotAfterFullTurn | src/core/VulkanManager.cpp:160 | `MAX_FRAMES_IN_FLIGHT` advances return a slot to itself |
| FrameScheduler.RingReturnsToStart | src/core/VulkanManager.cpp:160 | After exactly `MAX_FRAMES_IN_FLIGHT` completed frames the ring is back at its start |
| FrameScheduler.RunIsSafe | src/core/VulkanManager.cpp:89-161 | Started quiescent, the loop never deadlocks on a fence or reuses a semaphore, and it ends quiescent unless a frame threw |
| FrameScheduler.FramebufferResizeCallback | src/core/VulkanManager.cpp:58-66 | Sets the resize flag exactly when the window's user pointer is set, and changes nothing else |
| FrameScheduler.ResizeForcesRecreate | src/core/VulkanManager.cpp:58-66 | A reported resize forces a recreate at the next present even when the present succeeds. The flag ends cleared unless a wait of the size loop delivers another resize event |
| FrameScheduler.RestoreDuringWaitKeepsFlag | src/core/VulkanManager.cpp:71-78 | A window restored while the size loop waits: the swapchain is recreated at the new size and the flag stays set for the next frame |
| FrameScheduler.RequestsBeforeGrow | src/core/VulkanManager.cpp:175-181 | The creation calls go slot by slot, three per slot, and every fence among them is requested signalled |
| FrameScheduler.CreateSyncObjects | src/core/VulkanManager.cpp:163-184 | The calls made are a prefix of the full slot-by-slot sequence, with signalled fences. Succeeds exactly when every call does, with one handle per slot in each vector. Otherwise it stops right after the first failing call and throws |
| FrameScheduler.SignalledRequestsStartSignalled | src/core/VulkanManager.cpp:172-173 | A fence created with the signalled bit starts signalled |
| FrameScheduler.OneFencePerSlot | src/core/VulkanManager.cpp:175-181 | The creation calls make one fence per slot, and each starts signalled |
| FrameScheduler.InitialFrames | src/core/VulkanManager.cpp:13 | With the fences in the states their creation flags give them (src/core/VulkanManager.cpp:172-181) and no resize pending, the state after creation has no reset fence and no pending semaphore signal |
| Teardown.InOrderIsOrdered | src/core/VulkanManager.cpp:351-406 | A teardown whose phases never step back releases in phase order |
| Teardown.SyncStepsFull | src/core/VulkanManager.cpp:356-360 | With the vectors sized, each slot releases its render-finished semaphore, image-available semaphore and fence, in that order |
| Teardown.PoolRelease | src/core/VulkanManager.cpp:364 | Resetting the command manager releases one pool exactly when a manager with a live pool exists |
| Teardown.TeardownIsOrdered | src/core/VulkanManager.cpp:351-406 | Every cleanup releases in phase order: wait, sync objects, command manager, pipeline, swapchain manager, render pass, VMA, device, surface, messenger, instance |
| Teardown.AllocatorReleasedOnce | src/core/VulkanManager.cpp:380-383 | A cleanup releases the allocator it is given exactly once and no other |
| Teardown.InstanceReleasedOnce | src/core/VulkanManager.cpp:399-403 | A cleanup destroys a live instance exactly once |
| Teardown.Released | src/core/VulkanManager.cpp:364-403 | After cleanup, the device, surface and instance are null, the messenger too when validation is on, and both managers are reset. The pipeline and render pass handles keep their values |
| Teardown.CleanupAsWritten | src/core/VulkanManager.cpp:351-406 | The code as written is defined only when every sync vector has a slot for each frame. It starts with the wait and leaves the VMA wrapper initialized |
| Teardown.Cleanup | src/core/VulkanManager.cpp:351-406 | The corrected cleanup nulls device, surface and instance and leaves the VMA wrapper uninitialized |
| Teardown.AllocatorRelease | src/core/VmaWrapper.cpp:38-42 | A wrapper destruction releases its allocator as one step, or nothing |
| Teardown.DestructAsWritten | src/core/VulkanManager.cpp:25-28 | The destructor as written is defined exactly when the sync vectors are sized |
| Teardown.Destruct | src/core/VulkanManager.cpp:25-28 | With the corrected wrapper, the member's own destruction after cleanup releases nothing more |
| Teardown.CleanupIsOrdered | src/core/VulkanManager.cpp:25-28 | The corrected destructor releases in phase order however far initialization got |
| Teardown.WaitGuardIrrelevant | src/core/VulkanManager.cpp:354 | Once the device exists, guarding the wait for idle makes no difference |
| Teardown.FullCleanupOrder | src/core/VulkanManager.cpp:354-403 | With everything initialized, cleanup releases exactly: wait, the sync objects slot by slot, pool, pipeline, swapchain manager, render pass, allocator, device, surface, messenger (with validation on) and instance. The code as written releases the same |
| Teardown.DestructAsWrittenShape | src/core/VulkanManager.cpp:25-28 | As written, the destructor of a fully initialized manager is the unguarded cleanup followed by one more allocator release |
| Teardown.AllocatorDestroyedTwiceAsWritten | src/core/VulkanManager.cpp:380-383 | As written, a fully initialized manager destroys its allocator twice, the second time last of all, after the instance, so the releases are out of order |
| Teardown.AllocatorDestroyedOnce | src/core/VulkanManager.cpp:380-383 | The corrected destructor releases the allocator exactly once when the wrapper was initialized, and none otherwise |
| Teardown.CleanupAfterEarlyFailureAsWritten | src/core/VulkanManager.cpp:354-360 | After `initVulkan` throws before the device exists, cleanup as written reads past the empty sync vectors |
| Teardown.CleanupAfterEarlyFailure | src/core/VulkanManager.cpp:384-403 | After the same failure, the corrected cleanup releases only surface, messenger and instance, in that order, and never touches the device |

## Left out

- Swapchain creation and lifecycle are left out. The `SwapchainManager` negotiation functions are only declared, and the body of `createSwapchain` is commented out; only the extension check and the support query have bodies.
- The `BufferManager` operations other than `createStagingBuffer` (upload, map, update, copy) are left out. They are declared without bodies.
- Pipeline, render-pass, shader and framebuffer construction are left out. They are graphics-state setup with no branching logic of their own. Their destruction is modelled as one teardown step each.
- `recordCommandBuffer` is not modelled step by step. A frame sees it as one step that may throw (`recordOk`).
- Instance creation, surface creation, window management and `initVulkan`'s call sequence are left out. They are straight-line foreign calls. Their effect on cleanup is captured by `Teardown.FullyInitialized` and `Teardown.FailedBeforeDevice`.
- File I/O, GLFW events and the GPU's actual execution are left out; they are oracles. Fences and semaphores are bookkeeping, not asynchrony.
- `MAX_FRAMES_IN_FLIGHT` is fixed at 2. It is defined in a header that is not part of this model.
- The header declarations that disagree with the .cpp files are not modelled: the `PhysicalDeviceSelector::select` signature, the three-argument `isDeviceSuitable` in `physicalDevice.hpp` (the .cpp file defines a one-argument version), the `ResourceManager` constructor, `queueManager.hpp` (which declares no `getQueue`), `VmaWrapper.hpp` (which declares no `createBuffer` or `destroyBuffer`) and `VulkanManager.hpp`. The .cpp behaviour is modelled instead.
- LogicalDevice.Create: the queue index 0 that both `getQueue` calls receive is assumed. The calls pass two arguments (src/core/logicalDevice.cpp:54-55), the only definition takes three (src/core/queueManager.cpp:77), and the declaration that would give the third a default of 0 is not part of this model.
- The iteration order of `std::unordered_map` is a parameter (`LogicalDevice.IsIterationOrder`). Every property of `LogicalDevice.Create` holds for every order.
- The queue priority is left out, and so are pointer lifetimes in general. The code stores the address of a `float` local to the loop body in each create-info (src/core/logicalDevice.cpp:22-23). That address dangles by the time `vkCreateDevice` reads it (src/core/logicalDevice.cpp:48).
- `VulkanTools::enableValidationLayers`, a build-time constant, is a parameter.
- FrameScheduler.WaitForDrawableSize: the window is polled over a finite list of answers. An exhausted list is the `Stalled` outcome, where the code would keep waiting.
- Resize events are delivered only inside `glfwWaitEvents` and `glfwPollEvents` (one bit per wait and one per loop iteration), always with the window's user pointer set (src/core/VulkanManager.cpp:19). Events that arrive at any other moment are not modelled.
- FrameScheduler.QuiescentIsSafe: the model counts a render-finished semaphore as consumed at the `vkQueuePresentKHR` call that waits on it. No fence tells the code when the presentation engine has actually waited, so a later submit that signals the same semaphore is not proved safe against a pending wait (the rule for `pSignalSemaphores` of `vkQueueSubmit` in the Vulkan specification).
- FrameScheduler.RunIsSafe: rests on the same reading of present's semaphore wait as `FrameScheduler.QuiescentIsSafe`.
- FrameScheduler.InitialFrames: takes `currentFrame` to start at 0. The constructor sets only the resize flag among the frame state (src/core/VulkanManager.cpp:13), and `include/core/VulkanManager.hpp` declares none of these members. The class declaration the .cpp file is built against, with its default member initialisers, is not part of this model.
- Teardown.FailedBeforeDevice: takes `renderPass`, `graphicsPipeline` and `graphicsPipelineLayout` to be null before initialisation. The constructor (src/core/VulkanManager.cpp:4-13) does not set them, so this rests on default member initialisers in a class declaration that is not part of this model.
- CommandManager.CreateCommandPool: the value a refusing driver writes into the member is an oracle answer. The Vulkan specification leaves it undefined.
- Teardown.Released: the pipeline, pipeline-layout and render-pass handles and the sync vectors keep their dangling values after cleanup, as in the code. The model does not say anything about their later use.
- ResourceTable.RunIssuesUniqueHandles: the freshness and uniqueness of handles are proved only while the 32-bit counter does not wrap, which is the range the code relies on.
- Console output (`std::cout`, `std::cerr`) is left out. For `debugCallback` only whether it prints is modelled.

## Findings

| source | as written | input that shows it | evidently intended | confidence | as-written member | corrected member |
|---|---|---|---|---|---|---|
| src/core/VulkanManager.cpp:380-383 with src/core/VmaWrapper.cpp:31-43 | `cleanup` calls `vmaWrapper.~VmaWrapper()` explicitly. The destructor does not null the allocator, and the member's own destructor runs again when `~VulkanManager` ends | any fully initialized manager going out of scope | the allocator destroyed once, before the device | not executed | Teardown.AllocatorDestroyedTwiceAsWritten | Teardown.AllocatorDestroyedOnce |
| src/core/VulkanManager.cpp:354-360 | `cleanup` waits on the device and indexes all three sync vectors at every slot, unconditionally | `initVulkan` throwing before `createSyncObjects`, e.g. on a machine without a Vulkan device (empty vectors, null device) | release only what was created, and skip the wait without a device | not executed | Teardown.CleanupAfterEarlyFailureAsWritten | Teardown.CleanupAfterEarlyFailure |
