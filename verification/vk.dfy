/** Shared vocabulary of the renderer core: opaque Vulkan/VMA handles, the
    `VkResult` codes the core branches on, the exceptions it throws, and the
    answer of a foreign creation call.

    Every `vk*`, `vma*` and `glfw*` call is outside this model. Where the code
    consults one, the model takes the call's answer as a parameter (an oracle),
    so every property holds for every answer the driver could give.
 */
module Vk {

  /** A dispatchable or non-dispatchable Vulkan/VMA handle. `NULL` plays the
      role of `VK_NULL_HANDLE` / `nullptr`. */
  type Raw = nat

  const NULL: Raw := 0

  /** 2^32: the number of values of a `uint32_t`. */
  const WORD: int := 0x1_0000_0000

  newtype u32 = x: int | 0 <= x < 0x1_0000_0000

  /** The value a `static_cast<uint32_t>` gives to a non-negative size. */
  function ToU32(n: nat): (r: u32)
    ensures n < WORD ==> r as int == n
    ensures r as int % WORD == n % WORD
  {
    (n % WORD) as u32
  }

  /** `VkResult` codes, with the values of the Vulkan headers. */
  type VkResult = int

  const VK_SUCCESS: VkResult := 0
  const VK_SUBOPTIMAL_KHR: VkResult := 1000001003
  const VK_ERROR_OUT_OF_DATE_KHR: VkResult := -1000001004
  const VK_ERROR_EXTENSION_NOT_PRESENT: VkResult := -7

  /** `VkBool32` values. */
  const VK_FALSE: nat := 0
  const VK_TRUE: nat := 1

  /** The answer of a foreign call that creates one object: its `VkResult`
      and the handle it wrote to its output parameter. */
  datatype Created = Created(result: VkResult, handle: Raw)

  /** One constructor per `throw` site of the core (and the
      `std::out_of_range` of `unordered_map::at`). */
  datatype Error =
    | BufferCreationFailed            // ResourceManager::createBuffer, VmaWrapper::createBuffer
    | AlreadyInitialized              // VmaWrapper::initialize
    | AllocatorCreationFailed         // VmaWrapper::initialize
    | MissingQueueFamily              // unordered_map::at in CommandManager::createCommandPool
    | CommandPoolCreationFailed       // CommandManager::createCommandPool
    | CommandBufferAllocationFailed   // CommandManager::allocateCommandBuffers
    | QueueFamiliesInsufficient       // QueueManager::initialize
    | InvalidQueue                    // QueueManager::getQueue, type or index
    | NullQueue                       // QueueManager::getQueue, driver returned null
    | DeviceCreationFailed            // LogicalDeviceCreator::create
    | NoVulkanDevice                  // PhysicalDeviceSelector::select, zero devices
    | NoSuitableDevice                // PhysicalDeviceSelector::select
    | DebugMessengerFailed            // VulkanTools::setupDebugMessenger
    | AcquireFailed                   // VulkanManager::drawFrame
    | RecordFailed                    // VulkanManager::recordCommandBuffer
    | SubmitFailed                    // VulkanManager::drawFrame
    | PresentFailed                   // VulkanManager::drawFrame
    | SyncObjectCreationFailed        // VulkanManager::createSyncObjects

  /** Either a value or the exception the C++ code throws instead. */
  datatype Result<+T> = Ok(value: T) | Err(error: Error) {
    predicate IsFailure() {
      Err?
    }

    function PropagateFailure<U>(): Result<U>
      requires Err?
    {
      Err(error)
    }

    function Extract(): T
      requires Ok?
    {
      value
    }
  }

  /** A failure-compatible result with no value, for `void` operations. */
  datatype Outcome = Pass | Fail(error: Error) {
    predicate IsFailure() {
      Fail?
    }

    function PropagateFailure(): Outcome
      requires Fail?
    {
      this
    }
  }

  datatype Option<+T> = None | Some(value: T)

  /** Every name of `required` occurs in `available`: the "required is a
      subset of available" check that device extensions and validation
      layers both go through. */
  predicate AllAvailable(required: seq<string>, available: seq<string>)
  {
    forall name :: name in required ==> name in available
  }

  /** The position of the first element of `s` that satisfies `p`: the
      "first match in enumeration order" search that device selection and
      the framebuffer-size poll both perform. */
  function FirstWhere<T>(s: seq<T>, p: T -> bool): (r: Option<nat>)
    ensures r.Some? ==> r.value < |s| && p(s[r.value])
    ensures r.Some? ==> forall j :: 0 <= j < r.value ==> !p(s[j])
    ensures r.None? <==> forall j :: 0 <= j < |s| ==> !p(s[j])
    decreases |s|
  {
    if s == [] then None
    else if p(s[0]) then Some(0)
    else match FirstWhere(s[1..], p)
      case None => None
      case Some(k) => Some(k + 1)
  }

  /** An index that satisfies `p` with no satisfying index before it is the
      one `FirstWhere` finds. */
  lemma FirstWhereIsUnique<T>(s: seq<T>, p: T -> bool, i: nat)
    requires i < |s| && p(s[i])
    requires forall j :: 0 <= j < i ==> !p(s[j])
    ensures FirstWhere(s, p) == Some(i)
  {
    var r := FirstWhere(s, p);
    assert r.Some?;
  }
}
