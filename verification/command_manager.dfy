/** `CommandManager`: owner of the graphics command pool. */
module CommandManager {
  import opened Vk
  import opened Queues

  datatype Manager = Manager(commandPool: Raw)

  /** `VK_COMMAND_POOL_CREATE_RESET_COMMAND_BUFFER_BIT`. */
  const VK_COMMAND_POOL_CREATE_RESET_COMMAND_BUFFER_BIT: bv32 := 0x0000_0002

  /** The `VkCommandPoolCreateInfo` the manager fills in. */
  datatype PoolRequest = PoolRequest(flags: bv32, queueFamilyIndex: nat)

  /** The constructor: no pool yet. */
  function NewManager(): (m: Manager)
    ensures m.commandPool == NULL
  {
    Manager(NULL)
  }

  /** `createCommandPool()`: looks up the GRAPHICS family with `.at()`,
      which throws when it is absent (and nothing is created); otherwise asks
      `vkCreateCommandPool` for a resettable pool on that family and throws
      if the driver refuses. `vkCreateCommandPool` writes straight into the
      member, so after a refusal the member holds whatever the driver left
      there (`create(request).handle`). The result carries the manager after
      the call and, on success, the request that was made. */
  function CreateCommandPool(m: Manager, families: map<QueueType, QueueFamilyInfo>,
                             create: PoolRequest -> Created): (r: (Manager, Result<PoolRequest>))
    ensures Graphics !in families ==> r == (m, Err(MissingQueueFamily))
    ensures Graphics in families ==>
      var request := PoolRequest(VK_COMMAND_POOL_CREATE_RESET_COMMAND_BUFFER_BIT, families[Graphics].index);
      if create(request).result == VK_SUCCESS then
        r == (Manager(create(request).handle), Ok(request))
      else
        r == (Manager(create(request).handle), Err(CommandPoolCreationFailed))
  {
    if Graphics !in families then
      (m, Err(MissingQueueFamily))
    else
      var request := PoolRequest(VK_COMMAND_POOL_CREATE_RESET_COMMAND_BUFFER_BIT, families[Graphics].index);
      var answer := create(request);
      if answer.result != VK_SUCCESS then
        (Manager(answer.handle), Err(CommandPoolCreationFailed))
      else
        (Manager(answer.handle), Ok(request))
  }

  /** The answer of `vkAllocateCommandBuffers`: its result and the handle it
      wrote at each position of the caller's vector. */
  datatype BufferAnswer = BufferAnswer(result: VkResult, handles: nat -> Raw)

  /** `allocateCommandBuffers(count)`: a vector of exactly `count` handles,
      requested from the pool as `static_cast<uint32_t>(count)` primary
      buffers, or an exception if the driver refuses. */
  function AllocateCommandBuffers(m: Manager, count: nat, allocate: (Raw, u32) -> BufferAnswer)
    : (r: Result<seq<Raw>>)
    ensures r.Ok? <==> allocate(m.commandPool, ToU32(count)).result == VK_SUCCESS
    ensures r.Ok? ==>
      && |r.value| == count
      && forall i :: 0 <= i < count ==> r.value[i] == allocate(m.commandPool, ToU32(count)).handles(i)
    ensures r.Err? ==> r.error == CommandBufferAllocationFailed
  {
    var answer := allocate(m.commandPool, ToU32(count));
    if answer.result != VK_SUCCESS then
      Err(CommandBufferAllocationFailed)
    else
      Ok(seq(count, i requires 0 <= i => answer.handles(i)))
  }

  /** `cleanup()`: destroys the pool (second component) only if it is
      non-null, then nulls it. The destructor calls `cleanup()`. */
  function Cleanup(m: Manager): (r: (Manager, Option<Raw>))
    ensures r.0.commandPool == NULL
    ensures r.1.Some? <==> m.commandPool != NULL
    ensures r.1.Some? ==> r.1.value == m.commandPool
  {
    if m.commandPool != NULL then (Manager(NULL), Some(m.commandPool)) else (m, None)
  }

  /** `~CommandManager()`. */
  function Destroy(m: Manager): (r: Option<Raw>)
    ensures r.Some? <==> m.commandPool != NULL
    ensures r.Some? ==> r.value == m.commandPool
  {
    Cleanup(m).1
  }

  /** `cleanup()` is idempotent: an explicit call followed by the
      destructor destroys the pool once. */
  lemma CleanupIdempotent(m: Manager)
    ensures Cleanup(Cleanup(m).0) == (Cleanup(m).0, None)
    ensures Destroy(Cleanup(m).0) == None
  {
  }

  /** A pool created by `createCommandPool` is the one `cleanup` destroys. */
  lemma CreatedPoolIsDestroyed(m: Manager, families: map<QueueType, QueueFamilyInfo>, create: PoolRequest -> Created)
    requires CreateCommandPool(m, families, create).1.Ok?
    ensures var (m', r) := CreateCommandPool(m, families, create);
      && r.value.queueFamilyIndex == families[Graphics].index
      && (m'.commandPool != NULL ==> Cleanup(m').1 == Some(m'.commandPool))
  {
  }

  /** After a refused `vkCreateCommandPool`, `cleanup` destroys whatever
      non-null value the driver wrote into the member, even though no pool
      was created. */
  lemma FailedCreateDestroysDriverOutput(m: Manager, families: map<QueueType, QueueFamilyInfo>,
                                         create: PoolRequest -> Created)
    requires Graphics in families
    requires CreateCommandPool(m, families, create).1 == Err(CommandPoolCreationFailed)
    ensures var request := PoolRequest(VK_COMMAND_POOL_CREATE_RESET_COMMAND_BUFFER_BIT, families[Graphics].index);
      && create(request).result != VK_SUCCESS
      && (create(request).handle != NULL <==> Cleanup(CreateCommandPool(m, families, create).0).1 == Some(create(request).handle))
  {
  }
}
