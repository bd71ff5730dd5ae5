/** `VmaWrapper`: owner of the VMA allocator, initialized at most once. */
module VmaWrapper {
  import opened Vk
  import opened ResourceTable

  datatype Wrapper = Wrapper(allocator: Raw, device: Raw)

  /** The default constructor: no allocator, no device. */
  function NewWrapper(): (w: Wrapper)
    ensures !IsInitialized(w)
    ensures w.device == NULL
  {
    Wrapper(NULL, NULL)
  }

  /** `isInitialized()`: the allocator is non-null. */
  predicate IsInitialized(w: Wrapper)
    ensures IsInitialized(w) <==> w.allocator != NULL
  {
    w.allocator != NULL
  }

  /** `initialize(device, ...)`: throws if already initialized, otherwise
      asks VMA for an allocator (`created`); throws if VMA refuses, and
      records the device only on success. VMA writes a null allocator when
      it fails, which the wrapper already held, so a failure leaves the
      wrapper as it was. */
  function Initialize(w: Wrapper, device: Raw, created: Created): (r: (Wrapper, Outcome))
    ensures IsInitialized(w) ==> r == (w, Fail(AlreadyInitialized))
    ensures !IsInitialized(w) && created.result != VK_SUCCESS ==> r == (w, Fail(AllocatorCreationFailed))
    ensures r.1.Pass? <==> !IsInitialized(w) && created.result == VK_SUCCESS
    ensures r.1.Pass? ==> r.0 == Wrapper(created.handle, device)
    ensures r.1.Pass? && created.handle != NULL ==> IsInitialized(r.0)
  {
    if IsInitialized(w) then
      (w, Fail(AlreadyInitialized))
    else if created.result != VK_SUCCESS then
      (w, Fail(AllocatorCreationFailed))
    else
      (Wrapper(created.handle, device), Pass)
  }

  /** Once initialized, a wrapper stays as it is: every further
      `initialize` throws and changes nothing, whatever VMA would answer. */
  lemma InitializeAtMostOnce(w: Wrapper, d1: Raw, c1: Created, d2: Raw, c2: Created)
    requires Initialize(w, d1, c1).1.Pass? && c1.handle != NULL
    ensures var w1 := Initialize(w, d1, c1).0;
      Initialize(w1, d2, c2) == (w1, Fail(AlreadyInitialized))
  {
  }

  /** The destructor as written: destroys the allocator (the second
      component) when initialized, and leaves the fields as they are. */
  function Destroy(w: Wrapper): (r: (Wrapper, Option<Raw>))
    ensures r.0 == w
    ensures r.1.Some? <==> IsInitialized(w)
    ensures r.1.Some? ==> r.1.value == w.allocator
  {
    if IsInitialized(w) then (w, Some(w.allocator)) else (w, None)
  }

  /** The destructor leaves an initialized wrapper initialized, so running
      it twice (an explicit `~VmaWrapper()` call, then the member's own
      destruction) destroys the same allocator twice. */
  lemma DestroyTwiceAsWritten(w: Wrapper)
    requires IsInitialized(w)
    ensures Destroy(w).1 == Some(w.allocator)
    ensures Destroy(Destroy(w).0).1 == Some(w.allocator)
  {
  }

  /** The destructor with the allocator nulled after destruction, as the
      other release paths of the core do. */
  function DestroyAndReset(w: Wrapper): (r: (Wrapper, Option<Raw>))
    ensures r.1.Some? <==> IsInitialized(w)
    ensures r.1.Some? ==> r.1.value == w.allocator
    ensures !IsInitialized(r.0) && r.0.device == w.device
  {
    if IsInitialized(w) then (Wrapper(NULL, w.device), Some(w.allocator)) else (w, None)
  }

  /** With the reset, a second destruction is a no-op: each allocator is
      destroyed at most once. */
  lemma DestroyAndResetIdempotent(w: Wrapper)
    ensures DestroyAndReset(DestroyAndReset(w).0).1 == None
    ensures DestroyAndReset(DestroyAndReset(w).0).0 == DestroyAndReset(w).0
  {
  }

  /** `createBuffer(bufferInfo, allocInfo)`: asks `vmaCreateBuffer` on the
      wrapper's allocator (`vmaCreate` gives VMA's answer for an allocator)
      and returns the pair VMA created, or throws if VMA refuses. */
  function CreateBuffer(w: Wrapper, vmaCreate: Raw -> VmaOutcome): (r: Result<VmaBuffer>)
    ensures r.Ok? <==> vmaCreate(w.allocator).result == VK_SUCCESS
    ensures r.Ok? ==> r.value == vmaCreate(w.allocator).created
    ensures r.Err? ==> r.error == BufferCreationFailed
  {
    var answer := vmaCreate(w.allocator);
    if answer.result != VK_SUCCESS then Err(BufferCreationFailed) else Ok(answer.created)
  }

  /** `destroyBuffer(buffer)`: a non-null buffer is released through the
      wrapper's allocator (second component: the allocator and the pair
      handed to `vmaDestroyBuffer`) and both fields of the caller's pair are
      nulled; a null buffer is left alone. */
  function DestroyBuffer(w: Wrapper, b: VmaBuffer): (r: (VmaBuffer, Option<(Raw, VmaBuffer)>))
    ensures r.1.Some? <==> b.buffer != NULL
    ensures r.1.Some? ==> r.1.value == (w.allocator, b) && r.0 == EMPTY_BUFFER
    ensures r.1.None? ==> r.0 == b
  {
    if b.buffer != NULL then (EMPTY_BUFFER, Some((w.allocator, b))) else (b, None)
  }

  /** Calling `destroyBuffer` twice on the same pair releases it once. */
  lemma DestroyBufferTwiceReleasesOnce(w: Wrapper, b: VmaBuffer)
    ensures var (b1, rel1) := DestroyBuffer(w, b);
      var (b2, rel2) := DestroyBuffer(w, b1);
      && rel2 == None && b2 == b1
      && (rel1.Some? <==> b.buffer != NULL)
  {
  }
}
