/** `VulkanManager`'s frame loop: `drawFrame`, `recreateSwapChain`,
    `createSyncObjects` and `framebufferResizeCallback`.

    Every Vulkan and GLFW call is an answer drawn from a `FrameOracle`. The
    GPU side of the fence and semaphore protocol is bookkeeping the model
    carries alongside the handles: a fence is signalled, reset, or attached
    to submitted work that will signal it; a semaphore either holds (or will
    receive) a signal nobody has waited for yet, or it does not. Waiting on
    a reset fence never returns (`Deadlock`), and signalling a semaphore
    that already holds a signal is invalid usage (`SemaphoreReuse`). */
module FrameScheduler {
  import opened Vk

  /** `MAX_FRAMES_IN_FLIGHT` is defined outside the files modelled; the
      model fixes it at 2. Every proof below holds for any positive value. */
  const MAX_FRAMES_IN_FLIGHT: nat := 2

  /** `VK_FENCE_CREATE_SIGNALED_BIT`. */
  const VK_FENCE_CREATE_SIGNALED_BIT: bv32 := 1

  datatype FenceState = Signalled | Reset | InFlight

  /** The manager's per-frame state: the ring index, the resize flag and
      the protocol state of each slot's fence and two semaphores. */
  datatype Frames = Frames(
    currentFrame: nat,
    framebufferResized: bool,
    inFlightFences: seq<FenceState>,
    imageAvailable: seq<bool>,
    renderFinished: seq<bool>)

  predicate WellFormed(s: Frames)
  {
    && s.currentFrame < MAX_FRAMES_IN_FLIGHT
    && |s.inFlightFences| == MAX_FRAMES_IN_FLIGHT
    && |s.imageAvailable| == MAX_FRAMES_IN_FLIGHT
    && |s.renderFinished| == MAX_FRAMES_IN_FLIGHT
  }

  /** Between two frames: no fence is reset without work that will signal
      it, and no semaphore holds a signal nobody will wait for. */
  predicate Quiescent(s: Frames)
  {
    && WellFormed(s)
    && (forall i :: 0 <= i < MAX_FRAMES_IN_FLIGHT ==> s.inFlightFences[i] != Reset)
    && (forall i :: 0 <= i < MAX_FRAMES_IN_FLIGHT ==> !s.imageAvailable[i])
    && (forall i :: 0 <= i < MAX_FRAMES_IN_FLIGHT ==> !s.renderFinished[i])
  }

  /** The calls one frame makes, in order. Slots name the per-frame fence,
      semaphores and command buffer. */
  datatype Event =
    | WaitFence(slot: nat)
    | Acquire(signal: nat, result: VkResult)
    | DeviceWaitIdle
    | RecreateSwapchain(width: int, height: int)
    | CreateFramebuffers
    | ResetFence(slot: nat)
    | ResetCommandBuffer(slot: nat)
    | Record(commandBuffer: nat, imageIndex: nat)
    | Submit(wait: nat, commandBuffer: nat, signal: nat, fence: nat)
    | Present(wait: nat, imageIndex: nat, result: VkResult)

  /** What the driver and the window answer during one iteration of the
      main loop. `pollResize` says whether `window.pollEvents()` before the
      frame delivered a framebuffer-size event. If the swapchain is
      recreated, `framebufferSizes` are the successive answers of
      `glfwGetFramebufferSize` and `waitResizes[j]` says whether the `j`-th
      `glfwWaitEvents()` of the size loop delivered such an event. */
  datatype FrameOracle = FrameOracle(
    pollResize: bool,
    acquireResult: VkResult,
    imageIndex: nat,
    recordOk: bool,
    submitResult: VkResult,
    presentResult: VkResult,
    framebufferSizes: seq<(int, int)>,
    waitResizes: seq<bool>)

  /** How a `drawFrame` call ends: it reached the ring advance; it returned
      early after recreating on a stale acquire; it is still waiting for a
      non-zero framebuffer; it threw; or the protocol broke. */
  datatype DrawOutcome = Advanced | Retry | Stalled | Threw(error: Error) | Deadlock | SemaphoreReuse

  datatype Drawn = Drawn(state: Frames, trace: seq<Event>, outcome: DrawOutcome)

  /** A framebuffer size the swapchain can be built for. */
  predicate Drawable(size: (int, int))
  {
    size.0 != 0 && size.1 != 0
  }

  /** Some of the first `n` waits delivered a resize event. */
  predicate ResizeDelivered(waitResizes: seq<bool>, n: nat)
  {
    exists j :: 0 <= j < n && j < |waitResizes| && waitResizes[j]
  }

  lemma ResizeDeliveredStep(waitResizes: seq<bool>, n: nat)
    ensures ResizeDelivered(waitResizes, n + 1) <==>
      ResizeDelivered(waitResizes, n) || (n < |waitResizes| && waitResizes[n])
  {
    if ResizeDelivered(waitResizes, n + 1) {
      var j :| 0 <= j < n + 1 && j < |waitResizes| && waitResizes[j];
    }
  }

  /** How many times the size loop of `recreateSwapChain` calls
      `glfwWaitEvents()` before it sees a drawable size: one wait per loop
      iteration, each after a query. When the answers run out first, the
      waits made so far. */
  function WaitCount(sizes: seq<(int, int)>): nat
  {
    match FirstWhere(sizes, Drawable)
    case Some(k) => k
    case None => if sizes == [] then 0 else |sizes| - 1
  }

  /** The polling loop at the top of `recreateSwapChain`: one query, then,
      while a side is zero, a query followed by `glfwWaitEvents()`, which
      may run `framebufferResizeCallback`. `polls` counts the queries;
      `found` is false when the given answers run out first; `resized` is
      the resize flag afterwards, starting from `resizedBefore`. */
  method WaitForDrawableSize(sizes: seq<(int, int)>, waitResizes: seq<bool>, resizedBefore: bool)
    returns (found: bool, width: int, height: int, polls: nat, resized: bool)
    ensures found <==> FirstWhere(sizes, Drawable).Some?
    ensures found ==> polls == FirstWhere(sizes, Drawable).value + 1
    ensures found ==> (width, height) == sizes[FirstWhere(sizes, Drawable).value]
    ensures !found ==> polls == |sizes|
    ensures resized <==> resizedBefore || ResizeDelivered(waitResizes, WaitCount(sizes))
  {
    resized := resizedBefore;
    if |sizes| == 0 {
      return false, 0, 0, 0, resized;
    }
    width, height := sizes[0].0, sizes[0].1;
    polls := 1;
    while width == 0 || height == 0
      invariant 1 <= polls <= |sizes|
      invariant (width, height) == sizes[polls - 1]
      invariant forall j :: 0 <= j < polls - 1 ==> !Drawable(sizes[j])
      invariant resized <==> resizedBefore || ResizeDelivered(waitResizes, polls - 1)
      decreases |sizes| - polls
    {
      if polls == |sizes| {
        assert FirstWhere(sizes, Drawable).None?;
        return false, width, height, polls, resized;
      }
      width, height := sizes[polls].0, sizes[polls].1;
      ResizeDeliveredStep(waitResizes, polls - 1);
      resized := resized || (polls - 1 < |waitResizes| && waitResizes[polls - 1]);
      polls := polls + 1;
    }
    FirstWhereIsUnique(sizes, Drawable, polls - 1);
    found := true;
  }

  /** `vkDeviceWaitIdle`: all submitted work completes. */
  function IdleFences(fences: seq<FenceState>): seq<FenceState>
  {
    seq(|fences|, i requires 0 <= i < |fences| => if fences[i] == InFlight then Signalled else fences[i])
  }

  /** The callback run for each of the first `n` waits, in order. */
  function DeliverWaits(s: Frames, waitResizes: seq<bool>, n: nat): (r: Frames)
    ensures r.framebufferResized <==> s.framebufferResized || ResizeDelivered(waitResizes, n)
    ensures r.(framebufferResized := s.framebufferResized) == s
    decreases n
  {
    if n == 0 then s
    else
      ResizeDeliveredStep(waitResizes, n - 1);
      FramebufferResizeCallback(DeliverWaits(s, waitResizes, n - 1), n - 1 < |waitResizes| && waitResizes[n - 1])
  }

  /** `recreateSwapChain()`: waits (delivering window events) until a
      drawable size is found, then waits for the device to go idle,
      recreates the swapchain at that size and rebuilds the framebuffers,
      in that order. The third component says whether a drawable size was
      found. A resize event delivered while waiting leaves the flag set. */
  function Recreate(s: Frames, sizes: seq<(int, int)>, waitResizes: seq<bool>): (r: (Frames, seq<Event>, bool))
    requires WellFormed(s)
    ensures r.2 <==> FirstWhere(sizes, Drawable).Some?
    ensures r.2 ==> r.1 == [DeviceWaitIdle, RecreateSwapchain(sizes[FirstWhere(sizes, Drawable).value].0,
                                                             sizes[FirstWhere(sizes, Drawable).value].1),
                            CreateFramebuffers]
    ensures !r.2 ==> r.1 == [] && r.0.inFlightFences == s.inFlightFences
    ensures r.0.framebufferResized <==> s.framebufferResized || ResizeDelivered(waitResizes, WaitCount(sizes))
    ensures r.0.currentFrame == s.currentFrame
    ensures r.0.imageAvailable == s.imageAvailable && r.0.renderFinished == s.renderFinished
    ensures |r.0.inFlightFences| == |s.inFlightFences|
    ensures r.2 ==> forall i :: 0 <= i < |s.inFlightFences| ==> r.0.inFlightFences[i] != InFlight
    ensures forall i :: 0 <= i < |s.inFlightFences| ==> (r.0.inFlightFences[i] == Reset <==> s.inFlightFences[i] == Reset)
  {
    var woken := DeliverWaits(s, waitResizes, WaitCount(sizes));
    match FirstWhere(sizes, Drawable)
    case None => (woken, [], false)
    case Some(k) =>
      (woken.(inFlightFences := IdleFences(woken.inFlightFences)),
       [DeviceWaitIdle, RecreateSwapchain(sizes[k].0, sizes[k].1), CreateFramebuffers],
       true)
  }

  /** The ring advance `(currentFrame + 1) % MAX_FRAMES_IN_FLIGHT`. */
  function NextSlot(c: nat): (r: nat)
    ensures r < MAX_FRAMES_IN_FLIGHT
    ensures c + 1 < MAX_FRAMES_IN_FLIGHT ==> r == c + 1
    ensures c + 1 == MAX_FRAMES_IN_FLIGHT ==> r == 0
  {
    (c + 1) % MAX_FRAMES_IN_FLIGHT
  }

  /** The slot reached from `c` after `k` advances. */
  function SlotAfter(c: nat, k: nat): nat
    decreases k
  {
    if k == 0 then c else NextSlot(SlotAfter(c, k - 1))
  }

  /** `k` advances from a slot in range land on `(c + k) % MAX_FRAMES_IN_FLIGHT`. */
  lemma {:induction false} SlotAfterIsModular(c: nat, k: nat)
    requires c < MAX_FRAMES_IN_FLIGHT
    ensures SlotAfter(c, k) == (c + k) % MAX_FRAMES_IN_FLIGHT
    decreases k
  {
    if k > 0 {
      SlotAfterIsModular(c, k - 1);
    }
  }

  /** Advancing first and then `k` more times is `k + 1` advances. */
  lemma {:induction false} SlotAfterShift(c: nat, k: nat)
    ensures SlotAfter(NextSlot(c), k) == SlotAfter(c, k + 1)
    decreases k
  {
    if k > 0 {
      SlotAfterShift(c, k - 1);
    }
  }

  function Advance(s: Frames): Frames
  {
    s.(currentFrame := NextSlot(s.currentFrame))
  }

  /** Events that touch the slot's fence, command buffer or semaphores
      after the acquire. */
  predicate UsesSlot(e: Event)
  {
    e.ResetFence? || e.ResetCommandBuffer? || e.Record? || e.Submit? || e.Present?
  }

  /** The handling of the present result: a stale or suboptimal swapchain,
      or a pending resize, clears the flag and recreates, and the ring
      still advances; any other failure throws without advancing. */
  function AfterPresent(s: Frames, trace: seq<Event>, o: FrameOracle): (r: Drawn)
    requires WellFormed(s)
    ensures WellFormed(r.state)
    ensures r.outcome.Advanced? ==> r.state.currentFrame == NextSlot(s.currentFrame)
    ensures !r.outcome.Advanced? ==> r.state.currentFrame == s.currentFrame
    ensures r.state.imageAvailable == s.imageAvailable && r.state.renderFinished == s.renderFinished
    ensures forall i :: 0 <= i < MAX_FRAMES_IN_FLIGHT ==> (r.state.inFlightFences[i] == Reset <==> s.inFlightFences[i] == Reset)
    ensures |r.trace| >= |trace| && r.trace[..|trace|] == trace
    ensures forall i :: |trace| <= i < |r.trace| ==> !UsesSlot(r.trace[i])
  {
    if o.presentResult == VK_ERROR_OUT_OF_DATE_KHR || o.presentResult == VK_SUBOPTIMAL_KHR || s.framebufferResized then
      var (recreated, steps, ready) := Recreate(s.(framebufferResized := false), o.framebufferSizes, o.waitResizes);
      if ready then Drawn(Advance(recreated), trace + steps, Advanced)
      else Drawn(recreated, trace + steps, Stalled)
    else if o.presentResult != VK_SUCCESS then Drawn(s, trace, Threw(PresentFailed))
    else Drawn(Advance(s), trace, Advanced)
  }

  /** The part of `drawFrame` after a usable image was acquired: reset the
      slot's fence and command buffer, record, submit (waiting on the
      slot's image-available semaphore, signalling its render-finished
      semaphore and its fence), and present (waiting on that same
      semaphore). */
  function AfterAcquire(s: Frames, trace: seq<Event>, o: FrameOracle): (r: Drawn)
    requires WellFormed(s)
    ensures WellFormed(r.state)
    ensures r.outcome.Advanced? ==> r.state.currentFrame == NextSlot(s.currentFrame)
    ensures !r.outcome.Advanced? ==> r.state.currentFrame == s.currentFrame
    ensures var n, slot := |trace|, s.currentFrame;
      && |r.trace| >= n + 3 && r.trace[..n] == trace
      && r.trace[n] == ResetFence(slot) && r.trace[n + 1] == ResetCommandBuffer(slot)
      && r.trace[n + 2] == Record(slot, o.imageIndex)
      && (|r.trace| > n + 3 ==>
            && |r.trace| >= n + 5
            && r.trace[n + 3] == Submit(slot, slot, slot, slot)
            && r.trace[n + 4] == Present(slot, o.imageIndex, o.presentResult)
            && forall i :: n + 5 <= i < |r.trace| ==> !UsesSlot(r.trace[i]))
  {
    var slot := s.currentFrame;
    var reset := s.(inFlightFences := s.inFlightFences[slot := Reset]);
    var recorded := trace + [ResetFence(slot), ResetCommandBuffer(slot), Record(slot, o.imageIndex)];
    if !o.recordOk then Drawn(reset, recorded, Threw(RecordFailed))
    else if o.submitResult != VK_SUCCESS then Drawn(reset, recorded, Threw(SubmitFailed))
    else if reset.renderFinished[slot] then Drawn(reset, recorded, SemaphoreReuse)
    else
      var submitted := reset.(inFlightFences := reset.inFlightFences[slot := InFlight],
                              imageAvailable := reset.imageAvailable[slot := false],
                              renderFinished := reset.renderFinished[slot := true]);
      // Present's wait on the render-finished semaphore is taken to be
      // consumed at the call; no fence reports when it actually happens.
      var presented := submitted.(renderFinished := submitted.renderFinished[slot := false]);
      AfterPresent(presented, recorded + [Submit(slot, slot, slot, slot), Present(slot, o.imageIndex, o.presentResult)], o)
  }

  /** `drawFrame()`. */
  function DrawFrame(s: Frames, o: FrameOracle): (r: Drawn)
    requires WellFormed(s)
    ensures WellFormed(r.state)
    ensures |r.trace| >= 1 && r.trace[0] == WaitFence(s.currentFrame)
    ensures r.outcome != Deadlock ==> |r.trace| >= 2 && r.trace[1] == Acquire(s.currentFrame, o.acquireResult)
    ensures r.outcome == Deadlock <==> s.inFlightFences[s.currentFrame] == Reset
    ensures r.outcome.Advanced? ==> r.state.currentFrame == NextSlot(s.currentFrame)
    ensures !r.outcome.Advanced? ==> r.state.currentFrame == s.currentFrame
  {
    var slot := s.currentFrame;
    if s.inFlightFences[slot] == Reset then Drawn(s, [WaitFence(slot)], Deadlock)
    else
      var waited := s.(inFlightFences := s.inFlightFences[slot := Signalled]);
      var acquired := [WaitFence(slot), Acquire(slot, o.acquireResult)];
      if o.acquireResult == VK_ERROR_OUT_OF_DATE_KHR then
        var (recreated, steps, ready) := Recreate(waited, o.framebufferSizes, o.waitResizes);
        Drawn(recreated, acquired + steps, if ready then Retry else Stalled)
      else if o.acquireResult != VK_SUCCESS && o.acquireResult != VK_SUBOPTIMAL_KHR then
        Drawn(waited, acquired, Threw(AcquireFailed))
      else if waited.imageAvailable[slot] then
        Drawn(waited, acquired, SemaphoreReuse)
      else
        AfterAcquire(waited.(imageAvailable := waited.imageAvailable[slot := true]), acquired, o)
  }

  /** A stale acquire recreates the swapchain and returns: the fence is not
      reset, nothing is recorded, submitted or presented, and the ring
      index and semaphores stay as they were. */
  lemma AcquireOutOfDate(s: Frames, o: FrameOracle)
    requires WellFormed(s) && s.inFlightFences[s.currentFrame] != Reset
    requires o.acquireResult == VK_ERROR_OUT_OF_DATE_KHR
    ensures var r := DrawFrame(s, o);
      && (r.outcome == Retry <==> FirstWhere(o.framebufferSizes, Drawable).Some?)
      && (r.outcome == Stalled <==> FirstWhere(o.framebufferSizes, Drawable).None?)
      && (forall i :: 0 <= i < |r.trace| ==> !UsesSlot(r.trace[i]))
      && r.state.currentFrame == s.currentFrame
      && r.state.inFlightFences[s.currentFrame] == Signalled
      && r.state.imageAvailable == s.imageAvailable && r.state.renderFinished == s.renderFinished
  {
    var r := DrawFrame(s, o);
    var waited := s.(inFlightFences := s.inFlightFences[s.currentFrame := Signalled]);
    var (recreated, steps, ready) := Recreate(waited, o.framebufferSizes, o.waitResizes);
    assert r.trace == [WaitFence(s.currentFrame), Acquire(s.currentFrame, o.acquireResult)] + steps;
  }

  /** An acquire result other than success, suboptimal or out-of-date
      throws right after the acquire; suboptimal goes on to reset the
      fence. */
  lemma AcquireResultHandling(s: Frames, o: FrameOracle)
    requires WellFormed(s) && s.inFlightFences[s.currentFrame] != Reset
    ensures o.acquireResult != VK_SUCCESS && o.acquireResult != VK_SUBOPTIMAL_KHR && o.acquireResult != VK_ERROR_OUT_OF_DATE_KHR
      ==> DrawFrame(s, o).outcome == Threw(AcquireFailed) && |DrawFrame(s, o).trace| == 2
    ensures (o.acquireResult == VK_SUCCESS || o.acquireResult == VK_SUBOPTIMAL_KHR) && !s.imageAvailable[s.currentFrame]
      ==> |DrawFrame(s, o).trace| >= 3 && DrawFrame(s, o).trace[2] == ResetFence(s.currentFrame)
  {
  }

  /** The slot-using events after a successful acquire, at their
      positions in the frame's trace. */
  lemma AcquiredFrameSlots(t: Frames, acquired: seq<Event>, o: FrameOracle)
    requires WellFormed(t)
    requires acquired == [WaitFence(t.currentFrame), Acquire(t.currentFrame, o.acquireResult)]
    ensures var r := AfterAcquire(t, acquired, o);
      forall i :: 0 <= i < |r.trace| && UsesSlot(r.trace[i]) ==>
        && i >= 2
        && (r.trace[i].ResetFence? ==> r.trace[i] == ResetFence(t.currentFrame) && i == 2)
        && (r.trace[i].ResetCommandBuffer? ==> r.trace[i].slot == t.currentFrame)
        && (r.trace[i].Record? ==> r.trace[i] == Record(t.currentFrame, o.imageIndex))
        && (r.trace[i].Submit? ==> r.trace[i] == Submit(t.currentFrame, t.currentFrame, t.currentFrame, t.currentFrame))
        && (r.trace[i].Present? ==> r.trace[i].wait == t.currentFrame && r.trace[i - 1].Submit?)
  {
    var r := AfterAcquire(t, acquired, o);
    assert r.trace[..2] == acquired;
    assert r.trace[0] == acquired[0] && r.trace[1] == acquired[1];
  }

  /** Slot discipline: every fence reset, command-buffer reset, record,
      submit and present of a frame is for the current slot; a fence reset
      follows the wait and an acquire that succeeded or was suboptimal;
      submit waits on the slot's image-available semaphore and signals its
      render-finished semaphore and fence, and present waits on that
      render-finished semaphore. */
  lemma {:induction false} SlotDiscipline(s: Frames, o: FrameOracle)
    requires WellFormed(s)
    ensures var r := DrawFrame(s, o);
      forall i :: 0 <= i < |r.trace| && UsesSlot(r.trace[i]) ==>
        && i >= 2
        && (o.acquireResult == VK_SUCCESS || o.acquireResult == VK_SUBOPTIMAL_KHR)
        && (r.trace[i].ResetFence? ==> r.trace[i] == ResetFence(s.currentFrame) && i == 2)
        && (r.trace[i].ResetCommandBuffer? ==> r.trace[i].slot == s.currentFrame)
        && (r.trace[i].Record? ==> r.trace[i] == Record(s.currentFrame, o.imageIndex))
        && (r.trace[i].Submit? ==> r.trace[i] == Submit(s.currentFrame, s.currentFrame, s.currentFrame, s.currentFrame))
        && (r.trace[i].Present? ==> r.trace[i].wait == s.currentFrame && r.trace[i - 1].Submit?)
  {
    var r := DrawFrame(s, o);
    var slot := s.currentFrame;
    if s.inFlightFences[slot] != Reset && o.acquireResult == VK_ERROR_OUT_OF_DATE_KHR {
      AcquireOutOfDate(s, o);
    } else if s.inFlightFences[slot] != Reset && (o.acquireResult == VK_SUCCESS || o.acquireResult == VK_SUBOPTIMAL_KHR)
              && !s.imageAvailable[slot] {
      var waited := s.(inFlightFences := s.inFlightFences[slot := Signalled]);
      var acquired := [WaitFence(slot), Acquire(slot, o.acquireResult)];
      var t := waited.(imageAvailable := waited.imageAvailable[slot := true]);
      assert r == AfterAcquire(t, acquired, o);
      AcquiredFrameSlots(t, acquired, o);
    } else {
      assert |r.trace| <= 2;
    }
  }

  /** A submit failure throws before anything is presented, and leaves the
      slot's fence reset. */
  lemma SubmitFailureStopsBeforePresent(s: Frames, o: FrameOracle)
    requires WellFormed(s) && s.inFlightFences[s.currentFrame] != Reset && !s.imageAvailable[s.currentFrame]
    requires o.acquireResult == VK_SUCCESS || o.acquireResult == VK_SUBOPTIMAL_KHR
    requires o.recordOk && o.submitResult != VK_SUCCESS
    ensures DrawFrame(s, o).outcome == Threw(SubmitFailed)
    ensures forall i :: 0 <= i < |DrawFrame(s, o).trace| ==> !DrawFrame(s, o).trace[i].Present? && !DrawFrame(s, o).trace[i].Submit?
    ensures DrawFrame(s, o).state.inFlightFences[s.currentFrame] == Reset
  {
  }

  /** After a submitted frame, a stale or suboptimal present, or a pending
      resize, clears the flag, recreates the swapchain and still advances
      the ring; the flag is set again afterwards exactly when a resize
      event arrived while waiting for a drawable size. Any other present
      failure throws and does not advance. */
  lemma PresentResultHandling(s: Frames, o: FrameOracle)
    requires WellFormed(s) && s.inFlightFences[s.currentFrame] != Reset
    requires !s.imageAvailable[s.currentFrame] && !s.renderFinished[s.currentFrame]
    requires o.acquireResult == VK_SUCCESS || o.acquireResult == VK_SUBOPTIMAL_KHR
    requires o.recordOk && o.submitResult == VK_SUCCESS
    ensures var r := DrawFrame(s, o);
      var stale := o.presentResult == VK_ERROR_OUT_OF_DATE_KHR || o.presentResult == VK_SUBOPTIMAL_KHR || s.framebufferResized;
      && (stale ==> (r.state.framebufferResized <==> ResizeDelivered(o.waitResizes, WaitCount(o.framebufferSizes))))
      && (stale && FirstWhere(o.framebufferSizes, Drawable).Some? ==>
            r.outcome == Advanced && r.trace[|r.trace| - 2].RecreateSwapchain?)
      && (stale && FirstWhere(o.framebufferSizes, Drawable).None? ==> r.outcome == Stalled)
      && (!stale && o.presentResult != VK_SUCCESS ==> r.outcome == Threw(PresentFailed))
      && (!stale && o.presentResult == VK_SUCCESS ==> r.outcome == Advanced && r.state.framebufferResized == s.framebufferResized)
  {
  }

  /** From a quiescent state the frame never waits on a reset fence and
      never signals a semaphore that still holds a signal. */
  lemma QuiescentIsSafe(s: Frames, o: FrameOracle)
    requires Quiescent(s)
    ensures DrawFrame(s, o).outcome != Deadlock && DrawFrame(s, o).outcome != SemaphoreReuse
  {
  }

  /** Every frame that does not throw leaves the state quiescent again. */
  lemma DrawFramePreservesQuiescent(s: Frames, o: FrameOracle)
    requires Quiescent(s)
    requires !DrawFrame(s, o).outcome.Threw?
    ensures Quiescent(DrawFrame(s, o).state)
  {
    var slot := s.currentFrame;
    var r := DrawFrame(s, o);
    assert r.outcome != Deadlock && r.outcome != SemaphoreReuse;
    forall i | 0 <= i < MAX_FRAMES_IN_FLIGHT
      ensures r.state.inFlightFences[i] != Reset
    {
      assert s.inFlightFences[i] != Reset;
    }
  }

  /** What a sequence of frames leaves behind: the final state, the number
      of frames that reached the ring advance, and the outcome that ended
      the loop early, if any. Early returns on a stale acquire let the loop
      go on; a stall or a protocol break ends it, as does a throw. */
  datatype RunResult = RunResult(state: Frames, completed: nat, stopped: Option<DrawOutcome>)

  /** `window.pollEvents()` at the top of a loop iteration: a delivered
      framebuffer-size event runs the callback. */
  function Poll(s: Frames, o: FrameOracle): (r: Frames)
    ensures r.framebufferResized <==> s.framebufferResized || o.pollResize
    ensures r.(framebufferResized := s.framebufferResized) == s
  {
    FramebufferResizeCallback(s, o.pollResize)
  }

  /** Polling touches only the resize flag, so it keeps a state
      quiescent. */
  lemma PollKeepsQuiescent(s: Frames, o: FrameOracle)
    requires Quiescent(s)
    ensures Quiescent(Poll(s, o))
  {
    var p := Poll(s, o);
    assert p.inFlightFences == s.inFlightFences && p.imageAvailable == s.imageAvailable && p.renderFinished == s.renderFinished;
  }

  /** `mainLoop()` over the given per-iteration answers: poll the window's
      events, then draw a frame. */
  function Run(s: Frames, oracles: seq<FrameOracle>): (r: RunResult)
    requires WellFormed(s)
    ensures WellFormed(r.state)
    ensures r.completed <= |oracles|
    decreases |oracles|
  {
    if oracles == [] then RunResult(s, 0, None)
    else
      var d := DrawFrame(Poll(s, oracles[0]), oracles[0]);
      if d.outcome == Advanced then
        var rest := Run(d.state, oracles[1..]);
        rest.(completed := rest.completed + 1)
      else if d.outcome == Retry then Run(d.state, oracles[1..])
      else RunResult(d.state, 0, Some(d.outcome))
  }

  /** One frame of the loop, in terms of the facts `DrawFrame` promises:
      the loop goes on after a completed frame or a stale acquire and
      stops on anything else. */
  lemma RunStep(s: Frames, oracles: seq<FrameOracle>)
    requires WellFormed(s) && oracles != []
    ensures var d := DrawFrame(Poll(s, oracles[0]), oracles[0]);
      var rest := Run(d.state, oracles[1..]);
      && (d.outcome == Advanced ==>
            Run(s, oracles) == rest.(completed := rest.completed + 1)
            && d.state.currentFrame == NextSlot(s.currentFrame))
      && (d.outcome == Retry ==> Run(s, oracles) == rest && d.state.currentFrame == s.currentFrame)
      && (d.outcome != Advanced && d.outcome != Retry ==>
            Run(s, oracles) == RunResult(d.state, 0, Some(d.outcome)) && d.state.currentFrame == s.currentFrame)
  {
  }

  /** The ring index moves once per completed frame and never otherwise. */
  lemma {:induction false} RunCountsAdvances(s: Frames, oracles: seq<FrameOracle>)
    requires WellFormed(s)
    ensures Run(s, oracles).state.currentFrame == SlotAfter(s.currentFrame, Run(s, oracles).completed)
    decreases |oracles|
  {
    if oracles != [] {
      RunStep(s, oracles);
      var d := DrawFrame(Poll(s, oracles[0]), oracles[0]);
      if d.outcome == Advanced || d.outcome == Retry {
        RunCountsAdvances(d.state, oracles[1..]);
      }
      if d.outcome == Advanced {
        SlotAfterShift(s.currentFrame, Run(d.state, oracles[1..]).completed);
      }
    }
  }

  /** After exactly `MAX_FRAMES_IN_FLIGHT` advances a slot in range is
      back where it started. */
  lemma SlotAfterFullTurn(c: nat)
    requires c < MAX_FRAMES_IN_FLIGHT
    ensures SlotAfter(c, MAX_FRAMES_IN_FLIGHT) == c
  {
    SlotAfterIsModular(c, MAX_FRAMES_IN_FLIGHT);
  }

  /** After exactly `MAX_FRAMES_IN_FLIGHT` completed frames the ring is
      back at its start. */
  lemma RingReturnsToStart(s: Frames, oracles: seq<FrameOracle>)
    requires WellFormed(s)
    requires Run(s, oracles).completed == MAX_FRAMES_IN_FLIGHT
    ensures Run(s, oracles).state.currentFrame == s.currentFrame
  {
    RunCountsAdvances(s, oracles);
    SlotAfterFullTurn(s.currentFrame);
  }

  /** Started quiescent, the loop never deadlocks on a fence nor reuses a
      semaphore, and unless a frame threw it ends quiescent. */
  lemma {:induction false} RunIsSafe(s: Frames, oracles: seq<FrameOracle>)
    requires Quiescent(s)
    ensures Run(s, oracles).stopped != Some(Deadlock) && Run(s, oracles).stopped != Some(SemaphoreReuse)
    ensures (Run(s, oracles).stopped.None? || !Run(s, oracles).stopped.value.Threw?) ==> Quiescent(Run(s, oracles).state)
    decreases |oracles|
  {
    if oracles != [] {
      var p := Poll(s, oracles[0]);
      var d := DrawFrame(p, oracles[0]);
      PollKeepsQuiescent(s, oracles[0]);
      QuiescentIsSafe(p, oracles[0]);
      if !d.outcome.Threw? {
        DrawFramePreservesQuiescent(p, oracles[0]);
      }
      if d.outcome == Advanced || d.outcome == Retry {
        RunIsSafe(d.state, oracles[1..]);
      }
    }
  }

  /** `framebufferResizeCallback`: sets the resize flag when the window's
      user pointer is set, and changes nothing else. */
  function FramebufferResizeCallback(s: Frames, userPointerSet: bool): (r: Frames)
    ensures r.framebufferResized <==> s.framebufferResized || userPointerSet
    ensures r.(framebufferResized := s.framebufferResized) == s
  {
    if userPointerSet then s.(framebufferResized := true) else s
  }

  /** A resize reported through the callback forces a recreate at the next
      present even when the present itself succeeds; the flag is cleared
      unless another resize event arrives while waiting for a drawable
      size. */
  lemma ResizeForcesRecreate(s: Frames, o: FrameOracle)
    requires WellFormed(s) && s.inFlightFences[s.currentFrame] != Reset
    requires !s.imageAvailable[s.currentFrame] && !s.renderFinished[s.currentFrame]
    requires o.acquireResult == VK_SUCCESS && o.recordOk && o.submitResult == VK_SUCCESS && o.presentResult == VK_SUCCESS
    requires FirstWhere(o.framebufferSizes, Drawable).Some?
    ensures var r := DrawFrame(FramebufferResizeCallback(s, true), o);
      && r.outcome == Advanced
      && (r.state.framebufferResized <==> ResizeDelivered(o.waitResizes, WaitCount(o.framebufferSizes)))
      && exists i :: 0 <= i < |r.trace| && r.trace[i].RecreateSwapchain?
  {
    var r := DrawFrame(FramebufferResizeCallback(s, true), o);
    PresentResultHandling(FramebufferResizeCallback(s, true), o);
    assert r.trace[|r.trace| - 2].RecreateSwapchain?;
  }

  /** A window restored from minimisation while the size loop waits: the
      first query answers 0x0, the wait delivers the resize event, the
      second query answers 1280x720. The swapchain is recreated at that
      size and the flag is set again, so the next present recreates once
      more. */
  lemma RestoreDuringWaitKeepsFlag(s: Frames, o: FrameOracle)
    requires WellFormed(s) && s.inFlightFences[s.currentFrame] != Reset
    requires !s.imageAvailable[s.currentFrame] && !s.renderFinished[s.currentFrame]
    requires o.acquireResult == VK_SUCCESS && o.recordOk && o.submitResult == VK_SUCCESS
    requires o.presentResult == VK_ERROR_OUT_OF_DATE_KHR
    requires o.framebufferSizes == [(0, 0), (1280, 720)] && o.waitResizes == [true]
    ensures var r := DrawFrame(s, o);
      && r.outcome == Advanced
      && r.state.framebufferResized
      && r.trace[|r.trace| - 2] == RecreateSwapchain(1280, 720)
  {
    assert !Drawable(o.framebufferSizes[0]) && Drawable(o.framebufferSizes[1]);
    FirstWhereIsUnique(o.framebufferSizes, Drawable, 1);
    assert o.waitResizes[0];
  }

  /** One `vkCreateSemaphore` or `vkCreateFence` call of `createSyncObjects`. */
  datatype SyncRequest =
    | ImageAvailableSemaphore(slot: nat)
    | RenderFinishedSemaphore(slot: nat)
    | InFlightFence(slot: nat, flags: bv32)

  /** The handles `createSyncObjects` leaves in the three vectors. */
  datatype SyncObjects = SyncObjects(imageAvailableSemaphores: seq<Raw>, renderFinishedSemaphores: seq<Raw>, inFlightFences: seq<Raw>)

  /** The creation calls for one slot when every call succeeds: the
      image-available semaphore, the render-finished semaphore, then the
      fence, created signalled. */
  function SlotRequests(slot: nat): seq<SyncRequest>
  {
    [ImageAvailableSemaphore(slot), RenderFinishedSemaphore(slot), InFlightFence(slot, VK_FENCE_CREATE_SIGNALED_BIT)]
  }

  /** The creation calls for slots `0 .. n - 1`, slot by slot. */
  function RequestsBefore(n: nat): seq<SyncRequest>
  {
    if n == 0 then [] else RequestsBefore(n - 1) + SlotRequests(n - 1)
  }

  /** Every creation call `createSyncObjects` makes when none fails. */
  function AllSyncRequests(): seq<SyncRequest>
  {
    RequestsBefore(MAX_FRAMES_IN_FLIGHT)
  }

  /** Every fence in `calls` is requested signalled. */
  predicate FencesSignalled(calls: seq<SyncRequest>)
  {
    forall k :: 0 <= k < |calls| && calls[k].InFlightFence? ==> calls[k].flags == VK_FENCE_CREATE_SIGNALED_BIT
  }

  /** Every creation call in `calls` succeeded. */
  predicate AllSucceeded(create: SyncRequest -> Created, calls: seq<SyncRequest>)
  {
    forall k :: 0 <= k < |calls| ==> create(calls[k]).result == VK_SUCCESS
  }

  /** The calls for the first slots come first, three per slot, and every
      fence among them is requested signalled. */
  lemma {:induction false} RequestsBeforeGrow(m: nat, n: nat)
    requires m <= n
    ensures |RequestsBefore(n)| == 3 * n
    ensures RequestsBefore(m) <= RequestsBefore(n)
    ensures FencesSignalled(RequestsBefore(n))
    decreases n
  {
    if n > 0 {
      if m < n {
        RequestsBeforeGrow(m, n - 1);
      } else {
        RequestsBeforeGrow(n - 1, n - 1);
      }
    }
  }

  /** A creation that stops inside slot `i`, after the calls of the slots
      before it and the first `j` calls of its own (the last of which
      failed): the calls made are a prefix of all of them, with signalled
      fences, and not every call succeeds. */
  lemma StoppedIn(create: SyncRequest -> Created, i: nat, j: nat)
    requires i < MAX_FRAMES_IN_FLIGHT && 1 <= j <= 3
    requires AllSucceeded(create, RequestsBefore(i))
    requires forall k :: 0 <= k < j - 1 ==> create(SlotRequests(i)[k]).result == VK_SUCCESS
    requires create(SlotRequests(i)[j - 1]).result != VK_SUCCESS
    ensures var calls := RequestsBefore(i) + SlotRequests(i)[..j];
      && calls <= AllSyncRequests()
      && FencesSignalled(calls)
      && !AllSucceeded(create, AllSyncRequests())
      && |calls| > 0 && create(calls[|calls| - 1]).result != VK_SUCCESS
      && AllSucceeded(create, calls[..|calls| - 1])
  {
    StoppedAfter(create, RequestsBefore(i), SlotRequests(i)[..j]);
    StoppedInPrefix(create, i, j);
  }

  /** Successful calls followed by a run of calls whose last alone failed. */
  lemma StoppedAfter(create: SyncRequest -> Created, done: seq<SyncRequest>, own: seq<SyncRequest>)
    requires |own| > 0
    requires AllSucceeded(create, done)
    requires forall k :: 0 <= k < |own| - 1 ==> create(own[k]).result == VK_SUCCESS
    requires create(own[|own| - 1]).result != VK_SUCCESS
    ensures var calls := done + own;
      && |calls| > 0 && create(calls[|calls| - 1]).result != VK_SUCCESS
      && AllSucceeded(create, calls[..|calls| - 1])
  {
    var calls := done + own;
    assert calls[..|calls| - 1] == done + own[..|own| - 1];
  }

  /** The calls made up to a failure inside slot `i` are a prefix of all of
      them. */
  lemma StoppedInPrefix(create: SyncRequest -> Created, i: nat, j: nat)
    requires i < MAX_FRAMES_IN_FLIGHT && 1 <= j <= 3
    requires create(SlotRequests(i)[j - 1]).result != VK_SUCCESS
    ensures var calls := RequestsBefore(i) + SlotRequests(i)[..j];
      && calls <= AllSyncRequests()
      && FencesSignalled(calls)
      && !AllSucceeded(create, AllSyncRequests())
  {
    var calls := RequestsBefore(i) + SlotRequests(i)[..j];
    RequestsBeforeGrow(i + 1, MAX_FRAMES_IN_FLIGHT);
    RequestsBeforeGrow(i, i);
    assert RequestsBefore(i + 1) == RequestsBefore(i) + SlotRequests(i);
    assert calls <= RequestsBefore(i + 1);
    assert AllSyncRequests()[|calls| - 1] == calls[|calls| - 1] == SlotRequests(i)[j - 1];
  }

  /** `createSyncObjects()`: creates the objects slot by slot and stops at
      the first failing call (the `||` chain), throwing. `calls` are the
      creation calls made. On success each vector has one handle per slot
      and every fence was requested signalled. */
  method CreateSyncObjects(create: SyncRequest -> Created) returns (calls: seq<SyncRequest>, r: Result<SyncObjects>)
    ensures calls <= AllSyncRequests()
    ensures FencesSignalled(calls)
    ensures r.Ok? <==> AllSucceeded(create, AllSyncRequests())
    ensures r.Err? ==> (&& r.error == SyncObjectCreationFailed
                        && |calls| > 0 && create(calls[|calls| - 1]).result != VK_SUCCESS
                        && AllSucceeded(create, calls[..|calls| - 1]))
    ensures r.Ok? ==> (&& calls == AllSyncRequests()
                       && |r.value.imageAvailableSemaphores| == MAX_FRAMES_IN_FLIGHT
                       && |r.value.renderFinishedSemaphores| == MAX_FRAMES_IN_FLIGHT
                       && |r.value.inFlightFences| == MAX_FRAMES_IN_FLIGHT)
    ensures r.Ok? ==> forall i :: 0 <= i < MAX_FRAMES_IN_FLIGHT ==>
      && r.value.imageAvailableSemaphores[i] == create(ImageAvailableSemaphore(i)).handle
      && r.value.renderFinishedSemaphores[i] == create(RenderFinishedSemaphore(i)).handle
      && r.value.inFlightFences[i] == create(InFlightFence(i, VK_FENCE_CREATE_SIGNALED_BIT)).handle
  {
    var ia: seq<Raw> := [];
    var rf: seq<Raw> := [];
    var fences: seq<Raw> := [];
    calls := [];
    for i := 0 to MAX_FRAMES_IN_FLIGHT
      invariant |ia| == i && |rf| == i && |fences| == i
      invariant calls == RequestsBefore(i)
      invariant AllSucceeded(create, calls)
      invariant forall j :: 0 <= j < i ==>
        && ia[j] == create(ImageAvailableSemaphore(j)).handle
        && rf[j] == create(RenderFinishedSemaphore(j)).handle
        && fences[j] == create(InFlightFence(j, VK_FENCE_CREATE_SIGNALED_BIT)).handle
    {
      var slot := SlotRequests(i);
      var a := create(slot[0]);
      if a.result != VK_SUCCESS {
        StoppedIn(create, i, 1);
        return calls + slot[..1], Err(SyncObjectCreationFailed);
      }
      var b := create(slot[1]);
      if b.result != VK_SUCCESS {
        StoppedIn(create, i, 2);
        return calls + slot[..2], Err(SyncObjectCreationFailed);
      }
      var f := create(slot[2]);
      if f.result != VK_SUCCESS {
        StoppedIn(create, i, 3);
        return calls + slot[..3], Err(SyncObjectCreationFailed);
      }
      calls := calls + slot;
      ia := ia + [a.handle];
      rf := rf + [b.handle];
      fences := fences + [f.handle];
    }
    RequestsBeforeGrow(MAX_FRAMES_IN_FLIGHT, MAX_FRAMES_IN_FLIGHT);
    r := Ok(SyncObjects(ia, rf, fences));
  }

  /** The state a fence is created in: signalled exactly when its flags
      carry `VK_FENCE_CREATE_SIGNALED_BIT`, reset otherwise. */
  function CreatedFenceState(flags: bv32): FenceState
  {
    if flags & VK_FENCE_CREATE_SIGNALED_BIT != 0 then Signalled else Reset
  }

  /** The initial states of the fences `calls` create, in call order. */
  function FenceStatesOf(calls: seq<SyncRequest>): seq<FenceState>
  {
    if calls == [] then []
    else FenceStatesOf(calls[..|calls| - 1])
         + (if calls[|calls| - 1].InFlightFence? then [CreatedFenceState(calls[|calls| - 1].flags)] else [])
  }

  lemma {:induction false} FenceStatesOfAppend(a: seq<SyncRequest>, b: seq<SyncRequest>)
    ensures FenceStatesOf(a + b) == FenceStatesOf(a) + FenceStatesOf(b)
    decreases |b|
  {
    if b == [] {
      assert a + b == a;
    } else {
      assert (a + b)[..|a + b| - 1] == a + b[..|b| - 1];
      assert (a + b)[|a + b| - 1] == b[|b| - 1];
      FenceStatesOfAppend(a, b[..|b| - 1]);
    }
  }

  /** Fences requested signalled start signalled. */
  lemma {:induction false} SignalledRequestsStartSignalled(calls: seq<SyncRequest>)
    requires FencesSignalled(calls)
    ensures forall i :: 0 <= i < |FenceStatesOf(calls)| ==> FenceStatesOf(calls)[i] == Signalled
    decreases |calls|
  {
    if calls != [] {
      SignalledRequestsStartSignalled(calls[..|calls| - 1]);
    }
  }

  /** The creation calls for `n` slots create one fence per slot, and each
      starts signalled. */
  lemma {:induction false} OneFencePerSlot(n: nat)
    ensures |FenceStatesOf(RequestsBefore(n))| == n
    ensures forall i :: 0 <= i < n ==> FenceStatesOf(RequestsBefore(n))[i] == Signalled
    decreases n
  {
    if n > 0 {
      OneFencePerSlot(n - 1);
      FenceStatesOfAppend(RequestsBefore(n - 1), SlotRequests(n - 1));
      var slot := SlotRequests(n - 1);
      assert slot[..2][..1] == [slot[0]] && [slot[0]][..0] == [];
      assert slot[..|slot| - 1] == slot[..2];
      assert FenceStatesOf([slot[0]]) == [];
      assert FenceStatesOf(slot[..2]) == [];
      assert FenceStatesOf(slot) == [Signalled];
    }
    RequestsBeforeGrow(n, n);
    SignalledRequestsStartSignalled(RequestsBefore(n));
  }

  /** The frame state once `createSyncObjects` has succeeded: the ring at
      slot 0 and the resize flag clear as the member initialisers leave
      them, each fence in the state its creation flags give it, and no
      semaphore signalled. */
  function InitialFrames(): (s: Frames)
    ensures Quiescent(s)
    ensures s.currentFrame == 0 && !s.framebufferResized
    ensures forall i :: 0 <= i < MAX_FRAMES_IN_FLIGHT ==> s.inFlightFences[i] == Signalled
  {
    OneFencePerSlot(MAX_FRAMES_IN_FLIGHT);
    Frames(0, false,
           FenceStatesOf(AllSyncRequests()),
           seq(MAX_FRAMES_IN_FLIGHT, _ => false),
           seq(MAX_FRAMES_IN_FLIGHT, _ => false))
  }
}
