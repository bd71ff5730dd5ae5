/** `VulkanManager::cleanup` and the destructor that calls it: the order in
    which the renderer's Vulkan objects are released.

    Each release is a `Step`. `Rank` numbers the eleven phases of the
    teardown in the order the code runs them; a teardown is `Ordered` when
    no step comes after a step of a later phase, which is what keeps every
    object alive until the objects created from it are gone. */
module Teardown {
  import opened Vk
  import CommandManager
  import VmaWrapper
  import FrameScheduler

  /** The members `cleanup` reads. The two `unique_ptr` members are an
      `Option` and a flag; the sync vectors are empty until
      `createSyncObjects` sizes them. */
  datatype Manager = Manager(
    instance: Raw,
    debugMessenger: Raw,
    surface: Raw,
    device: Raw,
    imageAvailableSemaphores: seq<Raw>,
    renderFinishedSemaphores: seq<Raw>,
    inFlightFences: seq<Raw>,
    commandManager: Option<CommandManager.Manager>,
    graphicsPipeline: Raw,
    graphicsPipelineLayout: Raw,
    swapchainManager: bool,
    renderPass: Raw,
    vmaWrapper: VmaWrapper.Wrapper)

  datatype Step =
    | DeviceWaitIdle(device: Raw)
    | DestroySemaphore(semaphore: Raw)
    | DestroyFence(fence: Raw)
    | DestroyCommandPool(pool: Raw)
    | DestroyPipeline(pipeline: Raw, layout: Raw)
    | DestroySwapchainManager
    | DestroyRenderPass(renderPass: Raw)
    | DestroyAllocator(allocator: Raw)
    | DestroyDevice(device: Raw)
    | DestroySurface(surface: Raw)
    | DestroyDebugMessenger(messenger: Raw)
    | DestroyInstance(instance: Raw)

  /** The phase of a step: wait for idle, per-slot sync objects, command
      manager, pipeline, swapchain manager, render pass, VMA, device,
      surface, debug messenger, instance. */
  function Rank(s: Step): nat
  {
    match s
    case DeviceWaitIdle(_) => 1
    case DestroySemaphore(_) => 2
    case DestroyFence(_) => 2
    case DestroyCommandPool(_) => 3
    case DestroyPipeline(_, _) => 4
    case DestroySwapchainManager => 5
    case DestroyRenderPass(_) => 6
    case DestroyAllocator(_) => 7
    case DestroyDevice(_) => 8
    case DestroySurface(_) => 9
    case DestroyDebugMessenger(_) => 10
    case DestroyInstance(_) => 11
  }

  predicate Ordered(steps: seq<Step>)
  {
    forall i, j :: 0 <= i < j < |steps| ==> Rank(steps[i]) <= Rank(steps[j])
  }

  /** Every step of `s` belongs to phase `r`. */
  predicate AllRank(s: seq<Step>, r: nat)
  {
    forall i :: 0 <= i < |s| ==> Rank(s[i]) == r
  }

  /** Every step of `s` belongs to phase `r` or a later one. */
  predicate AtLeast(s: seq<Step>, r: nat)
  {
    forall i :: 0 <= i < |s| ==> Rank(s[i]) >= r
  }

  /** `s` is in phase order and starts no earlier than phase `floor`,
      checked step by step. */
  predicate InOrder(s: seq<Step>, floor: nat)
    decreases |s|
  {
    s == [] || (floor <= Rank(s[0]) && InOrder(s[1..], Rank(s[0])))
  }

  lemma {:induction false} InOrderIsOrdered(s: seq<Step>, floor: nat)
    requires InOrder(s, floor)
    ensures Ordered(s) && AtLeast(s, floor)
    decreases |s|
  {
    if s != [] {
      InOrderIsOrdered(s[1..], Rank(s[0]));
      forall i, j | 0 <= i < j < |s|
        ensures Rank(s[i]) <= Rank(s[j])
      {
        if 0 < i {
          assert s[i] == s[1..][i - 1] && s[j] == s[1..][j - 1];
        } else {
          assert s[j] == s[1..][j - 1];
        }
      }
      forall i | 0 <= i < |s|
        ensures Rank(s[i]) >= floor
      {
        if 0 < i {
          assert s[i] == s[1..][i - 1];
        }
      }
    }
  }

  /** A phase put in front of a teardown of later phases keeps it in
      order. */
  lemma {:induction false} Prepend(a: seq<Step>, r: nat, b: seq<Step>, later: nat)
    requires AllRank(a, r) && r <= later && InOrder(b, later)
    ensures InOrder(a + b, r)
    decreases |a|
  {
    if a == [] {
      assert a + b == b;
    } else {
      Prepend(a[1..], r, b, later);
      assert (a + b)[1..] == a[1..] + b;
    }
  }

  /** The per-slot loop, for slots `i` and up: the render-finished
      semaphore, the image-available semaphore and the fence of each slot.
      A slot missing from a vector is skipped here; `SyncVectorsSized`
      says when that cannot happen. */
  function SyncSteps(m: Manager, i: nat): seq<Step>
    decreases FrameScheduler.MAX_FRAMES_IN_FLIGHT - i
  {
    if i >= FrameScheduler.MAX_FRAMES_IN_FLIGHT then []
    else
      (if i < |m.renderFinishedSemaphores| then [DestroySemaphore(m.renderFinishedSemaphores[i])] else [])
      + (if i < |m.imageAvailableSemaphores| then [DestroySemaphore(m.imageAvailableSemaphores[i])] else [])
      + (if i < |m.inFlightFences| then [DestroyFence(m.inFlightFences[i])] else [])
      + SyncSteps(m, i + 1)
  }

  /** Every slot the loop visits exists in all three vectors. */
  predicate SyncVectorsSized(m: Manager)
  {
    && |m.imageAvailableSemaphores| >= FrameScheduler.MAX_FRAMES_IN_FLIGHT
    && |m.renderFinishedSemaphores| >= FrameScheduler.MAX_FRAMES_IN_FLIGHT
    && |m.inFlightFences| >= FrameScheduler.MAX_FRAMES_IN_FLIGHT
  }

  /** With the vectors sized, each slot contributes its three objects. */
  lemma {:induction false} SyncStepsFull(m: Manager, i: nat)
    requires SyncVectorsSized(m) && i <= FrameScheduler.MAX_FRAMES_IN_FLIGHT
    ensures |SyncSteps(m, i)| == 3 * (FrameScheduler.MAX_FRAMES_IN_FLIGHT - i)
    ensures forall k :: i <= k < FrameScheduler.MAX_FRAMES_IN_FLIGHT ==>
      && SyncSteps(m, i)[3 * (k - i)] == DestroySemaphore(m.renderFinishedSemaphores[k])
      && SyncSteps(m, i)[3 * (k - i) + 1] == DestroySemaphore(m.imageAvailableSemaphores[k])
      && SyncSteps(m, i)[3 * (k - i) + 2] == DestroyFence(m.inFlightFences[k])
    decreases FrameScheduler.MAX_FRAMES_IN_FLIGHT - i
  {
    if i < FrameScheduler.MAX_FRAMES_IN_FLIGHT {
      SyncStepsFull(m, i + 1);
      var head := [DestroySemaphore(m.renderFinishedSemaphores[i]), DestroySemaphore(m.imageAvailableSemaphores[i]),
                   DestroyFence(m.inFlightFences[i])];
      assert SyncSteps(m, i) == head + SyncSteps(m, i + 1);
      forall k | i < k < FrameScheduler.MAX_FRAMES_IN_FLIGHT
        ensures SyncSteps(m, i)[3 * (k - i)] == DestroySemaphore(m.renderFinishedSemaphores[k])
        ensures SyncSteps(m, i)[3 * (k - i) + 1] == DestroySemaphore(m.imageAvailableSemaphores[k])
        ensures SyncSteps(m, i)[3 * (k - i) + 2] == DestroyFence(m.inFlightFences[k])
      {
        assert 3 * (k - i) == 3 + 3 * (k - (i + 1));
      }
    }
  }

  /** One guarded release: the step when `c` holds, nothing otherwise. */
  function When(c: bool, s: Step): (r: seq<Step>)
    ensures c ==> r == [s]
    ensures !c ==> r == []
  {
    if c then [s] else []
  }

  /** `commandManager.reset()`: the manager's destructor releases its pool. */
  function PoolRelease(m: Manager): (r: seq<Step>)
    ensures |r| <= 1
    ensures r != [] <==> m.commandManager.Some? && m.commandManager.value.commandPool != NULL
  {
    match m.commandManager
    case None => []
    case Some(cm) => (match CommandManager.Destroy(cm) case None => [] case Some(p) => [DestroyCommandPool(p)])
  }

  /** Which teardown is run: the manager, the validation switch, whether
      the wait for idle is unconditional (as written) or guarded by a live
      device, and the allocator the VMA wrapper's teardown destroys. */
  datatype Plan = Plan(manager: Manager, enableValidationLayers: bool, waitAlways: bool, allocator: Option<Raw>)

  const LAST_PHASE: nat := 11

  /** The releases of phase `k`, in source order within the phase. */
  function Phase(p: Plan, k: nat): seq<Step>
  {
    var m := p.manager;
    if k == 1 then When(p.waitAlways || m.device != NULL, DeviceWaitIdle(m.device))
    else if k == 2 then SyncSteps(m, 0)
    else if k == 3 then PoolRelease(m)
    else if k == 4 then When(m.graphicsPipeline != NULL || m.graphicsPipelineLayout != NULL,
                             DestroyPipeline(m.graphicsPipeline, m.graphicsPipelineLayout))
    else if k == 5 then When(m.swapchainManager, DestroySwapchainManager)
    else if k == 6 then When(m.renderPass != NULL, DestroyRenderPass(m.renderPass))
    else if k == 7 then (match p.allocator case None => [] case Some(a) => [DestroyAllocator(a)])
    else if k == 8 then When(m.device != NULL, DestroyDevice(m.device))
    else if k == 9 then When(m.surface != NULL, DestroySurface(m.surface))
    else if k == 10 then When(p.enableValidationLayers && m.debugMessenger != NULL, DestroyDebugMessenger(m.debugMessenger))
    else if k == 11 then When(m.instance != NULL, DestroyInstance(m.instance))
    else []
  }

  /** Phases `k` to `LAST_PHASE` of `phases`, one after the other. */
  function Concat(phases: nat -> seq<Step>, k: nat): seq<Step>
    decreases LAST_PHASE + 1 - k
  {
    if k > LAST_PHASE then [] else phases(k) + Concat(phases, k + 1)
  }

  /** Phase `j` of `phases` holds only steps of rank `j`. */
  predicate Phased(phases: nat -> seq<Step>)
  {
    forall j: nat :: j <= LAST_PHASE ==> AllRank(phases(j), j)
  }

  lemma {:induction false} ConcatInOrder(phases: nat -> seq<Step>, k: nat)
    requires Phased(phases)
    ensures InOrder(Concat(phases, k), k)
    decreases LAST_PHASE + 1 - k
  {
    if k <= LAST_PHASE {
      ConcatInOrder(phases, k + 1);
      Prepend(phases(k), k, Concat(phases, k + 1), k + 1);
    }
  }

  lemma {:induction false} ConcatSame(f: nat -> seq<Step>, g: nat -> seq<Step>, k: nat)
    requires forall j: nat :: f(j) == g(j)
    ensures Concat(f, k) == Concat(g, k)
    decreases LAST_PHASE + 1 - k
  {
    if k <= LAST_PHASE {
      ConcatSame(f, g, k + 1);
    }
  }

  /** The phases of a plan, as a function of the phase number. */
  function Phases(p: Plan): nat -> seq<Step>
  {
    (k: nat) => Phase(p, k)
  }

  lemma {:induction false} SyncStepsRank(m: Manager, i: nat)
    ensures AllRank(SyncSteps(m, i), 2)
    decreases FrameScheduler.MAX_FRAMES_IN_FLIGHT - i
  {
    if i < FrameScheduler.MAX_FRAMES_IN_FLIGHT {
      SyncStepsRank(m, i + 1);
    }
  }

  /** Phase `k` of every plan holds only steps of rank `k`. */
  lemma PlanPhased(p: Plan)
    ensures Phased(Phases(p))
  {
    SyncStepsRank(p.manager, 0);
  }

  /** The teardown a plan runs. */
  function TeardownOf(p: Plan): seq<Step>
  {
    Concat(Phases(p), 1)
  }

  /** Every teardown plan releases in phase order. */
  lemma TeardownIsOrdered(p: Plan)
    ensures Ordered(TeardownOf(p))
  {
    PlanPhased(p);
    ConcatInOrder(Phases(p), 1);
    InOrderIsOrdered(TeardownOf(p), 1);
  }

  /** How often `x` occurs in `s`. */
  function Count(s: seq<Step>, x: Step): (n: nat)
    decreases |s|
  {
    if s == [] then 0 else (if s[0] == x then 1 else 0) + Count(s[1..], x)
  }

  lemma {:induction false} CountAppend(a: seq<Step>, b: seq<Step>, x: Step)
    ensures Count(a + b, x) == Count(a, x) + Count(b, x)
    decreases |a|
  {
    if a == [] {
      assert a + b == b;
    } else {
      CountAppend(a[1..], b, x);
      assert (a + b)[0] == a[0] && (a + b)[1..] == a[1..] + b;
    }
  }

  /** A step that is counted has a position. */
  lemma {:induction false} PositionOf(s: seq<Step>, x: Step) returns (i: nat)
    requires Count(s, x) > 0
    ensures i < |s| && s[i] == x
    decreases |s|
  {
    if s[0] == x {
      i := 0;
    } else {
      var j := PositionOf(s[1..], x);
      i := j + 1;
    }
  }

  /** A step of another phase does not occur among steps of phase `r`. */
  lemma {:induction false} NotOfRank(s: seq<Step>, r: nat, x: Step)
    requires AllRank(s, r) && Rank(x) != r
    ensures Count(s, x) == 0
    decreases |s|
  {
    if s != [] {
      NotOfRank(s[1..], r, x);
    }
  }

  /** A step occurs in a teardown only within its own phase `r`: as often
      as that phase holds it, if the phase is run at all. */
  lemma {:induction false} OccursOnlyInItsPhase(phases: nat -> seq<Step>, k: nat, x: Step, r: nat)
    requires Phased(phases) && r == Rank(x)
    ensures Count(Concat(phases, k), x) == if k <= r <= LAST_PHASE then Count(phases(r), x) else 0
    decreases LAST_PHASE + 1 - k
  {
    if k <= LAST_PHASE {
      var rest := Concat(phases, k + 1);
      OccursOnlyInItsPhase(phases, k + 1, x, r);
      CountAppend(phases(k), rest, x);
      if r != k {
        NotOfRank(phases(k), k, x);
      }
    }
  }

  /** A plan releases the allocator it is given once, and no other. */
  lemma AllocatorReleasedOnce(p: Plan, a: Raw)
    ensures Count(TeardownOf(p), DestroyAllocator(a)) == if p.allocator == Some(a) then 1 else 0
  {
    PlanPhased(p);
    OccursOnlyInItsPhase(Phases(p), 1, DestroyAllocator(a), 7);
    assert Phases(p)(7) == Phase(p, 7);
  }

  /** A plan destroys a live instance once. */
  lemma InstanceReleasedOnce(p: Plan)
    requires p.manager.instance != NULL
    ensures Count(TeardownOf(p), DestroyInstance(p.manager.instance)) == 1
  {
    PlanPhased(p);
    OccursOnlyInItsPhase(Phases(p), 1, DestroyInstance(p.manager.instance), 11);
    assert Phases(p)(11) == Phase(p, 11);
  }

  /** The manager after `cleanup`, with `wrapper` the VMA wrapper after its
      teardown: the command manager and swapchain manager reset, and the
      device, surface, instance and (with validation on) messenger nulled.
      The pipeline, render pass and sync handles are left dangling, as in
      the code. */
  function Released(m: Manager, enableValidationLayers: bool, wrapper: VmaWrapper.Wrapper): (r: Manager)
    ensures r.device == NULL && r.surface == NULL && r.instance == NULL
    ensures r.commandManager.None? && !r.swapchainManager && r.vmaWrapper == wrapper
    ensures enableValidationLayers ==> r.debugMessenger == NULL
    ensures r.renderPass == m.renderPass && r.graphicsPipeline == m.graphicsPipeline
  {
    m.(commandManager := None, swapchainManager := false, vmaWrapper := wrapper,
       device := NULL, surface := NULL, instance := NULL,
       debugMessenger := if enableValidationLayers then NULL else m.debugMessenger)
  }

  /** `cleanup()` as written: waits on the device unconditionally, indexes
      every sync vector at every slot below `MAX_FRAMES_IN_FLIGHT`
      (undefined behaviour, `None` here, when a vector is shorter), and tears
      the VMA wrapper down through an explicit destructor call guarded by
      the render pass, which leaves the wrapper as it was. */
  function CleanupAsWritten(m: Manager, enableValidationLayers: bool): (r: Option<(Manager, seq<Step>)>)
    ensures r.Some? <==> SyncVectorsSized(m)
    ensures r.Some? ==> |r.value.1| > 0 && r.value.1[0] == DeviceWaitIdle(m.device)
    ensures r.Some? ==> r.value.0.vmaWrapper == m.vmaWrapper
  {
    if !SyncVectorsSized(m) then None
    else
      var vma := if m.renderPass != NULL then VmaWrapper.Destroy(m.vmaWrapper) else (m.vmaWrapper, None);
      Some((Released(m, enableValidationLayers, vma.0),
            TeardownOf(Plan(m, enableValidationLayers, true, vma.1))))
  }

  /** `cleanup()` as evidently intended: the wait and the sync objects only
      for what was created, and the VMA allocator destroyed (and nulled)
      whenever the wrapper is initialized. */
  function Cleanup(m: Manager, enableValidationLayers: bool): (r: (Manager, seq<Step>))
    ensures r.0.device == NULL && r.0.surface == NULL && r.0.instance == NULL
    ensures !VmaWrapper.IsInitialized(r.0.vmaWrapper)
  {
    var vma := VmaWrapper.DestroyAndReset(m.vmaWrapper);
    (Released(m, enableValidationLayers, vma.0),
     TeardownOf(Plan(m, enableValidationLayers, false, vma.1)))
  }

  /** The release a wrapper destructor performs, as steps. */
  function AllocatorRelease(released: Option<Raw>): (r: seq<Step>)
    ensures released.None? <==> r == []
    ensures released.Some? ==> r == [DestroyAllocator(released.value)]
  {
    match released
    case None => []
    case Some(a) => [DestroyAllocator(a)]
  }

  /** `~VulkanManager()` as written: `cleanup`, then the `vmaWrapper`
      member's own destructor. */
  function DestructAsWritten(m: Manager, enableValidationLayers: bool): (r: Option<seq<Step>>)
    ensures r.Some? <==> SyncVectorsSized(m)
  {
    match CleanupAsWritten(m, enableValidationLayers)
    case None => None
    case Some((m', steps)) => Some(steps + AllocatorRelease(VmaWrapper.Destroy(m'.vmaWrapper).1))
  }

  /** The destructor with the corrected cleanup and wrapper destructor. */
  function Destruct(m: Manager, enableValidationLayers: bool): (r: seq<Step>)
    ensures r == Cleanup(m, enableValidationLayers).1
  {
    var (m', steps) := Cleanup(m, enableValidationLayers);
    steps + AllocatorRelease(VmaWrapper.DestroyAndReset(m'.vmaWrapper).1)
  }

  /** Every member set, as after a complete `initVulkan`. */
  predicate FullyInitialized(m: Manager)
  {
    && m.instance != NULL && m.debugMessenger != NULL && m.surface != NULL && m.device != NULL
    && SyncVectorsSized(m)
    && m.commandManager.Some? && m.commandManager.value.commandPool != NULL
    && m.graphicsPipeline != NULL && m.graphicsPipelineLayout != NULL
    && m.swapchainManager && m.renderPass != NULL
    && VmaWrapper.IsInitialized(m.vmaWrapper)
  }

  /** The corrected destructor releases in phase order for every manager
      state, however far initialization got. */
  lemma CleanupIsOrdered(m: Manager, enableValidationLayers: bool)
    ensures Ordered(Destruct(m, enableValidationLayers))
  {
    TeardownIsOrdered(Plan(m, enableValidationLayers, false, VmaWrapper.DestroyAndReset(m.vmaWrapper).1));
  }

  /** Whether the wait is guarded makes no difference once the device exists. */
  lemma WaitGuardIrrelevant(p: Plan)
    requires p.manager.device != NULL
    ensures TeardownOf(p.(waitAlways := true)) == TeardownOf(p.(waitAlways := false))
  {
    assert Phase(p.(waitAlways := true), 1) == Phase(p.(waitAlways := false), 1);
    forall j: nat
      ensures Phases(p.(waitAlways := true))(j) == Phases(p.(waitAlways := false))(j)
    {
      if j != 1 {
        assert Phase(p.(waitAlways := true), j) == Phase(p.(waitAlways := false), j);
      }
    }
    ConcatSame(Phases(p.(waitAlways := true)), Phases(p.(waitAlways := false)), 1);
  }

  /** Unfolding a teardown at a phase that releases exactly one step. */
  lemma ConcatSingle(p: Plan, k: nat, x: Step)
    requires k <= LAST_PHASE && Phase(p, k) == [x]
    ensures Concat(Phases(p), k) == [x] + Concat(Phases(p), k + 1)
  {
  }

  /** Unfolding a teardown at a phase that releases nothing. */
  lemma ConcatEmpty(p: Plan, k: nat)
    requires k <= LAST_PHASE && Phase(p, k) == []
    ensures Concat(Phases(p), k) == Concat(Phases(p), k + 1)
  {
  }

  /** Phases 3 to 11 of a plan for a fully initialized manager, one step
      each (the messenger only with validation on). */
  lemma FullReleases(p: Plan)
    requires FullyInitialized(p.manager) && p.allocator.Some?
    ensures var m := p.manager;
      Concat(Phases(p), 3)
      == [DestroyCommandPool(m.commandManager.value.commandPool)]
         + ([DestroyPipeline(m.graphicsPipeline, m.graphicsPipelineLayout)]
         + ([DestroySwapchainManager]
         + ([DestroyRenderPass(m.renderPass)]
         + ([DestroyAllocator(p.allocator.value)]
         + ([DestroyDevice(m.device)]
         + ([DestroySurface(m.surface)]
         + ((if p.enableValidationLayers then [DestroyDebugMessenger(m.debugMessenger)] else [])
         + [DestroyInstance(m.instance)])))))))
  {
    var m := p.manager;
    ConcatSingle(p, 3, DestroyCommandPool(m.commandManager.value.commandPool));
    ConcatSingle(p, 4, DestroyPipeline(m.graphicsPipeline, m.graphicsPipelineLayout));
    ConcatSingle(p, 5, DestroySwapchainManager);
    ConcatSingle(p, 6, DestroyRenderPass(m.renderPass));
    ConcatSingle(p, 7, DestroyAllocator(p.allocator.value));
    ConcatSingle(p, 8, DestroyDevice(m.device));
    ConcatSingle(p, 9, DestroySurface(m.surface));
    ConcatSingle(p, 11, DestroyInstance(m.instance));
    assert Concat(Phases(p), 12) == [];
    assert Concat(Phases(p), 10) == Phase(p, 10) + [DestroyInstance(m.instance)];
  }

  /** With everything initialized, the teardown is exactly: wait for idle,
      the sync objects slot by slot, the command pool, the pipeline, the
      swapchain manager, the render pass, the VMA allocator, the device,
      the surface, the debug messenger (with validation on) and the
      instance; the code as written releases the same. */
  lemma FullCleanupOrder(m: Manager, enableValidationLayers: bool)
    requires FullyInitialized(m)
    ensures Cleanup(m, enableValidationLayers).1
      == [DeviceWaitIdle(m.device)]
         + (SyncSteps(m, 0)
         + ([DestroyCommandPool(m.commandManager.value.commandPool)]
         + ([DestroyPipeline(m.graphicsPipeline, m.graphicsPipelineLayout)]
         + ([DestroySwapchainManager]
         + ([DestroyRenderPass(m.renderPass)]
         + ([DestroyAllocator(m.vmaWrapper.allocator)]
         + ([DestroyDevice(m.device)]
         + ([DestroySurface(m.surface)]
         + ((if enableValidationLayers then [DestroyDebugMessenger(m.debugMessenger)] else [])
         + [DestroyInstance(m.instance)])))))))))
    ensures |SyncSteps(m, 0)| == 3 * FrameScheduler.MAX_FRAMES_IN_FLIGHT
    ensures CleanupAsWritten(m, enableValidationLayers).Some?
    ensures CleanupAsWritten(m, enableValidationLayers).value.1 == Cleanup(m, enableValidationLayers).1
  {
    SyncStepsFull(m, 0);
    var p := Plan(m, enableValidationLayers, false, Some(m.vmaWrapper.allocator));
    FullReleases(p);
    assert Concat(Phases(p), 2) == SyncSteps(m, 0) + Concat(Phases(p), 3);
    assert Concat(Phases(p), 1) == [DeviceWaitIdle(m.device)] + Concat(Phases(p), 2);
    assert VmaWrapper.DestroyAndReset(m.vmaWrapper).1 == Some(m.vmaWrapper.allocator);
    assert Cleanup(m, enableValidationLayers).1 == TeardownOf(p);
    WaitGuardIrrelevant(p);
  }

  /** As written, the destructor of a fully initialized manager runs the
      unguarded cleanup with the allocator released, then releases the
      allocator again. */
  lemma DestructAsWrittenShape(m: Manager, enableValidationLayers: bool)
    requires FullyInitialized(m)
    ensures DestructAsWritten(m, enableValidationLayers)
      == Some(TeardownOf(Plan(m, enableValidationLayers, true, Some(m.vmaWrapper.allocator)))
              + [DestroyAllocator(m.vmaWrapper.allocator)])
  {
    var vma := VmaWrapper.Destroy(m.vmaWrapper);
    assert vma == (m.vmaWrapper, Some(m.vmaWrapper.allocator));
  }

  /** A step appended after a step of a later phase breaks the order. */
  lemma AppendedAfter(s: seq<Step>, x: Step, y: Step)
    requires Count(s, y) > 0 && Rank(x) < Rank(y)
    ensures (s + [x])[..|s|] == s && (s + [x])[|s|] == x
    ensures !Ordered(s + [x])
  {
    var i := PositionOf(s, y);
    var t := s + [x];
    assert t[i] == y && t[|s|] == x;
  }

  /** The allocator is destroyed twice by the code as written: once by the
      explicit destructor call inside `cleanup`, and again by the member's
      own destructor, last of all, after the instance is gone; so the
      destructor's releases are out of phase order. */
  lemma AllocatorDestroyedTwiceAsWritten(m: Manager, enableValidationLayers: bool)
    requires FullyInitialized(m)
    ensures DestructAsWritten(m, enableValidationLayers).Some?
    ensures var steps := DestructAsWritten(m, enableValidationLayers).value;
      && Count(steps, DestroyAllocator(m.vmaWrapper.allocator)) == 2
      && |steps| > 0 && steps[|steps| - 1] == DestroyAllocator(m.vmaWrapper.allocator)
      && Count(steps[..|steps| - 1], DestroyInstance(m.instance)) == 1
      && !Ordered(steps)
  {
    var p := Plan(m, enableValidationLayers, true, Some(m.vmaWrapper.allocator));
    var cleanup := TeardownOf(p);
    var alloc := DestroyAllocator(m.vmaWrapper.allocator);
    DestructAsWrittenShape(m, enableValidationLayers);
    AllocatorReleasedOnce(p, m.vmaWrapper.allocator);
    InstanceReleasedOnce(p);
    CountAppend(cleanup, [alloc], alloc);
    AppendedAfter(cleanup, alloc, DestroyInstance(m.instance));
  }

  /** With the corrected wrapper destructor the destructor releases the
      wrapper's allocator exactly once when it was initialized and no
      allocator otherwise; by `CleanupIsOrdered` that release comes before
      the device's. */
  lemma AllocatorDestroyedOnce(m: Manager, enableValidationLayers: bool, a: Raw)
    ensures Count(Destruct(m, enableValidationLayers), DestroyAllocator(a))
      == if VmaWrapper.IsInitialized(m.vmaWrapper) && a == m.vmaWrapper.allocator then 1 else 0
  {
    var p := Plan(m, enableValidationLayers, false, VmaWrapper.DestroyAndReset(m.vmaWrapper).1);
    assert Destruct(m, enableValidationLayers) == TeardownOf(p);
    AllocatorReleasedOnce(p, a);
  }

  /** The state left when `initVulkan` throws before the logical device
      exists (no GPU with Vulkan support, or none suitable): an instance,
      perhaps a messenger and a surface, and nothing else. The render pass
      and the pipeline handles are taken to hold their null defaults, which
      the constructor does not set itself. */
  predicate FailedBeforeDevice(m: Manager)
  {
    && m.device == NULL
    && m.imageAvailableSemaphores == [] && m.renderFinishedSemaphores == [] && m.inFlightFences == []
    && m.commandManager.None? && m.graphicsPipeline == NULL && m.graphicsPipelineLayout == NULL
    && !m.swapchainManager && m.renderPass == NULL
    && !VmaWrapper.IsInitialized(m.vmaWrapper)
  }

  /** After such a failure the destructor's `cleanup`, as written, reads
      past the end of the empty sync vectors. */
  lemma CleanupAfterEarlyFailureAsWritten(m: Manager, enableValidationLayers: bool)
    requires FailedBeforeDevice(m)
    ensures CleanupAsWritten(m, enableValidationLayers).None?
    ensures DestructAsWritten(m, enableValidationLayers).None?
  {
  }

  /** After such a failure phases 1 to 8 of the corrected cleanup release
      nothing. */
  lemma NothingBeforeSurface(p: Plan)
    requires FailedBeforeDevice(p.manager) && !p.waitAlways && p.allocator.None?
    ensures TeardownOf(p) == Concat(Phases(p), 9)
  {
    var m := p.manager;
    assert SyncSteps(m, 0) == [] by {
      assert SyncSteps(m, 1) == [] by {
        assert SyncSteps(m, 2) == [];
      }
    }
    ConcatEmpty(p, 1);
    ConcatEmpty(p, 2);
    ConcatEmpty(p, 3);
    ConcatEmpty(p, 4);
    ConcatEmpty(p, 5);
    ConcatEmpty(p, 6);
    ConcatEmpty(p, 7);
    ConcatEmpty(p, 8);
  }

  /** The corrected cleanup after the same failure releases only what was
      created, surface before instance, and never touches the device. */
  lemma CleanupAfterEarlyFailure(m: Manager, enableValidationLayers: bool)
    requires FailedBeforeDevice(m)
    ensures Cleanup(m, enableValidationLayers).1
      == (if m.surface != NULL then [DestroySurface(m.surface)] else [])
         + ((if enableValidationLayers && m.debugMessenger != NULL then [DestroyDebugMessenger(m.debugMessenger)] else [])
         + (if m.instance != NULL then [DestroyInstance(m.instance)] else []))
  {
    var p := Plan(m, enableValidationLayers, false, None);
    NothingBeforeSurface(p);
    assert Concat(Phases(p), 11) == Phase(p, 11) by {
      assert Concat(Phases(p), 12) == [];
    }
    assert Concat(Phases(p), 9) == Phase(p, 9) + (Phase(p, 10) + Phase(p, 11));
  }
}
