/** `ResourceManager`: a table from buffer handles to the (buffer, allocation)
    pairs VMA created, plus `BufferManager::createStagingBuffer`, the one
    `BufferManager` operation with a body. */
module ResourceTable {
  import opened Vk
  import opened Handles

  /** `VmaBuffer`: a raw buffer and the VMA allocation backing it. */
  datatype VmaBuffer = VmaBuffer(buffer: Raw, allocation: Raw)

  /** What `getBuffer` answers for an unknown handle. */
  const EMPTY_BUFFER: VmaBuffer := VmaBuffer(NULL, NULL)

  /** `VkBufferUsageFlagBits` used by the core. */
  const VK_BUFFER_USAGE_TRANSFER_SRC_BIT: bv32 := 0x0000_0001

  /** The first five enumerators of `VmaMemoryUsage`, in order. */
  datatype MemoryUsage = Unknown | GpuOnly | CpuOnly | CpuToGpu | GpuToCpu

  /** `BufferCreateInfo`: what a caller asks of `createBuffer`. */
  datatype BufferCreateInfo = BufferCreateInfo(size: nat, usage: bv32, memoryUsage: MemoryUsage)

  /** The answer of `vmaCreateBuffer` for a request. */
  datatype VmaOutcome = VmaOutcome(result: VkResult, created: VmaBuffer)

  /** The state of a `ResourceManager`: its handle allocator and its map. */
  datatype Table = Table(allocator: HandleAllocator, buffers: map<BufferHandle, VmaBuffer>)

  /** A freshly constructed manager. */
  function NewTable(): (t: Table)
    ensures t.buffers == map[]
    ensures t.allocator == NewAllocator()
  {
    Table(NewAllocator(), map[])
  }

  /** Every live handle was issued before the counter's current value. This
      holds as long as the 32-bit counter has not wrapped. */
  predicate Valid(t: Table)
  {
    forall h :: h in t.buffers ==> h < t.allocator.next
  }

  /** `createBuffer(info)`: asks VMA for a buffer, throws if VMA refuses, and
      only then takes a handle and records the pair under it. The result
      pairs the manager's state after the call (also after a throw) with the
      handle or the exception. */
  function CreateBuffer(t: Table, info: BufferCreateInfo, vma: BufferCreateInfo -> VmaOutcome)
    : (r: (Table, Result<BufferHandle>))
    ensures vma(info).result != VK_SUCCESS <==> r.1.Err?
    ensures r.1.Err? ==> r.1.error == BufferCreationFailed && r.0 == t
    ensures r.1.Ok? ==>
      && r.1.value == t.allocator.next
      && r.0.allocator == Allocate(t.allocator).1
      && r.0.buffers == t.buffers[r.1.value := vma(info).created]
  {
    var outcome := vma(info);
    if outcome.result != VK_SUCCESS then
      (t, Err(BufferCreationFailed))
    else
      var (handle, allocator') := Allocate(t.allocator);
      (Table(allocator', t.buffers[handle := outcome.created]), Ok(handle))
  }

  /** On a valid table whose counter has not reached `INVALID_HANDLE`,
      a successful `createBuffer` returns a handle that was not a key, adds
      exactly that one entry, and keeps the table valid. */
  lemma CreateBufferFresh(t: Table, info: BufferCreateInfo, vma: BufferCreateInfo -> VmaOutcome)
    requires Valid(t)
    requires t.allocator.next < INVALID_HANDLE
    ensures var (t', r) := CreateBuffer(t, info, vma);
      r.Ok? ==>
        && r.value !in t.buffers
        && r.value != INVALID_HANDLE
        && t'.buffers.Keys == t.buffers.Keys + {r.value}
        && |t'.buffers| == |t.buffers| + 1
        && (forall h :: h in t.buffers ==> t'.buffers[h] == t.buffers[h])
        && Valid(t')
  {
    var (t', r) := CreateBuffer(t, info, vma);
    if r.Ok? {
      assert r.value !in t.buffers;
      assert t'.buffers.Keys == t.buffers.Keys + {r.value};
    }
  }

  /** `destroyBuffer(handle)`: a live handle has its pair released (the
      second component) and its entry erased; any other handle is ignored. */
  function DestroyBuffer(t: Table, h: BufferHandle): (r: (Table, Option<VmaBuffer>))
    ensures r.0.allocator == t.allocator
    ensures h in t.buffers ==>
      && r.1 == Some(t.buffers[h])
      && r.0.buffers.Keys == t.buffers.Keys - {h}
      && (forall k :: k in r.0.buffers ==> r.0.buffers[k] == t.buffers[k])
    ensures h !in t.buffers ==> r == (t, None)
    ensures Valid(t) ==> Valid(r.0)
  {
    if h in t.buffers then
      (Table(t.allocator, t.buffers - {h}), Some(t.buffers[h]))
    else
      (t, None)
  }

  /** `getBuffer(handle)`: the stored pair, or the empty pair. Never fails. */
  function GetBuffer(t: Table, h: BufferHandle): (r: VmaBuffer)
    ensures h in t.buffers ==> r == t.buffers[h]
    ensures h !in t.buffers ==> r == EMPTY_BUFFER
  {
    if h in t.buffers then t.buffers[h] else EMPTY_BUFFER
  }

  /** `getVkBuffer(handle)`: the buffer half of `getBuffer`, so null for
      an unknown handle. */
  function GetVkBuffer(t: Table, h: BufferHandle): (r: Raw)
    ensures h in t.buffers ==> r == t.buffers[h].buffer
    ensures h !in t.buffers ==> r == NULL
  {
    GetBuffer(t, h).buffer
  }

  /** Lookups after a successful create: the new handle resolves to the pair
      VMA returned, every other handle resolves as before. */
  lemma GetAfterCreate(t: Table, info: BufferCreateInfo, vma: BufferCreateInfo -> VmaOutcome, k: BufferHandle)
    requires CreateBuffer(t, info, vma).1.Ok?
    ensures var (t', r) := CreateBuffer(t, info, vma);
      && GetBuffer(t', r.value) == vma(info).created
      && GetVkBuffer(t', r.value) == vma(info).created.buffer
      && (k != r.value ==> GetBuffer(t', k) == GetBuffer(t, k))
  {
  }

  /** Lookups after a destroy: the destroyed handle resolves to the empty
      pair, so does a second destroy of it, and every other handle resolves
      as before. */
  lemma GetAfterDestroy(t: Table, h: BufferHandle, k: BufferHandle)
    ensures var t' := DestroyBuffer(t, h).0;
      && GetBuffer(t', h) == EMPTY_BUFFER
      && GetVkBuffer(t', h) == NULL
      && DestroyBuffer(t', h) == (t', None)
      && (k != h ==> GetBuffer(t', k) == GetBuffer(t, k))
  {
  }

  /** A handle never issued (at or beyond the counter of a valid table)
      resolves to the empty pair. */
  lemma NeverIssuedIsEmpty(t: Table, h: BufferHandle)
    requires Valid(t)
    requires h >= t.allocator.next
    ensures GetBuffer(t, h) == EMPTY_BUFFER
  {
  }

  /** One call on the table, with VMA's answer for a create. */
  datatype TableOp = CreateOp(info: BufferCreateInfo, answer: VmaOutcome) | DestroyOp(handle: BufferHandle)

  /** One call on the table: the state after it and the handle a
      successful create returned. */
  function Apply(t: Table, op: TableOp): (Table, seq<BufferHandle>)
  {
    match op
    case CreateOp(info, answer) =>
      var (t', r) := CreateBuffer(t, info, _ => answer);
      (t', if r.Ok? then [r.value] else [])
    case DestroyOp(h) => (DestroyBuffer(t, h).0, [])
  }

  /** One call keeps the table valid, advances the counter by one exactly
      when it returns a handle, and that handle is the old counter. */
  lemma ApplyAdvances(t: Table, op: TableOp)
    requires Valid(t)
    requires t.allocator.next < INVALID_HANDLE
    ensures var (t1, issued) := Apply(t, op);
      && Valid(t1)
      && |issued| <= 1
      && (issued == [] ==> t1.allocator.next == t.allocator.next)
      && (issued != [] ==> issued[0] == t.allocator.next && t1.allocator.next == t.allocator.next + 1)
  {
    match op {
      case CreateOp(info, answer) =>
        CreateBufferFresh(t, info, _ => answer);
      case DestroyOp(h) =>
    }
  }

  /** Runs a sequence of `createBuffer`/`destroyBuffer` calls (a failed
      create is caught and the run goes on) and collects the handles the
      successful creates returned. */
  function Run(t: Table, ops: seq<TableOp>): (Table, seq<BufferHandle>)
    decreases |ops|
  {
    if ops == [] then (t, [])
    else
      var (t1, issued) := Apply(t, ops[0]);
      var (t2, rest) := Run(t1, ops[1..]);
      (t2, issued + rest)
  }

  /** Handles issued in a window of the counter that are strictly
      increasing. */
  predicate IssuedBetween(hs: seq<BufferHandle>, lo: BufferHandle, hi: BufferHandle)
  {
    && (forall i :: 0 <= i < |hs| ==> lo <= hs[i] < hi)
    && (forall i, j :: 0 <= i < j < |hs| ==> hs[i] < hs[j])
  }

  /** A handle issued at the counter's value before the rest of a run. */
  lemma IssuedPrepend(issued: seq<BufferHandle>, rest: seq<BufferHandle>, lo: BufferHandle, mid: BufferHandle, hi: BufferHandle)
    requires |issued| <= 1
    requires issued == [] ==> mid == lo
    requires issued != [] ==> issued[0] == lo && mid as int == lo as int + 1
    requires mid <= hi && IssuedBetween(rest, mid, hi)
    ensures IssuedBetween(issued + rest, lo, hi)
  {
    if issued != [] {
      assert issued + rest == [lo] + rest;
    } else {
      assert issued + rest == rest;
    }
  }

  /** Over any sequence of creates and destroys that does not wrap the
      counter, the handles returned are strictly increasing (so no handle is
      ever returned twice, even after it was destroyed), none was a key
      before the run, and the table stays valid. */
  lemma {:induction false} RunIssuesUniqueHandles(t: Table, ops: seq<TableOp>)
    requires Valid(t)
    requires t.allocator.next as int + |ops| < INVALID_HANDLE as int
    ensures var (t', hs) := Run(t, ops);
      && Valid(t')
      && t.allocator.next <= t'.allocator.next
      && (forall i :: 0 <= i < |hs| ==> t.allocator.next <= hs[i] < t'.allocator.next)
      && (forall i, j :: 0 <= i < j < |hs| ==> hs[i] < hs[j])
      && (forall i :: 0 <= i < |hs| ==> hs[i] !in t.buffers)
    decreases |ops|
  {
    if ops != [] {
      var (t1, issued) := Apply(t, ops[0]);
      ApplyAdvances(t, ops[0]);
      RunIssuesUniqueHandles(t1, ops[1..]);
      var (t2, rest) := Run(t1, ops[1..]);
      IssuedPrepend(issued, rest, t.allocator.next, t1.allocator.next, t2.allocator.next);
    }
  }

  /** The destructor: releases every remaining pair once, in the map's
      (unspecified) iteration order, then clears the map. `order` is the
      sequence of handles visited, `released` the pairs handed to
      `vmaDestroyBuffer`, position by position. */
  method Teardown(t: Table) returns (t': Table, order: seq<BufferHandle>, released: seq<VmaBuffer>)
    ensures t'.buffers == map[]
    ensures |order| == |released| == |t.buffers|
    ensures forall h :: h in order <==> h in t.buffers
    ensures forall i, j :: 0 <= i < j < |order| ==> order[i] != order[j]
    ensures forall i :: 0 <= i < |order| ==> order[i] in t.buffers && released[i] == t.buffers[order[i]]
  {
    var remaining := t.buffers.Keys;
    order := [];
    released := [];
    while remaining != {}
      invariant remaining <= t.buffers.Keys
      invariant |order| == |released|
      invariant |order| + |remaining| == |t.buffers.Keys|
      invariant forall h :: h in order <==> h in t.buffers && h !in remaining
      invariant forall i, j :: 0 <= i < j < |order| ==> order[i] != order[j]
      invariant forall i :: 0 <= i < |order| ==> order[i] in t.buffers && released[i] == t.buffers[order[i]]
      decreases |remaining|
    {
      var h :| h in remaining;
      order := order + [h];
      released := released + [t.buffers[h]];
      remaining := remaining - {h};
    }
    t' := Table(t.allocator, map[]);
  }

  /** `BufferManager::createStagingBuffer(size)`: asks the table for a buffer
      of exactly `size` bytes, usable only as a transfer source, in
      CPU-to-GPU memory, and returns whatever the table answers. */
  function CreateStagingBuffer(t: Table, size: nat, vma: BufferCreateInfo -> VmaOutcome)
    : (r: (Table, Result<BufferHandle>))
    ensures var answer := vma(BufferCreateInfo(size, VK_BUFFER_USAGE_TRANSFER_SRC_BIT, CpuToGpu));
      && (r.1.Err? <==> answer.result != VK_SUCCESS)
      && (r.1.Ok? ==> r.1.value == t.allocator.next && GetBuffer(r.0, r.1.value) == answer.created)
  {
    CreateBuffer(t, BufferCreateInfo(size, VK_BUFFER_USAGE_TRANSFER_SRC_BIT, CpuToGpu), vma)
  }

  /** The staging request depends on nothing but the size: two VMA oracles
      that agree on the staging request give the same outcome, and a VMA
      refusal surfaces unchanged as the table's exception. */
  lemma StagingBufferOutcome(t: Table, size: nat, vma1: BufferCreateInfo -> VmaOutcome, vma2: BufferCreateInfo -> VmaOutcome)
    requires vma1(BufferCreateInfo(size, VK_BUFFER_USAGE_TRANSFER_SRC_BIT, CpuToGpu))
          == vma2(BufferCreateInfo(size, VK_BUFFER_USAGE_TRANSFER_SRC_BIT, CpuToGpu))
    ensures CreateStagingBuffer(t, size, vma1) == CreateStagingBuffer(t, size, vma2)
    ensures var (t', r) := CreateStagingBuffer(t, size, vma1);
      r.Ok? ==> r.value == t.allocator.next && t' == CreateBuffer(t, BufferCreateInfo(size, VK_BUFFER_USAGE_TRANSFER_SRC_BIT, CpuToGpu), vma1).0
  {
  }
}
