/** `HandleAllocator<T>`: a 32-bit counter that hands out buffer handles in
    increasing order and never takes one back. */
module Handles {
  import opened Vk

  type BufferHandle = u32

  /** `std::numeric_limits<uint32_t>::max()`: the handle that denotes no
      resource. */
  const INVALID_HANDLE: BufferHandle := 0xFFFF_FFFF

  datatype HandleAllocator = HandleAllocator(next: u32)

  /** A default-constructed allocator. */
  function NewAllocator(): (a: HandleAllocator)
    ensures a.next == 0
  {
    HandleAllocator(0)
  }

  /** `allocate()`: returns the counter and post-increments it. The increment
      is on a `uint32_t`, so it wraps to 0 after `INVALID_HANDLE`. */
  function Allocate(a: HandleAllocator): (r: (BufferHandle, HandleAllocator))
    ensures r.0 == a.next
    ensures r.1.next as int == (a.next as int + 1) % WORD
    ensures a.next < INVALID_HANDLE ==> r.1.next == a.next + 1
    ensures a.next == INVALID_HANDLE ==> r.1.next == 0
  {
    (a.next, HandleAllocator(((a.next as int + 1) % WORD) as u32))
  }

  /** `free(handle)`: an empty body, so the allocator never recycles. */
  function Free(a: HandleAllocator, h: BufferHandle): (r: HandleAllocator)
    ensures r.next == a.next
  {
    a
  }

  /** The handles issued by `n` successive `allocate()` calls, and the
      allocator they leave behind. */
  function AllocateMany(a: HandleAllocator, n: nat): (HandleAllocator, seq<BufferHandle>)
    decreases n
  {
    if n == 0 then (a, [])
    else
      var (h, a') := Allocate(a);
      var (last, rest) := AllocateMany(a', n - 1);
      (last, [h] + rest)
  }

  /** The i-th issued handle is the start value plus i, modulo 2^32. */
  lemma {:induction false} AllocateManyValues(a: HandleAllocator, n: nat)
    ensures |AllocateMany(a, n).1| == n
    ensures AllocateMany(a, n).0.next as int == (a.next as int + n) % WORD
    ensures forall i :: 0 <= i < n ==> AllocateMany(a, n).1[i] as int == (a.next as int + i) % WORD
    decreases n
  {
    if n > 0 {
      var (h, a') := Allocate(a);
      AllocateManyValues(a', n - 1);
      var rest := AllocateMany(a', n - 1).1;
      assert AllocateMany(a, n).1 == [h] + rest;
      forall i | 0 <= i < n
        ensures AllocateMany(a, n).1[i] as int == (a.next as int + i) % WORD
      {
        if i > 0 {
          assert AllocateMany(a, n).1[i] == rest[i - 1];
          ModAddOne(a.next as int, i - 1);
        }
      }
      ModAddOne(a.next as int, n - 1);
    }
  }

  lemma ModAddOne(x: int, k: nat)
    ensures ((x + 1) % WORD + k) % WORD == (x + k + 1) % WORD
  {
  }

  /** A fresh allocator's first handle is 0. */
  lemma FirstHandleIsZero()
    ensures Allocate(NewAllocator()).0 == 0
    ensures Allocate(NewAllocator()).1.next == 1
  {
  }

  /** From a fresh allocator, the first 2^32 - 1 handles are 0, 1, 2, ...:
      pairwise distinct and never `INVALID_HANDLE`. Only the 2^32-th call
      returns `INVALID_HANDLE`, and the call after it wraps back to 0. */
  lemma FreshHandlesDistinct(n: nat)
    requires n < WORD
    ensures var hs := AllocateMany(NewAllocator(), n).1;
      && |hs| == n
      && (forall i :: 0 <= i < n ==> hs[i] as int == i)
      && (forall i, j :: 0 <= i < j < n ==> hs[i] != hs[j])
      && (forall i :: 0 <= i < n ==> hs[i] != INVALID_HANDLE)
  {
    AllocateManyValues(NewAllocator(), n);
  }

  /** After exactly 2^32 allocations the counter has wrapped to its start,
      so the next handle repeats the first one. */
  lemma CounterWrapsAfterWord(a: HandleAllocator)
    ensures AllocateMany(a, WORD).0 == a
  {
    AllocateManyValues(a, WORD);
  }

  /** Freeing between allocations does not change what is issued next. */
  lemma FreeDoesNotRecycle(a: HandleAllocator, h: BufferHandle)
    ensures Allocate(Free(a, h)) == Allocate(a)
    ensures Allocate(Free(Allocate(a).1, Allocate(a).0)).0 != Allocate(a).0
  {
  }
}
