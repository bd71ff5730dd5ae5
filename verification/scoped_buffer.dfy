/** `ScopedBuffer`: a move-only owner of one VMA (buffer, allocation) pair
    that releases the pair when it goes out of scope.

    A single object is a `Scoped` value. To speak about "released at most
    once", objects live in a `World` that also logs every `vmaDestroyBuffer`
    call the objects make; C++ object lifetime (construction, moves,
    destruction) becomes a sequence of `Action`s on the world. There is no
    copy action: the copy constructor and copy assignment are deleted. */
module ScopedBuffer {
  import opened Vk
  import opened ResourceTable

  datatype Scoped = Scoped(allocator: Raw, buffer: Raw, allocation: Raw)

  /** One `vmaDestroyBuffer(allocator, buffer, allocation)` call. */
  datatype Release = Release(allocator: Raw, buffer: Raw, allocation: Raw)

  function ReleaseOf(s: Scoped): Release
  {
    Release(s.allocator, s.buffer, s.allocation)
  }

  /** `ScopedBuffer(allocator, bufferData)`: stores the three handles as
      given and releases nothing. */
  function Construct(allocator: Raw, data: VmaBuffer): (s: Scoped)
    ensures s.allocator == allocator && s.buffer == data.buffer && s.allocation == data.allocation
  {
    Scoped(allocator, data.buffer, data.allocation)
  }

  /** `isValid()`: the buffer is non-null. An invalid buffer's destructor
      releases nothing. */
  predicate IsValid(s: Scoped)
    ensures IsValid(s) <==> Get(s) != NULL
    ensures !IsValid(s) ==> Destroy(s).1.None?
  {
    s.buffer != NULL
  }

  /** `get()`: the buffer handle held. */
  function Get(s: Scoped): (r: Raw)
    ensures r == s.buffer
  {
    s.buffer
  }

  /** `getAllocation()`: the allocation handle held. */
  function GetAllocation(s: Scoped): (r: Raw)
    ensures r == s.allocation
  {
    s.allocation
  }

  /** `~ScopedBuffer()`: releases only when allocator, buffer and allocation
      are all non-null, and then nulls buffer and allocation. */
  function Destroy(s: Scoped): (r: (Scoped, Option<Release>))
    ensures r.1.Some? <==> s.allocator != NULL && s.buffer != NULL && s.allocation != NULL
    ensures r.1.Some? ==> r.1.value == ReleaseOf(s) && r.0 == Scoped(s.allocator, NULL, NULL)
    ensures r.1.None? ==> r.0 == s
  {
    if s.allocator != NULL && s.buffer != NULL && s.allocation != NULL then
      (Scoped(s.allocator, NULL, NULL), Some(ReleaseOf(s)))
    else
      (s, None)
  }

  /** The move constructor: the new object (first) takes the source's three
      handles; the source (second) keeps its allocator and loses its buffer
      and allocation. */
  function MoveConstruct(other: Scoped): (r: (Scoped, Scoped))
    ensures r.0 == other
    ensures r.1.allocator == other.allocator && r.1.buffer == NULL && r.1.allocation == NULL
  {
    (other, Scoped(other.allocator, NULL, NULL))
  }

  /** Move assignment between two distinct objects: the target first
      releases its pair if its buffer is non-null (whatever its allocator and
      allocation are), then takes the source's triple; the source loses its
      buffer and allocation. Results: target, source, release. */
  function MoveAssign(target: Scoped, other: Scoped): (r: (Scoped, Scoped, Option<Release>))
    ensures r.2.Some? <==> target.buffer != NULL
    ensures r.2.Some? ==> r.2.value == ReleaseOf(target)
    ensures r.0 == other
    ensures r.1 == Scoped(other.allocator, NULL, NULL)
  {
    var released := if target.buffer != NULL then Some(ReleaseOf(target)) else None;
    (other, Scoped(other.allocator, NULL, NULL), released)
  }

  /** Move assignment of an object to itself: guarded by `this != &other`,
      it changes nothing and releases nothing. */
  function MoveAssignSelf(s: Scoped): (r: (Scoped, Option<Release>))
    ensures r.0 == s && r.1 == None
  {
    (s, None)
  }

  /** Moving out transfers what the getters see and validity; the source is
      left invalid, and its destructor is then a no-op. */
  lemma MovedFromIsInert(s: Scoped, target: Scoped)
    ensures var (n, o) := MoveConstruct(s);
      && Get(n) == Get(s) && GetAllocation(n) == GetAllocation(s)
      && (IsValid(n) <==> IsValid(s))
      && !IsValid(o)
      && Destroy(o) == (o, None)
    ensures var (t', o, _) := MoveAssign(target, s);
      && Get(t') == Get(s) && GetAllocation(t') == GetAllocation(s)
      && !IsValid(o)
      && Destroy(o) == (o, None)
  {
  }

  /** A destroyed object is inert: destroying it again releases nothing. */
  lemma DestroyIdempotent(s: Scoped)
    ensures Destroy(Destroy(s).0).1 == None
    ensures Destroy(Destroy(s).0).0 == Destroy(s).0
  {
  }

  // ---------------------------------------------------------------------
  // Objects in a world, and the release log

  type ObjectId = nat

  datatype World = World(objects: map<ObjectId, Scoped>, released: seq<Release>)

  /** The C++ events in the life of `ScopedBuffer` objects. `MoveInto(to,
      from)` with `to == from` is self-assignment. */
  datatype Action =
    | Make(id: ObjectId, allocator: Raw, data: VmaBuffer)
    | MoveNew(id: ObjectId, from: ObjectId)
    | MoveInto(to: ObjectId, from: ObjectId)
    | Drop(id: ObjectId)

  /** The objects an action touches exist, and a new object's id is unused. */
  predicate Enabled(w: World, a: Action)
  {
    match a
    case Make(id, _, _) => id !in w.objects
    case MoveNew(id, from) => id !in w.objects && from in w.objects
    case MoveInto(to, from) => to in w.objects && from in w.objects
    case Drop(id) => id in w.objects
  }

  function LogOf(r: Option<Release>): seq<Release>
  {
    if r.Some? then [r.value] else []
  }

  function Step(w: World, a: Action): (w': World)
    requires Enabled(w, a)
    ensures w.released <= w'.released
    ensures |w'.released| <= |w.released| + 1
  {
    match a
    case Make(id, allocator, data) =>
      World(w.objects[id := Construct(allocator, data)], w.released)
    case MoveNew(id, from) =>
      var (n, o) := MoveConstruct(w.objects[from]);
      World(w.objects[from := o][id := n], w.released)
    case MoveInto(to, from) =>
      if to == from then
        var (s, rel) := MoveAssignSelf(w.objects[to]);
        World(w.objects[to := s], w.released + LogOf(rel))
      else
        var (t, o, rel) := MoveAssign(w.objects[to], w.objects[from]);
        World(w.objects[to := t][from := o], w.released + LogOf(rel))
    case Drop(id) =>
      var (_, rel) := Destroy(w.objects[id]);
      World(w.objects - {id}, w.released + LogOf(rel))
  }

  /** The ownership discipline: no two live objects hold the same non-null
      buffer, no live object holds a buffer already released, and the log
      names each buffer at most once. */
  predicate Exclusive(w: World)
  {
    && (forall i, j :: i in w.objects && j in w.objects && i != j && w.objects[i].buffer != NULL
          ==> w.objects[i].buffer != w.objects[j].buffer)
    && (forall i, k :: i in w.objects && 0 <= k < |w.released| ==> w.objects[i].buffer != w.released[k].buffer)
    && (forall k :: 0 <= k < |w.released| ==> w.released[k].buffer != NULL)
    && (forall k, l :: 0 <= k < l < |w.released| ==> w.released[k].buffer != w.released[l].buffer)
  }

  /** A buffer handed to a new owner is null or owned by nobody and not yet
      released: the constructor's "takes ownership of an existing buffer". */
  predicate FreshFor(w: World, a: Action)
  {
    a.Make? ==>
      a.data.buffer == NULL ||
      ((forall i :: i in w.objects ==> w.objects[i].buffer != a.data.buffer)
       && (forall k :: 0 <= k < |w.released| ==> w.released[k].buffer != a.data.buffer))
  }

  lemma StepKeepsExclusive(w: World, a: Action)
    requires Exclusive(w) && Enabled(w, a) && FreshFor(w, a)
    ensures Exclusive(Step(w, a))
  {
    var w' := Step(w, a);
    match a {
      case Make(id, allocator, data) =>
      case MoveNew(id, from) =>
      case MoveInto(to, from) =>
        if to != from {
          var (t, o, rel) := MoveAssign(w.objects[to], w.objects[from]);
          assert w'.released == w.released + LogOf(rel);
          if rel.Some? {
            var n := |w.released|;
            assert w'.released[n] == ReleaseOf(w.objects[to]);
            forall k | 0 <= k < n
              ensures w'.released[k].buffer != w'.released[n].buffer
            {
              assert w'.released[k] == w.released[k];
            }
          }
        }
      case Drop(id) =>
        var (_, rel) := Destroy(w.objects[id]);
        assert w'.released == w.released + LogOf(rel);
        if rel.Some? {
          var n := |w.released|;
          assert w'.released[n] == ReleaseOf(w.objects[id]);
          forall k | 0 <= k < n
            ensures w'.released[k].buffer != w'.released[n].buffer
          {
            assert w'.released[k] == w.released[k];
          }
        }
    }
  }

  predicate AllEnabledAndFresh(w: World, actions: seq<Action>)
    decreases |actions|
  {
    actions == [] ||
    (Enabled(w, actions[0]) && FreshFor(w, actions[0]) && AllEnabledAndFresh(Step(w, actions[0]), actions[1..]))
  }

  function RunActions(w: World, actions: seq<Action>): World
    requires AllEnabledAndFresh(w, actions)
    decreases |actions|
  {
    if actions == [] then w else RunActions(Step(w, actions[0]), actions[1..])
  }

  /** Whatever the program does with its `ScopedBuffer`s (construct from
      fresh pairs, move, move-assign, self-assign, let them go out of scope),
      no buffer is ever released twice. */
  lemma {:induction false} EachBufferReleasedAtMostOnce(w: World, actions: seq<Action>)
    requires Exclusive(w)
    requires AllEnabledAndFresh(w, actions)
    ensures Exclusive(RunActions(w, actions))
    ensures var w' := RunActions(w, actions);
      forall k, l :: 0 <= k < l < |w'.released| ==> w'.released[k].buffer != w'.released[l].buffer
    decreases |actions|
  {
    if actions != [] {
      StepKeepsExclusive(w, actions[0]);
      EachBufferReleasedAtMostOnce(Step(w, actions[0]), actions[1..]);
    }
  }
}
