/** `QueueManager`: discovery of queue families, the sufficiency check, and
    queue lookup. */
module Queues {
  import opened Vk

  datatype QueueType = Graphics | Present | Compute | Transfer

  /** `VkQueueFlagBits` the discovery looks at. */
  const VK_QUEUE_GRAPHICS_BIT: bv32 := 0x0000_0001
  const VK_QUEUE_COMPUTE_BIT: bv32 := 0x0000_0002
  const VK_QUEUE_TRANSFER_BIT: bv32 := 0x0000_0004

  /** `VkQueueFamilyProperties`, the part the core reads. */
  datatype FamilyProperties = FamilyProperties(queueFlags: bv32, queueCount: nat)

  /** `QueueFamilyInfo` as the .cpp builds it. */
  datatype QueueFamilyInfo = QueueFamilyInfo(index: nat, queueCount: nat, flags: bv32, supportsPresent: bool)

  type Families = map<QueueType, QueueFamilyInfo>

  /** `QueueRequirements`. */
  datatype QueueRequirements = QueueRequirements(queueType: QueueType, minQueueCount: nat, requiredFlags: bv32, requiresPresent: bool)

  /** What the device reports: the properties of each family, in index
      order, and `vkGetPhysicalDeviceSurfaceSupportKHR`'s answer per family
      index. */
  datatype DeviceQueues = DeviceQueues(properties: seq<FamilyProperties>, presentSupport: nat -> bool)

  /** Whether family `i` qualifies for queue type `t`: the matching flag bit
      for GRAPHICS, COMPUTE and TRANSFER; a non-null surface and reported
      support for PRESENT. */
  predicate Qualifies(dq: DeviceQueues, surface: Raw, t: QueueType, i: nat)
    requires i < |dq.properties|
  {
    match t
    case Graphics => dq.properties[i].queueFlags & VK_QUEUE_GRAPHICS_BIT != 0
    case Compute => dq.properties[i].queueFlags & VK_QUEUE_COMPUTE_BIT != 0
    case Transfer => dq.properties[i].queueFlags & VK_QUEUE_TRANSFER_BIT != 0
    case Present => surface != NULL && dq.presentSupport(i)
  }

  /** The entry recorded for family `i` under type `t`. */
  function EntryFor(dq: DeviceQueues, t: QueueType, i: nat): QueueFamilyInfo
    requires i < |dq.properties|
  {
    QueueFamilyInfo(i, dq.properties[i].queueCount, dq.properties[i].queueFlags, t == Present)
  }

  /** One iteration of the loop of `findQueueFamilies`: family `i` overwrites
      the entry of every type it qualifies for. */
  function Visit(dq: DeviceQueues, surface: Raw, families: Families, i: nat): Families
    requires i < |dq.properties|
  {
    var f1 := if Qualifies(dq, surface, Graphics, i) then families[Graphics := EntryFor(dq, Graphics, i)] else families;
    var f2 := if Qualifies(dq, surface, Compute, i) then f1[Compute := EntryFor(dq, Compute, i)] else f1;
    var f3 := if Qualifies(dq, surface, Transfer, i) then f2[Transfer := EntryFor(dq, Transfer, i)] else f2;
    if Qualifies(dq, surface, Present, i) then f3[Present := EntryFor(dq, Present, i)] else f3
  }

  /** The map after the loop has visited families `0 .. n-1`. */
  function Scan(dq: DeviceQueues, surface: Raw, n: nat): Families
    requires n <= |dq.properties|
    decreases n
  {
    if n == 0 then map[] else Visit(dq, surface, Scan(dq, surface, n - 1), n - 1)
  }

  /** `findQueueFamilies(device, surface)`: a type is recorded exactly
      when some family qualifies for it, and then from the last such
      family. */
  function FindQueueFamilies(dq: DeviceQueues, surface: Raw): (r: Families)
    ensures forall t :: t in r <==> LastQualifying(dq, surface, t, |dq.properties|).Some?
    ensures forall t :: t in r ==> r[t] == EntryFor(dq, t, LastQualifying(dq, surface, t, |dq.properties|).value)
  {
    FullScanIsLastMatch(dq, surface);
    Scan(dq, surface, |dq.properties|)
  }

  /** `ScanIsLastMatch` over all families, for every queue type at once. */
  lemma FullScanIsLastMatch(dq: DeviceQueues, surface: Raw)
    ensures forall t :: t in Scan(dq, surface, |dq.properties|) <==> LastQualifying(dq, surface, t, |dq.properties|).Some?
    ensures forall t :: t in Scan(dq, surface, |dq.properties|) ==>
      Scan(dq, surface, |dq.properties|)[t] == EntryFor(dq, t, LastQualifying(dq, surface, t, |dq.properties|).value)
  {
    forall t {
      ScanIsLastMatch(dq, surface, |dq.properties|, t);
    }
  }

  /** Reference definition: the highest index below `n` that qualifies for
      `t`, if any. */
  function LastQualifying(dq: DeviceQueues, surface: Raw, t: QueueType, n: nat): (r: Option<nat>)
    requires n <= |dq.properties|
    ensures r.Some? ==> r.value < n && Qualifies(dq, surface, t, r.value)
    ensures r.Some? ==> forall j :: r.value < j < n ==> !Qualifies(dq, surface, t, j)
    ensures r.None? ==> forall j :: 0 <= j < n ==> !Qualifies(dq, surface, t, j)
    decreases n
  {
    if n == 0 then None
    else if Qualifies(dq, surface, t, n - 1) then Some(n - 1)
    else LastQualifying(dq, surface, t, n - 1)
  }

  lemma {:induction false} ScanIsLastMatch(dq: DeviceQueues, surface: Raw, n: nat, t: QueueType)
    requires n <= |dq.properties|
    ensures var found := LastQualifying(dq, surface, t, n);
      && (t in Scan(dq, surface, n) <==> found.Some?)
      && (found.Some? ==> Scan(dq, surface, n)[t] == EntryFor(dq, t, found.value))
    decreases n
  {
    if n > 0 {
      ScanIsLastMatch(dq, surface, n - 1, t);
    }
  }

  /** For every queue type, `findQueueFamilies` records a family exactly when
      some family qualifies, and then it records the highest-index one (a
      later match overwrites an earlier one), with that family's count and
      flags; `supportsPresent` is true only in the PRESENT entry. */
  lemma FindQueueFamiliesIsLastMatch(dq: DeviceQueues, surface: Raw, t: QueueType)
    ensures var fams := FindQueueFamilies(dq, surface);
      && (t in fams <==> exists i :: 0 <= i < |dq.properties| && Qualifies(dq, surface, t, i))
      && (t in fams ==>
            && fams[t].index < |dq.properties|
            && Qualifies(dq, surface, t, fams[t].index)
            && (forall j :: fams[t].index < j < |dq.properties| ==> !Qualifies(dq, surface, t, j))
            && fams[t].queueCount == dq.properties[fams[t].index].queueCount
            && fams[t].flags == dq.properties[fams[t].index].queueFlags
            && (fams[t].supportsPresent <==> t == Present))
  {
    ScanIsLastMatch(dq, surface, |dq.properties|, t);
  }

  /** Without a surface, PRESENT is never recorded. */
  lemma NoSurfaceNoPresent(dq: DeviceQueues)
    ensures Present !in FindQueueFamilies(dq, NULL)
  {
    FindQueueFamiliesIsLastMatch(dq, NULL, Present);
  }

  /** `(required & flags) == required`: every required bit is set. */
  predicate HasFlags(flags: bv32, required: bv32)
  {
    required & flags == required
  }

  /** One requirement is met by the family recorded for its type. */
  predicate Meets(families: Families, req: QueueRequirements)
  {
    && req.queueType in families
    && families[req.queueType].queueCount >= req.minQueueCount
    && HasFlags(families[req.queueType].flags, req.requiredFlags)
    && (req.requiresPresent ==> families[req.queueType].supportsPresent)
  }

  /** `areQueueFamiliesSufficient(families, requirements)`: walks the
      requirements in order and answers false at the first one that is
      missing or not met. */
  method AreQueueFamiliesSufficient(families: Families, requirements: seq<QueueRequirements>)
    returns (sufficient: bool)
    ensures sufficient <==> forall k :: 0 <= k < |requirements| ==> Meets(families, requirements[k])
  {
    for k := 0 to |requirements|
      invariant forall m :: 0 <= m < k ==> Meets(families, requirements[m])
    {
      var req := requirements[k];
      if req.queueType !in families {
        assert !Meets(families, requirements[k]);
        return false;
      }
      var info := families[req.queueType];
      if info.queueCount < req.minQueueCount
        || !HasFlags(info.flags, req.requiredFlags)
        || (req.requiresPresent && !info.supportsPresent) {
        assert !Meets(families, requirements[k]);
        return false;
      }
      assert Meets(families, requirements[k]);
    }
    return true;
  }

  /** The requirements `initialize` imposes. */
  const INITIAL_REQUIREMENTS: seq<QueueRequirements> := [
    QueueRequirements(Graphics, 1, VK_QUEUE_GRAPHICS_BIT, false),
    QueueRequirements(Present, 1, 0, true)
  ]

  /** For the single graphics bit, "contains all required flags" is "has the
      bit". */
  lemma BitIsSet(flags: bv32, bit: bv32)
    requires bit == VK_QUEUE_GRAPHICS_BIT
    ensures (bit & flags == bit) <==> (flags & bit != 0)
  {
  }

  /** `QueueManager` state: the discovered families. */
  datatype QueueManager = QueueManager(queueFamilies: Families)

  /** `initialize(device, surface)`: stores the discovered families (also
      when it then throws) and throws unless a GRAPHICS family with the
      graphics bit and a present-capable PRESENT family, each with at least
      one queue, were found. */
  method Initialize(dq: DeviceQueues, surface: Raw) returns (qm: QueueManager, outcome: Outcome)
    ensures qm.queueFamilies == FindQueueFamilies(dq, surface)
    ensures var f := qm.queueFamilies;
      outcome.Pass? <==>
        && Graphics in f && f[Graphics].queueCount >= 1 && f[Graphics].flags & VK_QUEUE_GRAPHICS_BIT != 0
        && Present in f && f[Present].queueCount >= 1 && f[Present].supportsPresent
    ensures outcome.Fail? ==> outcome.error == QueueFamiliesInsufficient
  {
    qm := QueueManager(FindQueueFamilies(dq, surface));
    var sufficient := AreQueueFamiliesSufficient(qm.queueFamilies, INITIAL_REQUIREMENTS);
    var f := qm.queueFamilies;
    assert Meets(f, INITIAL_REQUIREMENTS[0]) <==>
      Graphics in f && f[Graphics].queueCount >= 1 && f[Graphics].flags & VK_QUEUE_GRAPHICS_BIT != 0
    by {
      if Graphics in f {
        BitIsSet(f[Graphics].flags, VK_QUEUE_GRAPHICS_BIT);
      }
    }
    assert Meets(f, INITIAL_REQUIREMENTS[1]) <==>
      Present in f && f[Present].queueCount >= 1 && f[Present].supportsPresent;
    assert (forall k :: 0 <= k < |INITIAL_REQUIREMENTS| ==> Meets(f, INITIAL_REQUIREMENTS[k])) <==>
      Meets(f, INITIAL_REQUIREMENTS[0]) && Meets(f, INITIAL_REQUIREMENTS[1]);
    outcome := if sufficient then Pass else Fail(QueueFamiliesInsufficient);
  }

  /** With a surface, `initialize` succeeds exactly when some family has the
      graphics bit and a queue, and the last family reporting present support
      has a queue. */
  lemma InitializeOnDevice(dq: DeviceQueues, surface: Raw)
    requires surface != NULL
    ensures var f := FindQueueFamilies(dq, surface);
      (&& Graphics in f && f[Graphics].queueCount >= 1 && f[Graphics].flags & VK_QUEUE_GRAPHICS_BIT != 0
       && Present in f && f[Present].queueCount >= 1 && f[Present].supportsPresent)
      <==>
      (&& (exists i :: 0 <= i < |dq.properties| && dq.properties[i].queueFlags & VK_QUEUE_GRAPHICS_BIT != 0)
       && LastQualifying(dq, surface, Graphics, |dq.properties|).Some?
       && dq.properties[LastQualifying(dq, surface, Graphics, |dq.properties|).value].queueCount >= 1
       && LastQualifying(dq, surface, Present, |dq.properties|).Some?
       && dq.properties[LastQualifying(dq, surface, Present, |dq.properties|).value].queueCount >= 1)
  {
    ScanIsLastMatch(dq, surface, |dq.properties|, Graphics);
    ScanIsLastMatch(dq, surface, |dq.properties|, Present);
    FindQueueFamiliesIsLastMatch(dq, surface, Graphics);
  }

  /** `getQueue(device, type, queueIndex)`: throws if the type was not
      discovered or the index is not below its queue count; otherwise asks
      `vkGetDeviceQueue` for queue `queueIndex` of the family and throws if
      the driver hands back null. */
  function GetQueue(qm: QueueManager, t: QueueType, queueIndex: nat, deviceQueue: (nat, nat) -> Raw)
    : (r: Result<Raw>)
    ensures (t !in qm.queueFamilies || queueIndex >= qm.queueFamilies[t].queueCount) ==> r == Err(InvalidQueue)
    ensures r.Ok? ==>
      && t in qm.queueFamilies && queueIndex < qm.queueFamilies[t].queueCount
      && r.value == deviceQueue(qm.queueFamilies[t].index, queueIndex)
      && r.value != NULL
    ensures (t in qm.queueFamilies && queueIndex < qm.queueFamilies[t].queueCount) ==>
      (r.Ok? <==> deviceQueue(qm.queueFamilies[t].index, queueIndex) != NULL)
  {
    if t !in qm.queueFamilies || queueIndex >= qm.queueFamilies[t].queueCount then
      Err(InvalidQueue)
    else
      var queue := deviceQueue(qm.queueFamilies[t].index, queueIndex);
      if queue == NULL then Err(NullQueue) else Ok(queue)
  }
}
