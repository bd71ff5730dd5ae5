/** `LogicalDeviceCreator::create`: one queue create-info per distinct
    family, the device create-info, and the two queues fetched afterwards. */
module LogicalDevice {
  import opened Vk
  import opened Queues

  /** `VkDeviceQueueCreateInfo`, the fields the core sets. */
  datatype QueueCreateInfo = QueueCreateInfo(queueFamilyIndex: nat, queueCount: nat)

  /** `VkDeviceCreateInfo`, the fields the core sets. */
  datatype DeviceCreateInfo = DeviceCreateInfo(
    queueCreateInfos: seq<QueueCreateInfo>,
    enabledExtensionCount: u32,
    enabledExtensionNames: seq<string>,
    enabledLayerCount: u32,
    enabledLayerNames: seq<string>)

  /** `LogicalDeviceCreator::DeviceQueue`, with the device it belongs to. */
  datatype Device = Device(device: Raw, graphicsQueue: Raw, presentQueue: Raw)

  /** `order` lists every key of `families` exactly once: the iteration
      order of the `unordered_map`, which the code does not fix. */
  predicate IsIterationOrder(order: seq<QueueType>, families: Families)
  {
    && (forall t :: t in order <==> t in families)
    && (forall a, b :: 0 <= a < b < |order| ==> order[a] != order[b])
  }

  /** The families' entries in iteration order. */
  function InfosInOrder(order: seq<QueueType>, families: Families): (infos: seq<QueueFamilyInfo>)
    requires IsIterationOrder(order, families)
    ensures |infos| == |order|
    ensures forall i :: 0 <= i < |order| ==> infos[i] == families[order[i]]
  {
    seq(|order|, i requires 0 <= i < |order| => families[order[i]])
  }

  /** Entry `i` is the first, in iteration order, with its family index. */
  predicate FirstWithIndex(infos: seq<QueueFamilyInfo>, i: nat)
    requires i < |infos|
  {
    forall j :: 0 <= j < i ==> infos[j].index != infos[i].index
  }

  /** What the loop keeps after `k` entries: `unique` holds exactly the
      indices emitted so far, each emitted once at `slotOf[x]`, and every
      create-info `a` copies entry `source[a]`, the first with its index. */
  ghost predicate Scanned(infos: seq<QueueFamilyInfo>, k: nat, unique: set<nat>, createInfos: seq<QueueCreateInfo>,
                          slotOf: map<nat, nat>, source: seq<nat>)
  {
    && k <= |infos|
    && |createInfos| <= k
    && unique == slotOf.Keys
    && |source| == |createInfos|
    && (forall x :: x in slotOf ==> slotOf[x] < |createInfos| && createInfos[slotOf[x]].queueFamilyIndex == x)
    && (forall a :: 0 <= a < |createInfos| ==> createInfos[a].queueFamilyIndex in unique)
    && (forall i :: 0 <= i < k ==> infos[i].index in unique)
    && (forall a, b :: 0 <= a < b < |createInfos| ==>
          createInfos[a].queueFamilyIndex != createInfos[b].queueFamilyIndex)
    && (forall a :: 0 <= a < |createInfos| ==>
          && source[a] < k && FirstWithIndex(infos, source[a])
          && createInfos[a] == QueueCreateInfo(infos[source[a]].index, infos[source[a]].queueCount))
  }

  /** An entry whose index is new is emitted, and the scan moves on. */
  lemma {:induction false} ScanInsert(infos: seq<QueueFamilyInfo>, k: nat, unique: set<nat>, createInfos: seq<QueueCreateInfo>,
                                      slotOf: map<nat, nat>, source: seq<nat>)
    requires Scanned(infos, k, unique, createInfos, slotOf, source)
    requires k < |infos| && infos[k].index !in unique
    ensures Scanned(infos, k + 1, unique + {infos[k].index},
                    createInfos + [QueueCreateInfo(infos[k].index, infos[k].queueCount)],
                    slotOf[infos[k].index := |createInfos|], source + [k])
  {
    var cs := createInfos + [QueueCreateInfo(infos[k].index, infos[k].queueCount)];
    var src := source + [k];
    forall j | 0 <= j < k
      ensures infos[j].index != infos[k].index
    {
    }
    assert FirstWithIndex(infos, k);
    forall a | 0 <= a < |cs|
      ensures src[a] < k + 1 && FirstWithIndex(infos, src[a])
      ensures cs[a] == QueueCreateInfo(infos[src[a]].index, infos[src[a]].queueCount)
    {
      if a < |createInfos| {
        assert cs[a] == createInfos[a] && src[a] == source[a];
      }
    }
  }

  /** An entry whose index was seen is skipped. */
  lemma ScanSkip(infos: seq<QueueFamilyInfo>, k: nat, unique: set<nat>, createInfos: seq<QueueCreateInfo>,
                 slotOf: map<nat, nat>, source: seq<nat>)
    requires Scanned(infos, k, unique, createInfos, slotOf, source)
    requires k < |infos| && infos[k].index in unique
    ensures Scanned(infos, k + 1, unique, createInfos, slotOf, source)
  {
  }

  /** Some create-info asks for queues of family `index`. */
  predicate HasCreateInfoFor(createInfos: seq<QueueCreateInfo>, index: nat)
  {
    exists a :: 0 <= a < |createInfos| && createInfos[a].queueFamilyIndex == index
  }

  /** `c` copies the index and queue count of an entry of `infos` that is
      the first with its index. */
  predicate CopiesFirstEntry(infos: seq<QueueFamilyInfo>, c: QueueCreateInfo)
  {
    exists i :: 0 <= i < |infos| && FirstWithIndex(infos, i) && c == QueueCreateInfo(infos[i].index, infos[i].queueCount)
  }

  /** A finished scan covers every index and copies only first entries. */
  lemma ScanComplete(infos: seq<QueueFamilyInfo>, unique: set<nat>, createInfos: seq<QueueCreateInfo>,
                     slotOf: map<nat, nat>, source: seq<nat>)
    requires Scanned(infos, |infos|, unique, createInfos, slotOf, source)
    ensures forall i :: 0 <= i < |infos| ==> HasCreateInfoFor(createInfos, infos[i].index)
    ensures forall a :: 0 <= a < |createInfos| ==> CopiesFirstEntry(infos, createInfos[a])
  {
    forall i | 0 <= i < |infos|
      ensures HasCreateInfoFor(createInfos, infos[i].index)
    {
      assert infos[i].index in slotOf;
      var a := slotOf[infos[i].index];
      assert a < |createInfos| && createInfos[a].queueFamilyIndex == infos[i].index;
    }
    forall a | 0 <= a < |createInfos|
      ensures CopiesFirstEntry(infos, createInfos[a])
    {
      var i := source[a];
      assert i < |infos| && FirstWithIndex(infos, i);
    }
  }

  /** The loop over the map that inserts each family index into a
      `std::set` and emits a create-info only when the insertion is new. */
  method UniqueQueueCreateInfos(infos: seq<QueueFamilyInfo>) returns (createInfos: seq<QueueCreateInfo>)
    ensures |createInfos| <= |infos|
    ensures forall a, b :: 0 <= a < b < |createInfos| ==>
      createInfos[a].queueFamilyIndex != createInfos[b].queueFamilyIndex
    ensures forall i :: 0 <= i < |infos| ==> HasCreateInfoFor(createInfos, infos[i].index)
    ensures forall a :: 0 <= a < |createInfos| ==> CopiesFirstEntry(infos, createInfos[a])
  {
    var unique: set<nat> := {};
    createInfos := [];
    // Where each index seen so far sits in `createInfos`, and which entry
    // of `infos` each create-info came from.
    ghost var slotOf: map<nat, nat> := map[];
    ghost var source: seq<nat> := [];
    for k := 0 to |infos|
      invariant Scanned(infos, k, unique, createInfos, slotOf, source)
    {
      var info := infos[k];
      if info.index !in unique {
        ScanInsert(infos, k, unique, createInfos, slotOf, source);
        unique := unique + {info.index};
        slotOf := slotOf[info.index := |createInfos|];
        source := source + [k];
        createInfos := createInfos + [QueueCreateInfo(info.index, info.queueCount)];
      } else {
        ScanSkip(infos, k, unique, createInfos, slotOf, source);
      }
    }
    ScanComplete(infos, unique, createInfos, slotOf, source);
  }

  /** `create(...)`: builds the queue create-infos from the families in
      iteration order, enables every device extension and, only with
      validation on, every validation layer; throws if `vkCreateDevice`
      fails; then fetches queue 0 of GRAPHICS and of PRESENT through
      `getQueue`, whose exceptions propagate. `request` is the
      create-info handed to the driver. */
  method Create(qm: QueueManager, order: seq<QueueType>,
                enableValidationLayers: bool, validationLayers: seq<string>, deviceExtensions: seq<string>,
                createDevice: DeviceCreateInfo -> Created, deviceQueue: (Raw, nat, nat) -> Raw)
    returns (request: DeviceCreateInfo, r: Result<Device>)
    requires IsIterationOrder(order, qm.queueFamilies)
    ensures |request.queueCreateInfos| <= |qm.queueFamilies|
    ensures forall a, b :: 0 <= a < b < |request.queueCreateInfos| ==>
      request.queueCreateInfos[a].queueFamilyIndex != request.queueCreateInfos[b].queueFamilyIndex
    ensures forall t :: t in qm.queueFamilies ==> HasCreateInfoFor(request.queueCreateInfos, qm.queueFamilies[t].index)
    ensures forall a :: 0 <= a < |request.queueCreateInfos| ==>
      CopiesFirstEntry(InfosInOrder(order, qm.queueFamilies), request.queueCreateInfos[a])
    ensures request.enabledExtensionNames == deviceExtensions
    ensures request.enabledExtensionCount == ToU32(|deviceExtensions|)
    ensures enableValidationLayers ==>
      request.enabledLayerCount == ToU32(|validationLayers|) && request.enabledLayerNames == validationLayers
    ensures !enableValidationLayers ==> request.enabledLayerCount == 0
    ensures createDevice(request).result != VK_SUCCESS ==> r == Err(DeviceCreationFailed)
    ensures r.Ok? ==>
      var device := createDevice(request).handle;
      && createDevice(request).result == VK_SUCCESS
      && r.value.device == device
      && GetQueue(qm, Graphics, 0, (f, i) => deviceQueue(device, f, i)) == Ok(r.value.graphicsQueue)
      && GetQueue(qm, Present, 0, (f, i) => deviceQueue(device, f, i)) == Ok(r.value.presentQueue)
    ensures createDevice(request).result == VK_SUCCESS ==>
      var device := createDevice(request).handle;
      (r.Ok? <==> GetQueue(qm, Graphics, 0, (f, i) => deviceQueue(device, f, i)).Ok?
                  && GetQueue(qm, Present, 0, (f, i) => deviceQueue(device, f, i)).Ok?)
  {
    var infos := InfosInOrder(order, qm.queueFamilies);
    var queueCreateInfos := UniqueQueueCreateInfos(infos);
    assert |order| == |qm.queueFamilies| by {
      OrderCoversKeys(order, qm.queueFamilies);
    }
    forall t | t in qm.queueFamilies
      ensures HasCreateInfoFor(queueCreateInfos, qm.queueFamilies[t].index)
    {
      var i :| 0 <= i < |order| && order[i] == t;
      assert infos[i] == qm.queueFamilies[t];
    }
    var layerCount: u32 := if enableValidationLayers then ToU32(|validationLayers|) else 0;
    var layerNames := if enableValidationLayers then validationLayers else [];
    request := DeviceCreateInfo(queueCreateInfos, ToU32(|deviceExtensions|), deviceExtensions, layerCount, layerNames);
    var created := createDevice(request);
    if created.result != VK_SUCCESS {
      r := Err(DeviceCreationFailed);
      return;
    }
    var device := created.handle;
    var graphics := GetQueue(qm, Graphics, 0, (f, i) => deviceQueue(device, f, i));
    if graphics.Err? {
      r := Err(graphics.error);
      return;
    }
    var present := GetQueue(qm, Present, 0, (f, i) => deviceQueue(device, f, i));
    if present.Err? {
      r := Err(present.error);
      return;
    }
    r := Ok(Device(device, graphics.value, present.value));
  }

  /** Dropping the last key of an iteration order leaves an iteration
      order of the map without that key. */
  lemma DropLastKey(order: seq<QueueType>, families: Families)
    requires IsIterationOrder(order, families) && order != []
    ensures IsIterationOrder(order[..|order| - 1], families - {order[|order| - 1]})
  {
    var t := order[|order| - 1];
    var rest := order[..|order| - 1];
    var smaller := families - {t};
    forall u
      ensures u in rest <==> u in smaller
    {
      if u in rest {
        var a :| 0 <= a < |rest| && rest[a] == u;
        assert order[a] == u && order[|order| - 1] == t;
      }
      if u in smaller {
        assert u in order;
        var a :| 0 <= a < |order| && order[a] == u;
        assert a != |order| - 1;
        assert rest[a] == u;
      }
    }
  }

  /** An iteration order has exactly as many entries as the map has keys. */
  lemma {:induction false} OrderCoversKeys(order: seq<QueueType>, families: Families)
    requires IsIterationOrder(order, families)
    ensures |order| == |families|
    decreases |order|
  {
    if order == [] {
      assert families.Keys == {};
    } else {
      var t := order[|order| - 1];
      DropLastKey(order, families);
      OrderCoversKeys(order[..|order| - 1], families - {t});
      assert families.Keys == (families - {t}).Keys + {t};
    }
  }
}
