/** `PhysicalDeviceSelector`: the first suitable GPU in enumeration order. */
module PhysicalDevice {
  import opened Vk

  /** `VkPhysicalDeviceType`, in the order of its enumerators. */
  datatype PhysicalDeviceType = Other | IntegratedGpu | DiscreteGpu | VirtualGpu | Cpu

  /** A physical device with the property and feature `isDeviceSuitable`
      queries. */
  datatype Gpu = Gpu(handle: Raw, deviceType: PhysicalDeviceType, geometryShader: bool)

  /** `isDeviceSuitable(device)`: a discrete GPU with geometry shaders. */
  predicate IsDeviceSuitable(d: Gpu)
    ensures IsDeviceSuitable(d) <==> d.deviceType == DiscreteGpu && d.geometryShader
  {
    d.deviceType == DiscreteGpu && d.geometryShader
  }

  /** `select(instance)`, given the enumerated devices: throws when there
      are none, returns the first suitable one, and throws when none is
      suitable. */
  method Select(devices: seq<Gpu>) returns (r: Result<Raw>)
    ensures |devices| == 0 ==> r == Err(NoVulkanDevice)
    ensures |devices| > 0 && FirstWhere(devices, IsDeviceSuitable).None? ==> r == Err(NoSuitableDevice)
    ensures FirstWhere(devices, IsDeviceSuitable).Some? ==>
      r == Ok(devices[FirstWhere(devices, IsDeviceSuitable).value].handle)
  {
    if |devices| == 0 {
      return Err(NoVulkanDevice);
    }
    for i := 0 to |devices|
      invariant forall j :: 0 <= j < i ==> !IsDeviceSuitable(devices[j])
    {
      if IsDeviceSuitable(devices[i]) {
        FirstWhereIsUnique(devices, IsDeviceSuitable, i);
        return Ok(devices[i].handle);
      }
    }
    return Err(NoSuitableDevice);
  }
}
