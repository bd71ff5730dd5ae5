/** The parts of `SwapchainManager` that have bodies: the device-extension
    check and the sizing of the surface support query. */
module SwapchainSupport {
  import opened Vk

  const VK_KHR_SWAPCHAIN_EXTENSION_NAME: string := "VK_KHR_swapchain"

  /** `deviceExtensions`: the device extensions the renderer needs. */
  const DEVICE_EXTENSIONS: seq<string> := [VK_KHR_SWAPCHAIN_EXTENSION_NAME]

  /** The required names that no available name matches: a `std::set` of
      the required names from which every available name is erased. */
  method MissingExtensions(required: seq<string>, available: seq<string>) returns (missing: set<string>)
    ensures forall name :: name in missing <==> name in required && name !in available
  {
    missing := set name | name in required;
    for i := 0 to |available|
      invariant forall name :: name in missing <==> name in required && name !in available[..i]
    {
      missing := missing - {available[i]};
    }
    assert available[..|available|] == available;
  }

  /** `SwapchainManager::checkDeviceSupportSwapChain(device)`, given the
      extensions the device enumerates: true exactly when nothing required
      is missing. */
  method CheckDeviceSupportSwapChain(available: seq<string>) returns (supported: bool)
    ensures supported <==> AllAvailable(DEVICE_EXTENSIONS, available)
    ensures supported <==> VK_KHR_SWAPCHAIN_EXTENSION_NAME in available
  {
    var missing := MissingExtensions(DEVICE_EXTENSIONS, available);
    supported := missing == {};
    assert VK_KHR_SWAPCHAIN_EXTENSION_NAME in DEVICE_EXTENSIONS;
    assert supported <==> VK_KHR_SWAPCHAIN_EXTENSION_NAME !in missing;
  }

  /** The answer of the check depends only on which names are available:
      adding names, repeating them or reordering them changes nothing. */
  lemma SupportIgnoresOrderAndDuplicates(required: seq<string>, available: seq<string>, other: seq<string>)
    requires forall name :: name in available ==> name in other
    ensures AllAvailable(required, available) ==> AllAvailable(required, other)
  {
  }

  /** The free function `checkDeviceSupportSwapChain(device)`: a stub that
      accepts every device. */
  function CheckDeviceSupportSwapChainStub(device: Raw): (supported: bool)
    ensures supported
  {
    true
  }

  datatype SurfaceFormat = SurfaceFormat(format: nat, colorSpace: nat)

  type PresentMode = nat

  /** `VkSurfaceCapabilitiesKHR`, carried through unchanged. */
  datatype SurfaceCapabilities = SurfaceCapabilities(minImageCount: nat, maxImageCount: nat, currentWidth: nat, currentHeight: nat)

  /** `SwapChainSupportDetails`. */
  datatype SupportDetails = SupportDetails(capabilities: SurfaceCapabilities, formats: seq<SurfaceFormat>, presentModes: seq<PresentMode>)

  /** What the three surface queries report: the capabilities, the counts
      of the first enumeration calls, and what the second calls write at
      each position. */
  datatype SurfaceQueries = SurfaceQueries(
    capabilities: SurfaceCapabilities,
    formatCount: u32, formatAt: nat -> SurfaceFormat,
    presentModeCount: u32, presentModeAt: nat -> PresentMode)

  /** `querySwapchainSupport()`: each vector stays empty when its count is 0
      and is otherwise sized to the count and filled by the driver. */
  function QuerySwapchainSupport(q: SurfaceQueries): (d: SupportDetails)
    ensures d.capabilities == q.capabilities
    ensures |d.formats| == q.formatCount as int
    ensures q.formatCount == 0 ==> d.formats == []
    ensures forall i :: 0 <= i < |d.formats| ==> d.formats[i] == q.formatAt(i)
    ensures |d.presentModes| == q.presentModeCount as int
    ensures q.presentModeCount == 0 ==> d.presentModes == []
    ensures forall i :: 0 <= i < |d.presentModes| ==> d.presentModes[i] == q.presentModeAt(i)
  {
    var formats := if q.formatCount != 0 then seq(q.formatCount as int, i requires 0 <= i => q.formatAt(i)) else [];
    var modes := if q.presentModeCount != 0 then seq(q.presentModeCount as int, i requires 0 <= i => q.presentModeAt(i)) else [];
    SupportDetails(q.capabilities, formats, modes)
  }
}
