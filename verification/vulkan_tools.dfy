/** `VulkanTools`: validation layers, instance extensions and the debug
    messenger. `enableValidationLayers` is a build-time constant (false
    exactly when `NDEBUG` is defined); here it is a parameter. */
module VulkanTools {
  import opened Vk

  /** `validationLayers`. */
  const VALIDATION_LAYERS: seq<string> := ["VK_LAYER_KHRONOS_validation"]

  const VK_EXT_DEBUG_UTILS_EXTENSION_NAME: string := "VK_EXT_debug_utils"

  /** `VkDebugUtilsMessageSeverityFlagBitsEXT`. */
  const SEVERITY_VERBOSE: bv32 := 0x0000_0001
  const SEVERITY_INFO: bv32 := 0x0000_0010
  const SEVERITY_WARNING: bv32 := 0x0000_0100
  const SEVERITY_ERROR: bv32 := 0x0000_1000

  /** `checkValidationLayerSupport()`, given the layers the instance
      enumerates: for each required layer in turn, a linear search of the
      available ones; answers false as soon as one is not found. */
  method LayersSupported(required: seq<string>, available: seq<string>) returns (supported: bool)
    ensures supported <==> AllAvailable(required, available)
  {
    for r := 0 to |required|
      invariant forall k :: 0 <= k < r ==> required[k] in available
    {
      var layerFound := false;
      for a := 0 to |available|
        invariant layerFound <==> required[r] in available[..a]
      {
        if required[r] == available[a] {
          layerFound := true;
          break;
        }
      }
      if !layerFound {
        assert available[..|available|] == available;
        return false;
      }
    }
    return true;
  }

  method CheckValidationLayerSupport(available: seq<string>) returns (supported: bool)
    ensures supported <==> "VK_LAYER_KHRONOS_validation" in available
  {
    supported := LayersSupported(VALIDATION_LAYERS, available);
  }

  /** `getRequiredExtensions()`: the windowing system's instance extensions
      in order, then the debug-utils extension when validation is on. */
  function GetRequiredExtensions(windowExtensions: seq<string>, enableValidationLayers: bool): (r: seq<string>)
    ensures |r| >= |windowExtensions| && r[..|windowExtensions|] == windowExtensions
    ensures enableValidationLayers ==> |r| == |windowExtensions| + 1 && r[|windowExtensions|] == VK_EXT_DEBUG_UTILS_EXTENSION_NAME
    ensures !enableValidationLayers ==> r == windowExtensions
  {
    if enableValidationLayers then windowExtensions + [VK_EXT_DEBUG_UTILS_EXTENSION_NAME] else windowExtensions
  }

  /** `CreateDebugUtilsMessengerEXT`: `proc` is what the loaded
      `vkCreateDebugUtilsMessengerEXT` would return, or `None` when
      `vkGetInstanceProcAddr` yields null. */
  function CreateDebugUtilsMessenger(proc: Option<VkResult>): (r: VkResult)
    ensures proc.None? ==> r == VK_ERROR_EXTENSION_NOT_PRESENT
    ensures proc.Some? ==> r == proc.value
  {
    match proc
    case None => VK_ERROR_EXTENSION_NOT_PRESENT
    case Some(result) => result
  }

  /** `DestroyDebugUtilsMessengerEXT`: whether the destroy entry point is
      invoked; nothing happens when the lookup yields null. */
  function DestroyDebugUtilsMessenger(procFound: bool): (invoked: bool)
    ensures invoked <==> procFound
  {
    procFound
  }

  /** `setupDebugMessenger`: throws unless creation returns `VK_SUCCESS`. */
  function SetupDebugMessenger(proc: Option<VkResult>): (r: Outcome)
    ensures r.Pass? <==> CreateDebugUtilsMessenger(proc) == VK_SUCCESS
    ensures r.Fail? ==> r.error == DebugMessengerFailed
  {
    if CreateDebugUtilsMessenger(proc) != VK_SUCCESS then Fail(DebugMessengerFailed) else Pass
  }

  /** The messenger is set up exactly when the entry point exists and
      returns success; a missing entry point is a failure. */
  lemma SetupNeedsEntryPoint(proc: Option<VkResult>)
    ensures SetupDebugMessenger(proc).Pass? <==> proc == Some(VK_SUCCESS)
  {
  }

  /** `debugCallback`: always answers `VK_FALSE` (do not abort the call);
      the second component says whether the message is printed, which
      happens for severity WARNING and above. */
  function DebugCallback(severity: bv32): (r: (nat, bool))
    ensures r.0 == VK_FALSE
    ensures r.1 <==> severity >= SEVERITY_WARNING
  {
    (VK_FALSE, severity >= SEVERITY_WARNING)
  }

  /** `VkDebugUtilsMessageTypeFlagBitsEXT`. */
  const TYPE_GENERAL: bv32 := 0x1
  const TYPE_VALIDATION: bv32 := 0x2
  const TYPE_PERFORMANCE: bv32 := 0x4

  /** The two masks `populateDebugMessengerCreateInfo` sets. */
  datatype MessengerCreateInfo = MessengerCreateInfo(messageSeverity: bv32, messageType: bv32)

  /** `populateDebugMessengerCreateInfo`: verbose, warning and error
      messages (not info) of all three types reach the callback. */
  function PopulateDebugMessengerCreateInfo(): (info: MessengerCreateInfo)
    ensures info.messageSeverity & SEVERITY_VERBOSE != 0
    ensures info.messageSeverity & SEVERITY_INFO == 0
    ensures info.messageSeverity & SEVERITY_WARNING != 0
    ensures info.messageSeverity & SEVERITY_ERROR != 0
    ensures info.messageType & TYPE_GENERAL != 0
    ensures info.messageType & TYPE_VALIDATION != 0
    ensures info.messageType & TYPE_PERFORMANCE != 0
  {
    MessengerCreateInfo(SEVERITY_VERBOSE | SEVERITY_WARNING | SEVERITY_ERROR,
                        TYPE_GENERAL | TYPE_VALIDATION | TYPE_PERFORMANCE)
  }

  /** Of the four severities, warnings and errors are printed; verbose and
      info messages are not. */
  lemma CallbackPrintsWarningsAndErrors()
    ensures !DebugCallback(SEVERITY_VERBOSE).1 && !DebugCallback(SEVERITY_INFO).1
    ensures DebugCallback(SEVERITY_WARNING).1 && DebugCallback(SEVERITY_ERROR).1
  {
  }
}
