/**
 * `OpenCLWrapper::getCLError` and `OpenCLWrapper::logCLError`: the table
 * from an OpenCL status code to its symbolic name, and the conditional log
 * line that `CL_ASSERT` produces.
 */
module CLErrors {

  datatype Option<+T> = None | Some(value: T)

  /** The codes the table names: the runtime errors -1..-19, the
      compile-time errors -30..-68 and the extension errors -1000..-1005. */
  predicate IsListed(code: int) {
    -19 <= code <= -1 || -68 <= code <= -30 || -1005 <= code <= -1000
  }

  /** `getCLError`: the symbolic name of a listed status code, `None` (the
      null pointer) for any other code. */
  function GetCLError(code: int): (name: Option<string>)
    ensures name.Some? <==> IsListed(code)
  {
    match code
    case -1 => Some("CL_DEVICE_NOT_FOUND")
    case -2 => Some("CL_DEVICE_NOT_AVAILABLE")
    case -3 => Some("CL_COMPILER_NOT_AVAILABLE")
    case -4 => Some("CL_MEM_OBJECT_ALLOCATION_FAILURE")
    case -5 => Some("CL_OUT_OF_RESOURCES")
    case -6 => Some("CL_OUT_OF_HOST_MEMORY")
    case -7 => Some("CL_PROFILING_INFO_NOT_AVAILABLE")
    case -8 => Some("CL_MEM_COPY_OVERLAP")
    case -9 => Some("CL_IMAGE_FORMAT_MISMATCH")
    case -10 => Some("CL_IMAGE_FORMAT_NOT_SUPPORTED")
    case -11 => Some("CL_BUILD_PROGRAM_FAILURE")
    case -12 => Some("CL_MAP_FAILURE")
    case -13 => Some("CL_MISALIGNED_SUB_BUFFER_OFFSET")
    case -14 => Some("CL_EXEC_STATUS_ERROR_FOR_EVENTS_IN_WAIT_LIST")
    case -15 => Some("CL_COMPILE_PROGRAM_FAILURE")
    case -16 => Some("CL_LINKER_NOT_AVAILABLE")
    case -17 => Some("CL_LINK_PROGRAM_FAILURE")
    case -18 => Some("CL_DEVICE_PARTITION_FAILED")
    case -19 => Some("CL_KERNEL_ARG_INFO_NOT_AVAILABLE")
    case -30 => Some("CL_INVALID_VALUE")
    case -31 => Some("CL_INVALID_DEVICE_TYPE")
    case -32 => Some("CL_INVALID_PLATFORM")
    case -33 => Some("CL_INVALID_DEVICE")
    case -34 => Some("CL_INVALID_CONTEXT")
    case -35 => Some("CL_INVALID_QUEUE_PROPERTIES")
    case -36 => Some("CL_INVALID_COMMAND_QUEUE")
    case -37 => Some("CL_INVALID_HOST_PTR")
    case -38 => Some("CL_INVALID_MEM_OBJECT")
    case -39 => Some("CL_INVALID_IMAGE_FORMAT_DESCRIPTOR")
    case -40 => Some("CL_INVALID_IMAGE_SIZE")
    case -41 => Some("CL_INVALID_SAMPLER")
    case -42 => Some("CL_INVALID_BINARY")
    case -43 => Some("CL_INVALID_BUILD_OPTIONS")
    case -44 => Some("CL_INVALID_PROGRAM")
    case -45 => Some("CL_INVALID_PROGRAM_EXECUTABLE")
    case -46 => Some("CL_INVALID_KERNEL_NAME")
    case -47 => Some("CL_INVALID_KERNEL_DEFINITION")
    case -48 => Some("CL_INVALID_KERNEL")
    case -49 => Some("CL_INVALID_ARG_INDEX")
    case -50 => Some("CL_INVALID_ARG_VALUE")
    case -51 => Some("CL_INVALID_ARG_SIZE")
    case -52 => Some("CL_INVALID_KERNEL_ARGS")
    case -53 => Some("CL_INVALID_WORK_DIMENSION")
    case -54 => Some("CL_INVALID_WORK_GROUP_SIZE")
    case -55 => Some("CL_INVALID_WORK_ITEM_SIZE")
    case -56 => Some("CL_INVALID_GLOBAL_OFFSET")
    case -57 => Some("CL_INVALID_EVENT_WAIT_LIST")
    case -58 => Some("CL_INVALID_EVENT")
    case -59 => Some("CL_INVALID_OPERATION")
    case -60 => Some("CL_INVALID_GL_OBJECT")
    case -61 => Some("CL_INVALID_BUFFER_SIZE")
    case -62 => Some("CL_INVALID_MIP_LEVEL")
    case -63 => Some("CL_INVALID_GLOBAL_WORK_SIZE")
    case -64 => Some("CL_INVALID_PROPERTY")
    case -65 => Some("CL_INVALID_IMAGE_DESCRIPTOR")
    case -66 => Some("CL_INVALID_COMPILER_OPTIONS")
    case -67 => Some("CL_INVALID_LINKER_OPTIONS")
    case -68 => Some("CL_INVALID_DEVICE_PARTITION_COUNT")
    case -1000 => Some("CL_INVALID_GL_SHAREGROUP_REFERENCE_KHR")
    case -1001 => Some("CL_PLATFORM_NOT_FOUND_KHR")
    case -1002 => Some("CL_INVALID_D3D10_DEVICE_KHR")
    case -1003 => Some("CL_INVALID_D3D10_RESOURCE_KHR")
    case -1004 => Some("CL_D3D10_RESOURCE_ALREADY_ACQUIRED_KHR")
    case -1005 => Some("CL_D3D10_RESOURCE_NOT_ACQUIRED_KHR")
    case _ => None
  }

  /** The reverse table, from a name back to its code: the length of the
      name and one character that tells apart the names of that length
      select the only candidate, which is then compared in full. */
  function CodeOfName(name: string): Option<int>
  {
    match |name|
    case 14 => Confirm(name, "CL_MAP_FAILURE", -12)
    case 16 =>
      if name[15] == 'E' then Confirm(name, "CL_INVALID_VALUE", -30)
      else if name[15] == 'T' then Confirm(name, "CL_INVALID_EVENT", -58)
      else None
    case 17 =>
      if name[16] == 'E' then Confirm(name, "CL_INVALID_DEVICE", -33)
      else if name[16] == 'Y' then Confirm(name, "CL_INVALID_BINARY", -42)
      else if name[16] == 'L' then Confirm(name, "CL_INVALID_KERNEL", -48)
      else None
    case 18 =>
      if name[17] == 'T' then Confirm(name, "CL_INVALID_CONTEXT", -34)
      else if name[17] == 'R' then Confirm(name, "CL_INVALID_SAMPLER", -41)
      else if name[17] == 'M' then Confirm(name, "CL_INVALID_PROGRAM", -44)
      else None
    case 19 =>
      if name[18] == 'D' then Confirm(name, "CL_DEVICE_NOT_FOUND", -1)
      else if name[18] == 'S' then Confirm(name, "CL_OUT_OF_RESOURCES", -5)
      else if name[18] == 'P' then Confirm(name, "CL_MEM_COPY_OVERLAP", -8)
      else if name[18] == 'M' then Confirm(name, "CL_INVALID_PLATFORM", -32)
      else if name[18] == 'R' then Confirm(name, "CL_INVALID_HOST_PTR", -37)
      else if name[18] == 'E' then Confirm(name, "CL_INVALID_ARG_SIZE", -51)
      else if name[18] == 'Y' then Confirm(name, "CL_INVALID_PROPERTY", -64)
      else None
    case 20 =>
      if name[19] == 'X' then Confirm(name, "CL_INVALID_ARG_INDEX", -49)
      else if name[19] == 'E' then Confirm(name, "CL_INVALID_ARG_VALUE", -50)
      else if name[19] == 'N' then Confirm(name, "CL_INVALID_OPERATION", -59)
      else if name[19] == 'T' then Confirm(name, "CL_INVALID_GL_OBJECT", -60)
      else if name[19] == 'L' then Confirm(name, "CL_INVALID_MIP_LEVEL", -62)
      else None
    case 21 =>
      if name[20] == 'Y' then Confirm(name, "CL_OUT_OF_HOST_MEMORY", -6)
      else if name[20] == 'T' then Confirm(name, "CL_INVALID_MEM_OBJECT", -38)
      else if name[20] == 'E' then Confirm(name, "CL_INVALID_IMAGE_SIZE", -40)
      else None
    case 22 =>
      if name[20] == 'P' then Confirm(name, "CL_INVALID_DEVICE_TYPE", -31)
      else if name[20] == 'M' then Confirm(name, "CL_INVALID_KERNEL_NAME", -46)
      else if name[20] == 'G' then Confirm(name, "CL_INVALID_KERNEL_ARGS", -52)
      else if name[20] == 'Z' then Confirm(name, "CL_INVALID_BUFFER_SIZE", -61)
      else None
    case 23 =>
      if name[8] == 'E' then Confirm(name, "CL_DEVICE_NOT_AVAILABLE", -2)
      else if name[8] == 'R' then Confirm(name, "CL_LINKER_NOT_AVAILABLE", -16)
      else if name[8] == 'P' then Confirm(name, "CL_LINK_PROGRAM_FAILURE", -17)
      else None
    case 24 =>
      if name[22] == 'C' then Confirm(name, "CL_IMAGE_FORMAT_MISMATCH", -9)
      else if name[22] == 'R' then Confirm(name, "CL_BUILD_PROGRAM_FAILURE", -11)
      else if name[22] == 'U' then Confirm(name, "CL_INVALID_COMMAND_QUEUE", -36)
      else if name[22] == 'N' then Confirm(name, "CL_INVALID_BUILD_OPTIONS", -43)
      else if name[22] == 'E' then Confirm(name, "CL_INVALID_GLOBAL_OFFSET", -56)
      else None
    case 25 =>
      if name[23] == 'L' then Confirm(name, "CL_COMPILER_NOT_AVAILABLE", -3)
      else if name[23] == 'O' then Confirm(name, "CL_INVALID_WORK_DIMENSION", -53)
      else if name[23] == 'Z' then Confirm(name, "CL_INVALID_WORK_ITEM_SIZE", -55)
      else if name[23] == 'N' then Confirm(name, "CL_INVALID_LINKER_OPTIONS", -67)
      else if name[23] == 'H' then Confirm(name, "CL_PLATFORM_NOT_FOUND_KHR", -1001)
      else None
    case 26 =>
      if name[24] == 'R' then Confirm(name, "CL_COMPILE_PROGRAM_FAILURE", -15)
      else if name[24] == 'E' then Confirm(name, "CL_DEVICE_PARTITION_FAILED", -18)
      else if name[24] == 'Z' then Confirm(name, "CL_INVALID_WORK_GROUP_SIZE", -54)
      else if name[24] == 'S' then Confirm(name, "CL_INVALID_EVENT_WAIT_LIST", -57)
      else None
    case 27 =>
      if name[25] == 'E' then Confirm(name, "CL_INVALID_QUEUE_PROPERTIES", -35)
      else if name[25] == 'Z' then Confirm(name, "CL_INVALID_GLOBAL_WORK_SIZE", -63)
      else if name[25] == 'O' then Confirm(name, "CL_INVALID_IMAGE_DESCRIPTOR", -65)
      else if name[25] == 'N' then Confirm(name, "CL_INVALID_COMPILER_OPTIONS", -66)
      else if name[25] == 'H' then Confirm(name, "CL_INVALID_D3D10_DEVICE_KHR", -1002)
      else None
    case 28 => Confirm(name, "CL_INVALID_KERNEL_DEFINITION", -47)
    case 29 =>
      if name[28] == 'D' then Confirm(name, "CL_IMAGE_FORMAT_NOT_SUPPORTED", -10)
      else if name[28] == 'E' then Confirm(name, "CL_INVALID_PROGRAM_EXECUTABLE", -45)
      else if name[28] == 'R' then Confirm(name, "CL_INVALID_D3D10_RESOURCE_KHR", -1003)
      else None
    case 31 =>
      if name[30] == 'E' then Confirm(name, "CL_PROFILING_INFO_NOT_AVAILABLE", -7)
      else if name[30] == 'T' then Confirm(name, "CL_MISALIGNED_SUB_BUFFER_OFFSET", -13)
      else None
    case 32 =>
      if name[30] == 'R' then Confirm(name, "CL_MEM_OBJECT_ALLOCATION_FAILURE", -4)
      else if name[30] == 'L' then Confirm(name, "CL_KERNEL_ARG_INFO_NOT_AVAILABLE", -19)
      else None
    case 33 => Confirm(name, "CL_INVALID_DEVICE_PARTITION_COUNT", -68)
    case 34 =>
      if name[32] == 'O' then Confirm(name, "CL_INVALID_IMAGE_FORMAT_DESCRIPTOR", -39)
      else if name[32] == 'H' then Confirm(name, "CL_D3D10_RESOURCE_NOT_ACQUIRED_KHR", -1005)
      else None
    case 38 =>
      if name[33] == 'E' then Confirm(name, "CL_INVALID_GL_SHAREGROUP_REFERENCE_KHR", -1000)
      else if name[33] == 'D' then Confirm(name, "CL_D3D10_RESOURCE_ALREADY_ACQUIRED_KHR", -1004)
      else None
    case 44 => Confirm(name, "CL_EXEC_STATUS_ERROR_FOR_EVENTS_IN_WAIT_LIST", -14)
    case _ => None
  }

  /** `Some(code)` exactly when `name` is the expected one. */
  function Confirm(name: string, expected: string, code: int): (r: Option<int>)
    ensures r.Some? <==> name == expected
    ensures r.Some? ==> r.value == code
  {
    if name == expected then Some(code) else None
  }

  /** Every name in the table leads back to its own code. */
  lemma NameRoundTrip(code: int)
    requires IsListed(code)
    ensures CodeOfName(GetCLError(code).value) == Some(code)
  {
    if code == -1 {
      RoundTrip1(code);
    } else if code == -2 {
      RoundTrip2(code);
    } else if code == -3 {
      RoundTrip3(code);
    } else if code == -4 {
      RoundTrip4(code);
    } else if code == -5 {
      RoundTrip5(code);
    } else if code == -6 {
      RoundTrip6(code);
    } else if code == -7 {
      RoundTrip7(code);
    } else if code == -8 {
      RoundTrip8(code);
    } else if code == -9 {
      RoundTrip9(code);
    } else if code == -10 {
      RoundTrip10(code);
    } else if code == -11 {
      RoundTrip11(code);
    } else if code == -12 {
      RoundTrip12(code);
    } else if code == -13 {
      RoundTrip13(code);
    } else if code == -14 {
      RoundTrip14(code);
    } else if code == -15 {
      RoundTrip15(code);
    } else if code == -16 {
      RoundTrip16(code);
    } else if code == -17 {
      RoundTrip17(code);
    } else if code == -18 {
      RoundTrip18(code);
    } else if code == -19 {
      RoundTrip19(code);
    } else if code == -30 {
      RoundTrip30(code);
    } else if code == -31 {
      RoundTrip31(code);
    } else if code == -32 {
      RoundTrip32(code);
    } else if code == -33 {
      RoundTrip33(code);
    } else if code == -34 {
      RoundTrip34(code);
    } else if code == -35 {
      RoundTrip35(code);
    } else if code == -36 {
      RoundTrip36(code);
    } else if code == -37 {
      RoundTrip37(code);
    } else if code == -38 {
      RoundTrip38(code);
    } else if code == -39 {
      RoundTrip39(code);
    } else if code == -40 {
      RoundTrip40(code);
    } else if code == -41 {
      RoundTrip41(code);
    } else if code == -42 {
      RoundTrip42(code);
    } else if code == -43 {
      RoundTrip43(code);
    } else if code == -44 {
      RoundTrip44(code);
    } else if code == -45 {
      RoundTrip45(code);
    } else if code == -46 {
      RoundTrip46(code);
    } else if code == -47 {
      RoundTrip47(code);
    } else if code == -48 {
      RoundTrip48(code);
    } else if code == -49 {
      RoundTrip49(code);
    } else if code == -50 {
      RoundTrip50(code);
    } else if code == -51 {
      RoundTrip51(code);
    } else if code == -52 {
      RoundTrip52(code);
    } else if code == -53 {
      RoundTrip53(code);
    } else if code == -54 {
      RoundTrip54(code);
    } else if code == -55 {
      RoundTrip55(code);
    } else if code == -56 {
      RoundTrip56(code);
    } else if code == -57 {
      RoundTrip57(code);
    } else if code == -58 {
      RoundTrip58(code);
    } else if code == -59 {
      RoundTrip59(code);
    } else if code == -60 {
      RoundTrip60(code);
    } else if code == -61 {
      RoundTrip61(code);
    } else if code == -62 {
      RoundTrip62(code);
    } else if code == -63 {
      RoundTrip63(code);
    } else if code == -64 {
      RoundTrip64(code);
    } else if code == -65 {
      RoundTrip65(code);
    } else if code == -66 {
      RoundTrip66(code);
    } else if code == -67 {
      RoundTrip67(code);
    } else if code == -68 {
      RoundTrip68(code);
    } else if code == -1000 {
      RoundTrip1000(code);
    } else if code == -1001 {
      RoundTrip1001(code);
    } else if code == -1002 {
      RoundTrip1002(code);
    } else if code == -1003 {
      RoundTrip1003(code);
    } else if code == -1004 {
      RoundTrip1004(code);
    } else if code == -1005 {
      RoundTrip1005(code);
    }
  }

  lemma RoundTrip1(code: int)
    requires code == -1
    ensures CodeOfName(GetCLError(code).value) == Some(code)
  {
    assert CodeOfName("CL_DEVICE_NOT_FOUND") == Some(-1);
  }

  lemma RoundTrip2(code: int)
    requires code == -2
    ensures CodeOfName(GetCLError(code).value) == Some(code)
  {
    assert CodeOfName("CL_DEVICE_NOT_AVAILABLE") == Some(-2);
  }

  lemma RoundTrip3(code: int)
    requires code == -3
    ensures CodeOfName(GetCLError(code).value) == Some(code)
  {
    assert CodeOfName("CL_COMPILER_NOT_AVAILABLE") == Some(-3);
  }

  lemma RoundTrip4(code: int)
    requires code == -4
    ensures CodeOfName(GetCLError(code).value) == Some(code)
  {
    assert CodeOfName("CL_MEM_OBJECT_ALLOCATION_FAILURE") == Some(-4);
  }

  lemma RoundTrip5(code: int)
    requires code == -5
    ensures CodeOfName(GetCLError(code).value) == Some(code)
  {
    assert CodeOfName("CL_OUT_OF_RESOURCES") == Some(-5);
  }

  lemma RoundTrip6(code: int)
    requires code == -6
    ensures CodeOfName(GetCLError(code).value) == Some(code)
  {
    assert CodeOfName("CL_OUT_OF_HOST_MEMORY") == Some(-6);
  }

  lemma RoundTrip7(code: int)
    requires code == -7
    ensures CodeOfName(GetCLError(code).value) == Some(code)
  {
    assert CodeOfName("CL_PROFILING_INFO_NOT_AVAILABLE") == Some(-7);
  }

  lemma RoundTrip8(code: int)
    requires code == -8
    ensures CodeOfName(GetCLError(code).value) == Some(code)
  {
    assert CodeOfName("CL_MEM_COPY_OVERLAP") == Some(-8);
  }

  lemma RoundTrip9(code: int)
    requires code == -9
    ensures CodeOfName(GetCLError(code).value) == Some(code)
  {
    assert CodeOfName("CL_IMAGE_FORMAT_MISMATCH") == Some(-9);
  }

  lemma RoundTrip10(code: int)
    requires code == -10
    ensures CodeOfName(GetCLError(code).value) == Some(code)
  {
    assert CodeOfName("CL_IMAGE_FORMAT_NOT_SUPPORTED") == Some(-10);
  }

  lemma RoundTrip11(code: int)
    requires code == -11
    ensures CodeOfName(GetCLError(code).value) == Some(code)
  {
    assert CodeOfName("CL_BUILD_PROGRAM_FAILURE") == Some(-11);
  }

  lemma RoundTrip12(code: int)
    requires code == -12
    ensures CodeOfName(GetCLError(code).value) == Some(code)
  {
    assert CodeOfName("CL_MAP_FAILURE") == Some(-12);
  }

  lemma RoundTrip13(code: int)
    requires code == -13
    ensures CodeOfName(GetCLError(code).value) == Some(code)
  {
    assert CodeOfName("CL_MISALIGNED_SUB_BUFFER_OFFSET") == Some(-13);
  }

  lemma RoundTrip14(code: int)
    requires code == -14
    ensures CodeOfName(GetCLError(code).value) == Some(code)
  {
    assert CodeOfName("CL_EXEC_STATUS_ERROR_FOR_EVENTS_IN_WAIT_LIST") == Some(-14);
  }

  lemma RoundTrip15(code: int)
    requires code == -15
    ensures CodeOfName(GetCLError(code).value) == Some(code)
  {
    assert CodeOfName("CL_COMPILE_PROGRAM_FAILURE") == Some(-15);
  }

  lemma RoundTrip16(code: int)
    requires code == -16
    ensures CodeOfName(GetCLError(code).value) == Some(code)
  {
    assert CodeOfName("CL_LINKER_NOT_AVAILABLE") == Some(-16);
  }

  lemma RoundTrip17(code: int)
    requires code == -17
    ensures CodeOfName(GetCLError(code).value) == Some(code)
  {
    assert CodeOfName("CL_LINK_PROGRAM_FAILURE") == Some(-17);
  }

  lemma RoundTrip18(code: int)
    requires code == -18
    ensures CodeOfName(GetCLError(code).value) == Some(code)
  {
    assert CodeOfName("CL_DEVICE_PARTITION_FAILED") == Some(-18);
  }

  lemma RoundTrip19(code: int)
    requires code == -19
    ensures CodeOfName(GetCLError(code).value) == Some(code)
  {
    assert CodeOfName("CL_KERNEL_ARG_INFO_NOT_AVAILABLE") == Some(-19);
  }

  lemma RoundTrip30(code: int)
    requires code == -30
    ensures CodeOfName(GetCLError(code).value) == Some(code)
  {
    assert CodeOfName("CL_INVALID_VALUE") == Some(-30);
  }

  lemma RoundTrip31(code: int)
    requires code == -31
    ensures CodeOfName(GetCLError(code).value) == Some(code)
  {
    assert CodeOfName("CL_INVALID_DEVICE_TYPE") == Some(-31);
  }

  lemma RoundTrip32(code: int)
    requires code == -32
    ensures CodeOfName(GetCLError(code).value) == Some(code)
  {
    assert CodeOfName("CL_INVALID_PLATFORM") == Some(-32);
  }

  lemma RoundTrip33(code: int)
    requires code == -33
    ensures CodeOfName(GetCLError(code).value) == Some(code)
  {
    assert CodeOfName("CL_INVALID_DEVICE") == Some(-33);
  }

  lemma RoundTrip34(code: int)
    requires code == -34
    ensures CodeOfName(GetCLError(code).value) == Some(code)
  {
    assert CodeOfName("CL_INVALID_CONTEXT") == Some(-34);
  }

  lemma RoundTrip35(code: int)
    requires code == -35
    ensures CodeOfName(GetCLError(code).value) == Some(code)
  {
    assert CodeOfName("CL_INVALID_QUEUE_PROPERTIES") == Some(-35);
  }

  lemma RoundTrip36(code: int)
    requires code == -36
    ensures CodeOfName(GetCLError(code).value) == Some(code)
  {
    assert CodeOfName("CL_INVALID_COMMAND_QUEUE") == Some(-36);
  }

  lemma RoundTrip37(code: int)
    requires code == -37
    ensures CodeOfName(GetCLError(code).value) == Some(code)
  {
    assert CodeOfName("CL_INVALID_HOST_PTR") == Some(-37);
  }

  lemma RoundTrip38(code: int)
    requires code == -38
    ensures CodeOfName(GetCLError(code).value) == Some(code)
  {
    assert CodeOfName("CL_INVALID_MEM_OBJECT") == Some(-38);
  }

  lemma RoundTrip39(code: int)
    requires code == -39
    ensures CodeOfName(GetCLError(code).value) == Some(code)
  {
    assert CodeOfName("CL_INVALID_IMAGE_FORMAT_DESCRIPTOR") == Some(-39);
  }

  lemma RoundTrip40(code: int)
    requires code == -40
    ensures CodeOfName(GetCLError(code).value) == Some(code)
  {
    assert CodeOfName("CL_INVALID_IMAGE_SIZE") == Some(-40);
  }

  lemma RoundTrip41(code: int)
    requires code == -41
    ensures CodeOfName(GetCLError(code).value) == Some(code)
  {
    assert CodeOfName("CL_INVALID_SAMPLER") == Some(-41);
  }

  lemma RoundTrip42(code: int)
    requires code == -42
    ensures CodeOfName(GetCLError(code).value) == Some(code)
  {
    assert CodeOfName("CL_INVALID_BINARY") == Some(-42);
  }

  lemma RoundTrip43(code: int)
    requires code == -43
    ensures CodeOfName(GetCLError(code).value) == Some(code)
  {
    assert CodeOfName("CL_INVALID_BUILD_OPTIONS") == Some(-43);
  }

  lemma RoundTrip44(code: int)
    requires code == -44
    ensures CodeOfName(GetCLError(code).value) == Some(code)
  {
    assert CodeOfName("CL_INVALID_PROGRAM") == Some(-44);
  }

  lemma RoundTrip45(code: int)
    requires code == -45
    ensures CodeOfName(GetCLError(code).value) == Some(code)
  {
    assert CodeOfName("CL_INVALID_PROGRAM_EXECUTABLE") == Some(-45);
  }

  lemma RoundTrip46(code: int)
    requires code == -46
    ensures CodeOfName(GetCLError(code).value) == Some(code)
  {
    assert CodeOfName("CL_INVALID_KERNEL_NAME") == Some(-46);
  }

  lemma RoundTrip47(code: int)
    requires code == -47
    ensures CodeOfName(GetCLError(code).value) == Some(code)
  {
    assert CodeOfName("CL_INVALID_KERNEL_DEFINITION") == Some(-47);
  }

  lemma RoundTrip48(code: int)
    requires code == -48
    ensures CodeOfName(GetCLError(code).value) == Some(code)
  {
    assert CodeOfName("CL_INVALID_KERNEL") == Some(-48);
  }

  lemma RoundTrip49(code: int)
    requires code == -49
    ensures CodeOfName(GetCLError(code).value) == Some(code)
  {
    assert CodeOfName("CL_INVALID_ARG_INDEX") == Some(-49);
  }

  lemma RoundTrip50(code: int)
    requires code == -50
    ensures CodeOfName(GetCLError(code).value) == Some(code)
  {
    assert CodeOfName("CL_INVALID_ARG_VALUE") == Some(-50);
  }

  lemma RoundTrip51(code: int)
    requires code == -51
    ensures CodeOfName(GetCLError(code).value) == Some(code)
  {
    assert CodeOfName("CL_INVALID_ARG_SIZE") == Some(-51);
  }

  lemma RoundTrip52(code: int)
    requires code == -52
    ensures CodeOfName(GetCLError(code).value) == Some(code)
  {
    assert CodeOfName("CL_INVALID_KERNEL_ARGS") == Some(-52);
  }

  lemma RoundTrip53(code: int)
    requires code == -53
    ensures CodeOfName(GetCLError(code).value) == Some(code)
  {
    assert CodeOfName("CL_INVALID_WORK_DIMENSION") == Some(-53);
  }

  lemma RoundTrip54(code: int)
    requires code == -54
    ensures CodeOfName(GetCLError(code).value) == Some(code)
  {
    assert CodeOfName("CL_INVALID_WORK_GROUP_SIZE") == Some(-54);
  }

  lemma RoundTrip55(code: int)
    requires code == -55
    ensures CodeOfName(GetCLError(code).value) == Some(code)
  {
    assert CodeOfName("CL_INVALID_WORK_ITEM_SIZE") == Some(-55);
  }

  lemma RoundTrip56(code: int)
    requires code == -56
    ensures CodeOfName(GetCLError(code).value) == Some(code)
  {
    assert CodeOfName("CL_INVALID_GLOBAL_OFFSET") == Some(-56);
  }

  lemma RoundTrip57(code: int)
    requires code == -57
    ensures CodeOfName(GetCLError(code).value) == Some(code)
  {
    assert CodeOfName("CL_INVALID_EVENT_WAIT_LIST") == Some(-57);
  }

  lemma RoundTrip58(code: int)
    requires code == -58
    ensures CodeOfName(GetCLError(code).value) == Some(code)
  {
    assert CodeOfName("CL_INVALID_EVENT") == Some(-58);
  }

  lemma RoundTrip59(code: int)
    requires code == -59
    ensures CodeOfName(GetCLError(code).value) == Some(code)
  {
    assert CodeOfName("CL_INVALID_OPERATION") == Some(-59);
  }

  lemma RoundTrip60(code: int)
    requires code == -60
    ensures CodeOfName(GetCLError(code).value) == Some(code)
  {
    assert CodeOfName("CL_INVALID_GL_OBJECT") == Some(-60);
  }

  lemma RoundTrip61(code: int)
    requires code == -61
    ensures CodeOfName(GetCLError(code).value) == Some(code)
  {
    assert CodeOfName("CL_INVALID_BUFFER_SIZE") == Some(-61);
  }

  lemma RoundTrip62(code: int)
    requires code == -62
    ensures CodeOfName(GetCLError(code).value) == Some(code)
  {
    assert CodeOfName("CL_INVALID_MIP_LEVEL") == Some(-62);
  }

  lemma RoundTrip63(code: int)
    requires code == -63
    ensures CodeOfName(GetCLError(code).value) == Some(code)
  {
    assert CodeOfName("CL_INVALID_GLOBAL_WORK_SIZE") == Some(-63);
  }

  lemma RoundTrip64(code: int)
    requires code == -64
    ensures CodeOfName(GetCLError(code).value) == Some(code)
  {
    assert CodeOfName("CL_INVALID_PROPERTY") == Some(-64);
  }

  lemma RoundTrip65(code: int)
    requires code == -65
    ensures CodeOfName(GetCLError(code).value) == Some(code)
  {
    assert CodeOfName("CL_INVALID_IMAGE_DESCRIPTOR") == Some(-65);
  }

  lemma RoundTrip66(code: int)
    requires code == -66
    ensures CodeOfName(GetCLError(code).value) == Some(code)
  {
    assert CodeOfName("CL_INVALID_COMPILER_OPTIONS") == Some(-66);
  }

  lemma RoundTrip67(code: int)
    requires code == -67
    ensures CodeOfName(GetCLError(code).value) == Some(code)
  {
    assert CodeOfName("CL_INVALID_LINKER_OPTIONS") == Some(-67);
  }

  lemma RoundTrip68(code: int)
    requires code == -68
    ensures CodeOfName(GetCLError(code).value) == Some(code)
  {
    assert CodeOfName("CL_INVALID_DEVICE_PARTITION_COUNT") == Some(-68);
  }

  lemma RoundTrip1000(code: int)
    requires code == -1000
    ensures CodeOfName(GetCLError(code).value) == Some(code)
  {
    assert CodeOfName("CL_INVALID_GL_SHAREGROUP_REFERENCE_KHR") == Some(-1000);
  }

  lemma RoundTrip1001(code: int)
    requires code == -1001
    ensures CodeOfName(GetCLError(code).value) == Some(code)
  {
    assert CodeOfName("CL_PLATFORM_NOT_FOUND_KHR") == Some(-1001);
  }

  lemma RoundTrip1002(code: int)
    requires code == -1002
    ensures CodeOfName(GetCLError(code).value) == Some(code)
  {
    assert CodeOfName("CL_INVALID_D3D10_DEVICE_KHR") == Some(-1002);
  }

  lemma RoundTrip1003(code: int)
    requires code == -1003
    ensures CodeOfName(GetCLError(code).value) == Some(code)
  {
    assert CodeOfName("CL_INVALID_D3D10_RESOURCE_KHR") == Some(-1003);
  }

  lemma RoundTrip1004(code: int)
    requires code == -1004
    ensures CodeOfName(GetCLError(code).value) == Some(code)
  {
    assert CodeOfName("CL_D3D10_RESOURCE_ALREADY_ACQUIRED_KHR") == Some(-1004);
  }

  lemma RoundTrip1005(code: int)
    requires code == -1005
    ensures CodeOfName(GetCLError(code).value) == Some(code)
  {
    assert CodeOfName("CL_D3D10_RESOURCE_NOT_ACQUIRED_KHR") == Some(-1005);
  }

  /** Distinct listed codes have distinct names. */
  lemma NamesDistinct(a: int, b: int)
    requires IsListed(a) && IsListed(b) && a != b
    ensures GetCLError(a) != GetCLError(b)
  {
    NameRoundTrip(a);
    NameRoundTrip(b);
  }

  /** A log line: the message and where `CL_ASSERT` was expanded. */
  datatype LogLine = LogLine(message: string, file: string, line: int)

  /** `logCLError`: a log line carrying the code's name exactly when the
      table names the code; nothing otherwise. */
  function LogCLError(code: int, file: string, line: int): (log: Option<LogLine>)
    ensures log.Some? <==> GetCLError(code).Some?
    ensures log.Some? ==> log.value == LogLine(GetCLError(code).value, file, line)
  {
    var errorMessage := GetCLError(code);
    if errorMessage.Some? then Some(LogLine(errorMessage.value, file, line)) else None
  }

  /** `CL_ASSERT` on `CL_SUCCESS` logs nothing, and neither does any code
      outside the table. */
  lemma SuccessLogsNothing(file: string, line: int)
    ensures LogCLError(0, file, line) == None
  {
  }
}
