/** The VkMemoryAllocateInfo chain: five known structs, everything else skipped.
    The first and simplest use of the chain walkers, with every struct's fields
    read back at the far end. */
module MemoryAllocateInfo {
  import opened Bits
  import opened Wrappers
  import opened LittleEndian
  import opened VenusEncoder
  import opened WireChain

  // Structure types: VK_STRUCTURE_TYPE_* of the Vulkan registry; the last one is
  // the protocol's own.
  const MEMORY_ALLOCATE_INFO: u32 := 5
  const EXPORT_MEMORY_ALLOCATE_INFO: u32 := 1000072002
  const MEMORY_ALLOCATE_FLAGS_INFO: u32 := 1000060000
  const MEMORY_DEDICATED_ALLOCATE_INFO: u32 := 1000127001
  const MEMORY_OPAQUE_CAPTURE_ADDRESS_ALLOCATE_INFO: u32 := 1000257003
  const IMPORT_MEMORY_RESOURCE_INFO_MESA: u32 := 1000384002

  /** What can hang off pNext. `Unsupported` is any other type, file-descriptor
      imports included. */
  datatype Extra =
    | ExportMemory(handleTypes: u32)
    | AllocateFlags(flags: u32, deviceMask: u32)
    | Dedicated(image: u64, buffer: u64)
    | OpaqueCapture(address: u64)
    | ImportResource(resourceId: u32)
    | Unsupported(sType: u32)

  datatype Info = Info(chain: seq<Extra>, allocationSize: u64, memoryTypeIndex: u32)

  predicate Known(s: Extra) { !s.Unsupported? }

  function TypeOf(s: Extra): u32 {
    match s
    case ExportMemory(_) => EXPORT_MEMORY_ALLOCATE_INFO
    case AllocateFlags(_, _) => MEMORY_ALLOCATE_FLAGS_INFO
    case Dedicated(_, _) => MEMORY_DEDICATED_ALLOCATE_INFO
    case OpaqueCapture(_) => MEMORY_OPAQUE_CAPTURE_ADDRESS_ALLOCATE_INFO
    case ImportResource(_) => IMPORT_MEMORY_RESOURCE_INFO_MESA
    case Unsupported(t) => t
  }

  /** The vn_sizeof_*_self functions */
  function SelfSize(s: Extra): nat {
    match s
    case ExportMemory(_) => 4
    case AllocateFlags(_, _) => 4 + 4
    case Dedicated(_, _) => 8 + 8
    case OpaqueCapture(_) => 8
    case ImportResource(_) => 4
    case Unsupported(_) => 0
  }

  /** The vn_encode_*_self functions */
  function SelfWrites(s: Extra): seq<seq<u8>> {
    match s
    case ExportMemory(handleTypes) => [LE32(handleTypes)]
    case AllocateFlags(flags, deviceMask) => [LE32(flags), LE32(deviceMask)]
    case Dedicated(image, buffer) => [LE64(image), LE64(buffer)]
    case OpaqueCapture(address) => [LE64(address)]
    case ImportResource(resourceId) => [LE32(resourceId)]
    case Unsupported(_) => []
  }

  function Chain(): Kind<Extra> { Kind(Known, TypeOf, SelfSize, SelfWrites) }

  function OwnWrites(info: Info): seq<seq<u8>> { [LE64(info.allocationSize), LE32(info.memoryTypeIndex)] }

  /** vn_sizeof_VkMemoryAllocateInfo */
  function Size(info: Info): nat { InfoSize(Chain(), info.chain, 8 + 4) }

  /** vn_encode_VkMemoryAllocateInfo */
  function Writes(info: Info): seq<seq<u8>> {
    InfoWrites(MEMORY_ALLOCATE_INFO, Chain(), info.chain, OwnWrites(info))
  }

  lemma SelfSizeAgrees(s: Extra)
    requires Known(s)
    ensures SelfAgrees(Chain(), s)
  {
    match s
    case ExportMemory(v) => ConcatOne(LE32(v));
    case AllocateFlags(a, b) => ConcatTwo(LE32(a), LE32(b));
    case Dedicated(a, b) => ConcatTwo(LE64(a), LE64(b));
    case OpaqueCapture(v) => ConcatOne(LE64(v));
    case ImportResource(v) => ConcatOne(LE32(v));
  }

  /** The size function counts exactly the bytes encoded. */
  lemma SizeCountsBytes(info: Info)
    ensures |Concat(Writes(info))| == Size(info)
  {
    forall s | s in info.chain && Known(s)
      ensures SelfAgrees(Chain(), s)
    {
      SelfSizeAgrees(s);
    }
    ConcatTwo(LE64(info.allocationSize), LE32(info.memoryTypeIndex));
    InfoSizeIsWritten(MEMORY_ALLOCATE_INFO, Chain(), info.chain, OwnWrites(info), 8 + 4);
  }

  /** How the far end reads a struct of this chain. */
  function ReadExtra(t: u32, bytes: seq<u8>): Option<(Extra, nat)> {
    if t == EXPORT_MEMORY_ALLOCATE_INFO && |bytes| >= 4 then Some((ExportMemory(Word(bytes, 0)), 4))
    else if t == MEMORY_ALLOCATE_FLAGS_INFO && |bytes| >= 8 then Some((AllocateFlags(Word(bytes, 0), Word(bytes, 4)), 8))
    else if t == MEMORY_DEDICATED_ALLOCATE_INFO && |bytes| >= 16 then
      Some((Dedicated(Word64(bytes, 0), Word64(bytes, 8)), 16))
    else if t == MEMORY_OPAQUE_CAPTURE_ADDRESS_ALLOCATE_INFO && |bytes| >= 8 then
      Some((OpaqueCapture(Word64(bytes, 0)), 8))
    else if t == IMPORT_MEMORY_RESOURCE_INFO_MESA && |bytes| >= 4 then Some((ImportResource(Word(bytes, 0)), 4))
    else None
  }

  lemma ExtraReadsBack(s: Extra)
    requires Known(s)
    ensures ReadsBack(Chain(), ReadExtra, s)
  {
    SelfSizeAgrees(s);
    forall tail: seq<u8>
      ensures ReadExtra(TypeOf(s), Concat(SelfWrites(s)) + tail) == Some((s, |Concat(SelfWrites(s))|))
    {
      match s
      case ExportMemory(v) => One32(v, tail);
      case AllocateFlags(a, b) => Two32(a, b, tail);
      case Dedicated(a, b) => Two64(a, b, tail);
      case OpaqueCapture(v) => One64(v, tail);
      case ImportResource(v) => One32(v, tail);
    }
  }

  /** Whatever chain is passed, the far end recovers its known structs with all
      their fields, in order, and nothing else. */
  lemma FarEndSeesKnownStructs(chain: seq<Extra>, tail: seq<u8>)
    ensures ReadChain(ReadExtra, Concat(ChainWrites(Chain(), chain)) + tail) ==
            Some((Keep(Chain(), chain), ChainSize(Chain(), chain)))
  {
    forall s | s in chain && Known(s)
      ensures SelfAgrees(Chain(), s) && ReadsBack(Chain(), ReadExtra, s)
    {
      SelfSizeAgrees(s);
      ExtraReadsBack(s);
    }
    SizeIsWritten(Chain(), chain);
    ChainRoundTrip(Chain(), ReadExtra, chain, tail);
  }

  /** vn_sizeof_VkMemoryAllocateInfo */
  method SizeOf(info: Info) returns (size: nat)
    ensures size == |Concat(Writes(info))|
  {
    size := 4;
    var chainSize := SizeOfChain(Chain(), info.chain);
    size := size + chainSize + (8 + 4);
    SizeCountsBytes(info);
  }

  /** vn_encode_VkMemoryAllocateInfo */
  method Encode(enc: Encoder, info: Info)
    requires enc.Valid()
    modifies enc, enc.buf
    ensures enc.Valid() && enc.View() == PutAll(old(enc.View()), Writes(info))
  {
    EncodeInfo(MEMORY_ALLOCATE_INFO, Chain(), enc, info.chain, OwnWrites(info));
  }
}
