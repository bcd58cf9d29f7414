/** The VkBufferCreateInfo chain, its struct and the vkCreateBuffer command. */
module BufferCreateInfo {

  // Two of the chain's structs are gated by extensions, the create-info has a
  // conditional array, and the command a submit wrapper.

  import opened Bits
  import opened Wrappers
  import opened LittleEndian
  import opened VenusEncoder
  import opened WireChain

  // Structure types: VK_STRUCTURE_TYPE_* of the Vulkan registry.
  const BUFFER_CREATE_INFO: u32 := 12
  const BUFFER_USAGE_FLAGS_2_CREATE_INFO: u32 := 1000470006
  const EXTERNAL_MEMORY_BUFFER_CREATE_INFO: u32 := 1000072000
  const BUFFER_OPAQUE_CAPTURE_ADDRESS_CREATE_INFO: u32 := 1000257002
  const BUFFER_DEVICE_ADDRESS_CREATE_INFO_EXT: u32 := 1000244002

  const SHARING_MODE_CONCURRENT: u32 := 1
  const COMMAND_TYPE_CREATE_BUFFER: u32 := 50
  /** VN_SUBMIT_LOCAL_CMD_SIZE */
  const LOCAL_CMD_SIZE: nat := 256

  datatype Extra =
    | UsageFlags2(usage: u64)
    | ExternalMemory(handleTypes: u32)
    | OpaqueCapture(opaqueAddress: u64)
    | DeviceAddress(deviceAddress: u64)
    | Unsupported(sType: u32)

  /** `queueFamilyIndices` is what pQueueFamilyIndices points to. */
  datatype Info = Info(chain: seq<Extra>, flags: u32, size: u64, usage: u32, sharingMode: u32,
                       queueFamilyIndexCount: u32, queueFamilyIndices: seq<u32>)

  /** With concurrent sharing the caller's array has as many indices as it says. */
  predicate ValidInfo(info: Info) {
    info.sharingMode == SHARING_MODE_CONCURRENT ==> |info.queueFamilyIndices| == info.queueFamilyIndexCount
  }

  /** Extensions the renderer protocol offers, by number. */
  type Gate = u32 -> bool

  function TypeOf(s: Extra): u32 {
    match s
    case UsageFlags2(_) => BUFFER_USAGE_FLAGS_2_CREATE_INFO
    case ExternalMemory(_) => EXTERNAL_MEMORY_BUFFER_CREATE_INFO
    case OpaqueCapture(_) => BUFFER_OPAQUE_CAPTURE_ADDRESS_CREATE_INFO
    case DeviceAddress(_) => BUFFER_DEVICE_ADDRESS_CREATE_INFO_EXT
    case Unsupported(t) => t
  }

  /** Known and not gated off. */
  predicate Known(has: Gate, s: Extra) {
    match s
    case UsageFlags2(_) => has(471)
    case DeviceAddress(_) => has(245)
    case Unsupported(_) => false
    case _ => true
  }

  function SelfSize(s: Extra): nat {
    match s
    case UsageFlags2(_) => 8
    case ExternalMemory(_) => 4
    case OpaqueCapture(_) => 8
    case DeviceAddress(_) => 8
    case Unsupported(_) => 0
  }

  function SelfWrites(s: Extra): seq<seq<u8>> {
    match s
    case UsageFlags2(usage) => [LE64(usage)]
    case ExternalMemory(handleTypes) => [LE32(handleTypes)]
    case OpaqueCapture(address) => [LE64(address)]
    case DeviceAddress(address) => [LE64(address)]
    case Unsupported(_) => []
  }

  function Chain(has: Gate): Kind<Extra> { Kind(s => Known(has, s), TypeOf, SelfSize, SelfWrites) }

  /** vn_sizeof_VkBufferCreateInfo_self */
  function OwnSize(info: Info): nat {
    4 + 8 + 4 + 4 + 4
    + if info.sharingMode == SHARING_MODE_CONCURRENT then 8 + 4 * info.queueFamilyIndexCount else 8
  }

  /** vn_encode_VkBufferCreateInfo_self */
  function OwnWrites(info: Info): seq<seq<u8>> {
    [LE32(info.flags), LE64(info.size), LE32(info.usage), LE32(info.sharingMode), LE32(info.queueFamilyIndexCount)]
    + if info.sharingMode == SHARING_MODE_CONCURRENT
      then [LE64(info.queueFamilyIndexCount), LE32Array(info.queueFamilyIndices)]
      else [LE64(0)]
  }

  function Size(has: Gate, info: Info): nat { InfoSize(Chain(has), info.chain, OwnSize(info)) }

  function Writes(has: Gate, info: Info): seq<seq<u8>> {
    InfoWrites(BUFFER_CREATE_INFO, Chain(has), info.chain, OwnWrites(info))
  }

  lemma SelfSizeAgrees(has: Gate, s: Extra)
    ensures SelfAgrees(Chain(has), s)
  {
    match s
    case UsageFlags2(v) => ConcatOne(LE64(v));
    case ExternalMemory(v) => ConcatOne(LE32(v));
    case OpaqueCapture(v) => ConcatOne(LE64(v));
    case DeviceAddress(v) => ConcatOne(LE64(v));
    case Unsupported(_) =>
  }

  lemma OwnSizeAgrees(info: Info)
    requires ValidInfo(info)
    ensures |Concat(OwnWrites(info))| == OwnSize(info)
  {
    var a, b, c, d, e := LE32(info.flags), LE64(info.size), LE32(info.usage), LE32(info.sharingMode),
      LE32(info.queueFamilyIndexCount);
    ConcatTwo(a, b);
    ConcatTwo(c, d);
    ConcatOne(e);
    ConcatAppend([a, b], [c, d]);
    ConcatAppend([a, b] + [c, d], [e]);
    assert [a, b] + [c, d] + [e] == [a, b, c, d, e];
    if info.sharingMode == SHARING_MODE_CONCURRENT {
      ConcatTwo(LE64(info.queueFamilyIndexCount), LE32Array(info.queueFamilyIndices));
      ConcatAppend([a, b, c, d, e], [LE64(info.queueFamilyIndexCount), LE32Array(info.queueFamilyIndices)]);
    } else {
      ConcatOne(LE64(0));
      ConcatAppend([a, b, c, d, e], [LE64(0)]);
    }
  }

  /** For every chain and every gating, sharing mode and array length. */
  lemma SizeCountsBytes(has: Gate, info: Info)
    requires ValidInfo(info)
    ensures |Concat(Writes(has, info))| == Size(has, info)
  {
    forall s | s in info.chain
      ensures SelfAgrees(Chain(has), s)
    {
      SelfSizeAgrees(has, s);
    }
    OwnSizeAgrees(info);
    InfoSizeIsWritten(BUFFER_CREATE_INFO, Chain(has), info.chain, OwnWrites(info), OwnSize(info));
  }

  function ReadExtra(t: u32, bytes: seq<u8>): Option<(Extra, nat)> {
    if t == BUFFER_USAGE_FLAGS_2_CREATE_INFO && |bytes| >= 8 then Some((UsageFlags2(Word64(bytes, 0)), 8))
    else if t == EXTERNAL_MEMORY_BUFFER_CREATE_INFO && |bytes| >= 4 then Some((ExternalMemory(Word(bytes, 0)), 4))
    else if t == BUFFER_OPAQUE_CAPTURE_ADDRESS_CREATE_INFO && |bytes| >= 8 then Some((OpaqueCapture(Word64(bytes, 0)), 8))
    else if t == BUFFER_DEVICE_ADDRESS_CREATE_INFO_EXT && |bytes| >= 8 then Some((DeviceAddress(Word64(bytes, 0)), 8))
    else None
  }

  lemma ExtraReadsBack(has: Gate, s: Extra)
    requires !s.Unsupported?
    ensures ReadsBack(Chain(has), ReadExtra, s)
  {
    SelfSizeAgrees(has, s);
    forall tail: seq<u8>
      ensures ReadExtra(TypeOf(s), Concat(SelfWrites(s)) + tail) == Some((s, |Concat(SelfWrites(s))|))
    {
      match s
      case UsageFlags2(v) => One64(v, tail);
      case ExternalMemory(v) => One32(v, tail);
      case OpaqueCapture(v) => One64(v, tail);
      case DeviceAddress(v) => One64(v, tail);
    }
  }

  /** The far end recovers exactly the structs that are known and not gated off. */
  lemma FarEndSeesKnownStructs(has: Gate, chain: seq<Extra>, tail: seq<u8>)
    ensures ReadChain(ReadExtra, Concat(ChainWrites(Chain(has), chain)) + tail) ==
            Some((Keep(Chain(has), chain), ChainSize(Chain(has), chain)))
  {
    forall s | s in chain && Known(has, s)
      ensures SelfAgrees(Chain(has), s) && ReadsBack(Chain(has), ReadExtra, s)
    {
      SelfSizeAgrees(has, s);
      ExtraReadsBack(has, s);
    }
    SizeIsWritten(Chain(has), chain);
    ChainRoundTrip(Chain(has), ReadExtra, chain, tail);
  }

  // ---- vkCreateBuffer --------------------------------------------------------------------------

  /** A call: `buffer` is the id stored at pBuffer, when pBuffer is given. The
      allocator is always null. */
  datatype Call = Call(flags: u32, device: u64, createInfo: Option<Info>, buffer: Option<u64>)

  predicate ValidCall(c: Call) { c.createInfo.Some? ==> ValidInfo(c.createInfo.value) }

  function PointerFlag<T>(p: Option<T>): u64 { if p.Some? then 1 else 0 }

  /** vn_sizeof_vkCreateBuffer */
  function CallSize(has: Gate, c: Call): nat {
    4 + 4 + 8 + 8 + (if c.createInfo.Some? then Size(has, c.createInfo.value) else 0)
    + 8 + 8 + (if c.buffer.Some? then 8 else 0)
  }

  function HeadWrites(c: Call): seq<seq<u8>> {
    [LE32(COMMAND_TYPE_CREATE_BUFFER), LE32(c.flags)] + [LE64(c.device), LE64(PointerFlag(c.createInfo))]
  }

  function InfoPart(has: Gate, c: Call): seq<seq<u8>> {
    if c.createInfo.Some? then Writes(has, c.createInfo.value) else []
  }

  function TailWrites(c: Call): seq<seq<u8>> {
    [LE64(0), LE64(PointerFlag(c.buffer))] + if c.buffer.Some? then [LE64(c.buffer.value)] else []
  }

  /** vn_encode_vkCreateBuffer */
  function CallWrites(has: Gate, c: Call): seq<seq<u8>> { HeadWrites(c) + (InfoPart(has, c) + TailWrites(c)) }

  lemma CallSizeCountsBytes(has: Gate, c: Call)
    requires ValidCall(c)
    ensures |Concat(CallWrites(has, c))| == CallSize(has, c)
  {
    ConcatTwo(LE32(COMMAND_TYPE_CREATE_BUFFER), LE32(c.flags));
    ConcatTwo(LE64(c.device), LE64(PointerFlag(c.createInfo)));
    ConcatAppend([LE32(COMMAND_TYPE_CREATE_BUFFER), LE32(c.flags)], [LE64(c.device), LE64(PointerFlag(c.createInfo))]);
    ConcatTwo(LE64(0), LE64(PointerFlag(c.buffer)));
    if c.createInfo.Some? { SizeCountsBytes(has, c.createInfo.value); }
    if c.buffer.Some? { ConcatOne(LE64(c.buffer.value)); }
    ConcatAppend([LE64(0), LE64(PointerFlag(c.buffer))], if c.buffer.Some? then [LE64(c.buffer.value)] else []);
    ConcatAppend(InfoPart(has, c), TailWrites(c));
    ConcatAppend(HeadWrites(c), InfoPart(has, c) + TailWrites(c));
  }

  method SizeOfCall(has: Gate, c: Call) returns (size: nat)
    requires ValidCall(c)
    ensures size == CallSize(has, c) == |Concat(CallWrites(has, c))|
  {
    size := 4 + 4;
    size := size + 8;
    size := size + 8;
    if c.createInfo.Some? {
      var chainSize := SizeOfChain(Chain(has), c.createInfo.value.chain);
      size := size + (4 + chainSize + OwnSize(c.createInfo.value));
    }
    size := size + 8;
    size := size + 8;
    if c.buffer.Some? { size := size + 8; }
    CallSizeCountsBytes(has, c);
  }

  method EncodeCall(has: Gate, enc: Encoder, c: Call)
    requires enc.Valid()
    modifies enc, enc.buf
    ensures enc.Valid() && enc.View() == PutAll(old(enc.View()), CallWrites(has, c))
  {
    enc.EncodeAll(HeadWrites(c));
    ghost var headed := enc.View();
    if c.createInfo.Some? {
      EncodeInfo(BUFFER_CREATE_INFO, Chain(has), enc, c.createInfo.value.chain, OwnWrites(c.createInfo.value));
    }
    enc.EncodeAll(TailWrites(c));
    PutAllAppend(headed, InfoPart(has, c), TailWrites(c));
    PutAllAppend(old(enc.View()), HeadWrites(c), InfoPart(has, c) + TailWrites(c));
  }

  /** vn_submit_vkCreateBuffer: a local buffer or one from malloc, of exactly the
      computed size. The encoder never overflows it and fills it exactly, so what
      is submitted is the whole command; nothing is submitted only when the
      command is larger than the local buffer and malloc fails. */
  method SubmitCreateBuffer(has: Gate, c: Call, mallocSucceeds: bool) returns (payload: Option<seq<u8>>)
    requires ValidCall(c)
    ensures payload == if CallSize(has, c) > LOCAL_CMD_SIZE && !mallocSucceeds then None
                       else Some(Concat(CallWrites(has, c)))
  {
    var cmdSize := SizeOfCall(has, c);
    if cmdSize > LOCAL_CMD_SIZE && !mallocSucceeds { cmdSize := 0; }
    if cmdSize == 0 { return None; }
    var cmdData := new u8[cmdSize];
    var enc := new Encoder(cmdData);
    EncodeCall(has, enc, c);
    PutAllExact(Fresh(cmdSize), CallWrites(has, c));
    assert Fresh(cmdSize).bytes + Concat(CallWrites(has, c)) == Concat(CallWrites(has, c));
    if enc.overflow || enc.pos == 0 { return None; }
    return Some(cmdData[..enc.pos]);
  }

  // ---- the far end reads the call back ---------------------------------------------------------

  function ReadWords(bytes: seq<u8>, n: nat): seq<u32>
    requires |bytes| >= 4 * n
  {
    if n == 0 then [] else [Word(bytes, 0)] + ReadWords(bytes[4..], n - 1)
  }

  /** The create-info's own fields, its chain left empty, and the bytes used. */
  function ReadOwn(bytes: seq<u8>): (r: Option<(Info, nat)>)
    ensures r.Some? ==> r.value.1 <= |bytes|
  {
    if |bytes| < 32 || |bytes| < 32 + 4 * Word64(bytes, 24) then None
    else
      var n := Word64(bytes, 24);
      Some((Info([], Word(bytes, 0), Word64(bytes, 4), Word(bytes, 12), Word(bytes, 16), Word(bytes, 20),
                 ReadWords(bytes[32..], n)), 32 + 4 * n))
  }

  function ReadInfo(bytes: seq<u8>): (r: Option<(Info, nat)>)
    ensures r.Some? ==> r.value.1 <= |bytes|
  {
    if |bytes| < 4 || Word(bytes, 0) != BUFFER_CREATE_INFO then None
    else ReadAfterChain(bytes, ReadChain(ReadExtra, bytes[4..]))
  }

  function ReadAfterChain(bytes: seq<u8>, chain: Option<(seq<Extra>, nat)>): (r: Option<(Info, nat)>)
    ensures r.Some? ==> r.value.1 <= |bytes|
  {
    if chain.None? || 4 + chain.value.1 > |bytes| then None
    else Join(chain.value.0, 4 + chain.value.1, ReadOwn(bytes[4 + chain.value.1..]))
  }

  function Join(chain: seq<Extra>, n: nat, own: Option<(Info, nat)>): Option<(Info, nat)> {
    if own.None? then None else Some((own.value.0.(chain := chain), n + own.value.1))
  }

  function ReadTail(bytes: seq<u8>): Option<Option<u64>> {
    if |bytes| < 16 || Word64(bytes, 0) != 0 then None
    else if Word64(bytes, 8) == 0 then Some(None)
    else if |bytes| < 24 then None
    else Some(Some(Word64(bytes, 16)))
  }

  function ReadCall(bytes: seq<u8>): Option<Call> {
    if |bytes| < 24 || Word(bytes, 0) != COMMAND_TYPE_CREATE_BUFFER then None
    else if Word64(bytes, 16) == 0 then
      match ReadTail(bytes[24..])
      case None => None
      case Some(buffer) => Some(Call(Word(bytes, 4), Word64(bytes, 8), None, buffer))
    else match ReadInfo(bytes[24..])
      case None => None
      case Some((info, n)) =>
        match ReadTail(bytes[24 + n..])
        case None => None
        case Some(buffer) => Some(Call(Word(bytes, 4), Word64(bytes, 8), Some(info), buffer))
  }

  /** What of a create-info's own fields reaches the far end: the queue families
      only when sharing is concurrent. */
  function OwnFields(info: Info): Info {
    info.(chain := [],
          queueFamilyIndices := if info.sharingMode == SHARING_MODE_CONCURRENT then info.queueFamilyIndices else [])
  }

  /** ... and of the whole: its own fields and the known structs. */
  function Sent(has: Gate, info: Info): Info { OwnFields(info).(chain := Keep(Chain(has), info.chain)) }

  lemma {:induction false} WordsReadBack(values: seq<u32>, tail: seq<u8>)
    ensures ReadWords(LE32Array(values) + tail, |values|) == values
    decreases |values|
  {
    if values != [] {
      var bytes := LE32Array(values) + tail;
      assert bytes[0..4] == LE32(values[0]);
      WordOfLE32(bytes, 0, values[0]);
      assert bytes[4..] == LE32Array(values[1..]) + tail;
      WordsReadBack(values[1..], tail);
    }
  }

  lemma OwnBytes(info: Info)
    requires ValidInfo(info)
    ensures var sent := if info.sharingMode == SHARING_MODE_CONCURRENT then info.queueFamilyIndices else [];
      Concat(OwnWrites(info)) == LE32(info.flags) + LE64(info.size) + LE32(info.usage) + LE32(info.sharingMode)
                                 + LE32(info.queueFamilyIndexCount) + LE64(|sent|) + LE32Array(sent)
  {
    var a, b, c, d, e := LE32(info.flags), LE64(info.size), LE32(info.usage), LE32(info.sharingMode),
      LE32(info.queueFamilyIndexCount);
    ConcatTwo(a, b);
    ConcatTwo(c, d);
    ConcatOne(e);
    ConcatAppend([a, b], [c, d]);
    ConcatAppend([a, b] + [c, d], [e]);
    assert [a, b] + [c, d] + [e] == [a, b, c, d, e];
    if info.sharingMode == SHARING_MODE_CONCURRENT {
      ConcatTwo(LE64(info.queueFamilyIndexCount), LE32Array(info.queueFamilyIndices));
      ConcatAppend([a, b, c, d, e], [LE64(info.queueFamilyIndexCount), LE32Array(info.queueFamilyIndices)]);
    } else {
      ConcatOne(LE64(0));
      ConcatAppend([a, b, c, d, e], [LE64(0)]);
    }
  }

  /** Six scalars one after the other. */
  lemma SixScalars(a: u32, b: u64, c: u32, d: u32, e: u32, n: u64, rest: seq<u8>)
    ensures var bytes := LE32(a) + LE64(b) + LE32(c) + LE32(d) + LE32(e) + LE64(n) + rest;
      && Word(bytes, 0) == a && Word64(bytes, 4) == b && Word(bytes, 12) == c
      && Word(bytes, 16) == d && Word(bytes, 20) == e && Word64(bytes, 24) == n && bytes[32..] == rest
  {
    var bytes := LE32(a) + LE64(b) + LE32(c) + LE32(d) + LE32(e) + LE64(n) + rest;
    assert bytes[0..4] == LE32(a) && bytes[4..12] == LE64(b) && bytes[12..16] == LE32(c);
    assert bytes[16..20] == LE32(d) && bytes[20..24] == LE32(e) && bytes[24..32] == LE64(n);
    WordOfLE32(bytes, 0, a);
    WordOfLE64(bytes, 4, b);
    WordOfLE32(bytes, 12, c);
    WordOfLE32(bytes, 16, d);
    WordOfLE32(bytes, 20, e);
    WordOfLE64(bytes, 24, n);
  }

  lemma OwnReadsBack(info: Info, tail: seq<u8>)
    requires ValidInfo(info)
    ensures ReadOwn(Concat(OwnWrites(info)) + tail) ==
            Some((OwnFields(info), |Concat(OwnWrites(info))|))
  {
    var sent := if info.sharingMode == SHARING_MODE_CONCURRENT then info.queueFamilyIndices else [];
    OwnBytes(info);
    var head := LE32(info.flags) + LE64(info.size) + LE32(info.usage) + LE32(info.sharingMode)
                + LE32(info.queueFamilyIndexCount) + LE64(|sent|);
    assert head + LE32Array(sent) + tail == head + (LE32Array(sent) + tail);
    SixScalars(info.flags, info.size, info.usage, info.sharingMode, info.queueFamilyIndexCount, |sent|,
               LE32Array(sent) + tail);
    WordsReadBack(sent, tail);
  }

  lemma InfoReadsBack(has: Gate, info: Info, tail: seq<u8>)
    requires ValidInfo(info)
    ensures ReadInfo(Concat(Writes(has, info)) + tail) == Some((Sent(has, info), |Concat(Writes(has, info))|))
  {
    InfoBytes(has, info, tail);
    var bytes := Concat(Writes(has, info)) + tail;
    var result := ReadChain(ReadExtra, bytes[4..]);
    assert ReadInfo(bytes) == ReadAfterChain(bytes, result);
    ChainPartReadsBack(has, info, tail);
    OwnPartReadsBack(has, info, tail);
  }

  lemma ChainPartReadsBack(has: Gate, info: Info, tail: seq<u8>)
    ensures ReadChain(ReadExtra, (Concat(Writes(has, info)) + tail)[4..]) ==
            Some((Keep(Chain(has), info.chain), |Concat(ChainWrites(Chain(has), info.chain))|))
  {
    InfoBytes(has, info, tail);
    FarEndSeesKnownStructs(has, info.chain, Concat(OwnWrites(info)) + tail);
    ChainLength(has, info.chain);
  }

  lemma OwnPartReadsBack(has: Gate, info: Info, tail: seq<u8>)
    requires ValidInfo(info)
    ensures var bytes := Concat(Writes(has, info)) + tail;
      var n := |Concat(ChainWrites(Chain(has), info.chain))|;
      && |bytes| >= 4 + n
      && ReadAfterChain(bytes, Some((Keep(Chain(has), info.chain), n))) ==
         Some((Sent(has, info), |Concat(Writes(has, info))|))
  {
    hide ReadOwn, OwnWrites, Concat;
    InfoBytes(has, info, tail);
    OwnReadsBack(info, tail);
    JoinAt(Concat(Writes(has, info)) + tail, Keep(Chain(has), info.chain),
           |Concat(ChainWrites(Chain(has), info.chain))|, Concat(OwnWrites(info)) + tail,
           Some((OwnFields(info), |Concat(OwnWrites(info))|)));
  }

  lemma JoinAt(bytes: seq<u8>, chain: seq<Extra>, n: nat, fromOwn: seq<u8>, own: Option<(Info, nat)>)
    requires 4 + n <= |bytes| && bytes[4 + n..] == fromOwn && ReadOwn(fromOwn) == own
    ensures ReadAfterChain(bytes, Some((chain, n))) == Join(chain, 4 + n, own)
  {
  }

  lemma InfoBytes(has: Gate, info: Info, tail: seq<u8>)
    ensures var chain, own := Concat(ChainWrites(Chain(has), info.chain)), Concat(OwnWrites(info));
      var bytes := Concat(Writes(has, info)) + tail;
      && |Concat(Writes(has, info))| == 4 + |chain| + |own|
      && Word(bytes, 0) == BUFFER_CREATE_INFO
      && bytes[4..] == chain + (own + tail) && bytes[4 + |chain|..] == own + tail
  {
    var chain, own := Concat(ChainWrites(Chain(has), info.chain)), Concat(OwnWrites(info));
    ConcatOne(LE32(BUFFER_CREATE_INFO));
    ConcatAppend(ChainWrites(Chain(has), info.chain), OwnWrites(info));
    ConcatAppend([LE32(BUFFER_CREATE_INFO)], ChainWrites(Chain(has), info.chain) + OwnWrites(info));
    var bytes := LE32(BUFFER_CREATE_INFO) + (chain + own) + tail;
    assert bytes[0..4] == LE32(BUFFER_CREATE_INFO);
    WordOfLE32(bytes, 0, BUFFER_CREATE_INFO);
    SplitBytes(LE32(BUFFER_CREATE_INFO), chain, own, tail);
  }

  lemma ChainLength(has: Gate, chain: seq<Extra>)
    ensures |Concat(ChainWrites(Chain(has), chain))| == ChainSize(Chain(has), chain)
  {
    forall s | s in chain
      ensures SelfAgrees(Chain(has), s)
    {
      SelfSizeAgrees(has, s);
    }
    SizeIsWritten(Chain(has), chain);
  }

  lemma TailReadsBack(c: Call)
    ensures ReadTail(Concat(TailWrites(c))) == Some(c.buffer)
  {
    var flag := PointerFlag(c.buffer);
    ConcatTwo(LE64(0), LE64(flag));
    if c.buffer.Some? { ConcatOne(LE64(c.buffer.value)); }
    ConcatAppend([LE64(0), LE64(flag)], if c.buffer.Some? then [LE64(c.buffer.value)] else []);
    var bytes := Concat(TailWrites(c));
    assert bytes[0..8] == LE64(0) && bytes[8..16] == LE64(flag);
    WordOfLE64(bytes, 0, 0);
    WordOfLE64(bytes, 8, flag);
    if c.buffer.Some? {
      assert bytes[16..24] == LE64(c.buffer.value);
      WordOfLE64(bytes, 16, c.buffer.value);
    }
  }

  lemma HeadReadsBack(c: Call, rest: seq<u8>)
    ensures var bytes := Concat(HeadWrites(c)) + rest;
      && |bytes| == 24 + |rest| && bytes[24..] == rest
      && Word(bytes, 0) == COMMAND_TYPE_CREATE_BUFFER && Word(bytes, 4) == c.flags
      && Word64(bytes, 8) == c.device && Word64(bytes, 16) == PointerFlag(c.createInfo)
  {
    var a, b, d, p := LE32(COMMAND_TYPE_CREATE_BUFFER), LE32(c.flags), LE64(c.device), LE64(PointerFlag(c.createInfo));
    ConcatTwo(a, b);
    ConcatTwo(d, p);
    ConcatAppend([a, b], [d, p]);
    var bytes := a + b + (d + p) + rest;
    assert bytes[0..4] == a;
    assert bytes[4..8] == b;
    assert bytes[8..16] == d;
    assert bytes[16..24] == p;
    WordOfLE32(bytes, 0, COMMAND_TYPE_CREATE_BUFFER);
    WordOfLE32(bytes, 4, c.flags);
    WordOfLE64(bytes, 8, c.device);
    WordOfLE64(bytes, 16, PointerFlag(c.createInfo));
  }

  /** Round trip of the whole command: from the submitted bytes the far end
      recovers the call, its create-info less what the encoder skips. */
  lemma CallRoundTrip(has: Gate, c: Call)
    requires ValidCall(c)
    ensures ReadCall(Concat(CallWrites(has, c))) ==
            Some(c.(createInfo := if c.createInfo.Some? then Some(Sent(has, c.createInfo.value)) else None))
  {
    var info, end := Concat(InfoPart(has, c)), Concat(TailWrites(c));
    ConcatAppend(InfoPart(has, c), TailWrites(c));
    ConcatAppend(HeadWrites(c), InfoPart(has, c) + TailWrites(c));
    HeadReadsBack(c, info + end);
    TailReadsBack(c);
    var bytes := Concat(CallWrites(has, c));
    assert bytes[24 + |info|..] == end;
    if c.createInfo.Some? {
      InfoReadsBack(has, c.createInfo.value, end);
    } else {
      assert info + end == end;
    }
  }
}
