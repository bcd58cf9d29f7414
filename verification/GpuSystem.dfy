/** The VirtIO-GPU driver's tables and the host's, driven by the same commands. */
module GpuSystem {

  // Resource slots, contexts, and blobs with their windows in the host-visible
  // region. A control command is answered by the host with 0 or a negative
  // errno; the host executes it exactly when it answers 0.

  import opened Bits
  import opened Errno
  import opened Wrappers

  const MAX_RESOURCES: nat := 128
  const MAX_CONTEXTS: nat := 32

  const BLOB_MEM_GUEST: u32 := 1
  const BLOB_MEM_HOST3D: u32 := 2
  const BLOB_MEM_HOST3D_GUEST: u32 := 3
  const BLOB_FLAG_USE_MAPPABLE: u32 := 1
  const DEFAULT_ALIGNMENT: nat := 4096

  /** What feature negotiation settled. `blobAlignment` is 0 when the feature is
      absent, `windowBase` is 0 when there is no host-visible region. */
  datatype Config = Config(virgl: bool, resourceBlob: bool, contextInit: bool, capsets: set<u32>,
                           blobAlignment: u32, windowBase: u64, windowSize: u64)

  datatype Slot = Slot(id: u32, live: bool, is3d: bool, isBlob: bool, mapped: bool,
                       size: u64, mem: u32, flags: u32, mapInfo: u32, blobId: u64, offset: u64)
  const ZERO_SLOT := Slot(0, false, false, false, false, 0, 0, 0, 0, 0, 0)

  datatype Context = Context(id: u32, capset: u32, live: bool)
  const ZERO_CONTEXT := Context(0, 0, false)

  datatype Device = Device(cfg: Config, resources: seq<Slot>, contexts: seq<Context>,
                           nextRes: u32, nextCtx: u32, nextOffset: u64)

  /** The host's resources, each with the window offset it is mapped at, if any. */
  datatype Host = Host(resources: map<u32, Option<u64>>, contexts: set<u32>)

  datatype System = System(dev: Device, host: Host)

  /** The caller's record of a blob, and of a context. */
  datatype Blob = Blob(resourceId: u32, mem: u32, flags: u32, mapInfo: u32, blobId: u64, size: u64,
                       offset: u64, mappedAddr: u64, mappedSize: u64, created: bool, mapped: bool)
  const ZERO_BLOB := Blob(0, 0, 0, 0, 0, 0, 0, 0, 0, false, false)

  datatype ContextRecord = ContextRecord(id: u32, capset: u32, created: bool)

  /** A call's new state, the caller's updated record and the return code. */
  datatype Outcome<T> = Outcome(sys: System, record: T, rc: int)

  // ---- the slot tables -------------------------------------------------------

  predicate Matches(s: Slot, id: u32) { s.live && s.id == id }

  /** find_res: the first live slot with this id. */
  function FindFrom(res: seq<Slot>, id: u32, from: nat): (r: Option<nat>)
    requires from <= |res|
    ensures r.Some? ==> from <= r.value < |res| && Matches(res[r.value], id)
                        && forall k :: from <= k < r.value ==> !Matches(res[k], id)
    ensures r.None? ==> forall k :: from <= k < |res| ==> !Matches(res[k], id)
    decreases |res| - from
  {
    if from == |res| then None
    else if Matches(res[from], id) then Some(from)
    else FindFrom(res, id, from + 1)
  }

  function FindRes(res: seq<Slot>, id: u32): Option<nat> {
    if id == 0 then None else FindFrom(res, id, 0)
  }

  /** alloc_res: the first slot that is not live. */
  function FreeFrom(res: seq<Slot>, from: nat): (r: Option<nat>)
    requires from <= |res|
    ensures r.Some? ==> from <= r.value < |res| && !res[r.value].live
                        && forall k :: from <= k < r.value ==> res[k].live
    ensures r.None? ==> forall k :: from <= k < |res| ==> res[k].live
    decreases |res| - from
  {
    if from == |res| then None
    else if !res[from].live then Some(from)
    else FreeFrom(res, from + 1)
  }

  function FindCtxFrom(ctxs: seq<Context>, id: u32, from: nat): (r: Option<nat>)
    requires from <= |ctxs|
    ensures r.Some? ==> from <= r.value < |ctxs| && ctxs[r.value].live && ctxs[r.value].id == id
    ensures r.None? ==> forall k :: from <= k < |ctxs| && ctxs[k].live ==> ctxs[k].id != id
    decreases |ctxs| - from
  {
    if from == |ctxs| then None
    else if ctxs[from].live && ctxs[from].id == id then Some(from)
    else FindCtxFrom(ctxs, id, from + 1)
  }

  function FindCtx(ctxs: seq<Context>, id: u32): Option<nat> {
    if id == 0 then None else FindCtxFrom(ctxs, id, 0)
  }

  function FreeCtxFrom(ctxs: seq<Context>, from: nat): (r: Option<nat>)
    requires from <= |ctxs|
    ensures r.Some? ==> from <= r.value < |ctxs| && !ctxs[r.value].live
                        && forall k :: from <= k < r.value ==> ctxs[k].live
    ensures r.None? ==> forall k :: from <= k < |ctxs| ==> ctxs[k].live
    decreases |ctxs| - from
  {
    if from == |ctxs| then None
    else if !ctxs[from].live then Some(from)
    else FreeCtxFrom(ctxs, from + 1)
  }

  function SetSlot(s: System, i: nat, slot: Slot): System
    requires i < |s.dev.resources|
  {
    s.(dev := s.dev.(resources := s.dev.resources[i := slot]))
  }

  // ---- alignment ---------------------------------------------------------------

  /** The value of blob_alignment after probing: the device's own if it can be
      read and is a power of two, page alignment otherwise. */
  function NegotiatedAlignment(feature: bool, readable: bool, value: u32): u32 {
    if !feature then 0
    else if !readable || value == 0 || And(value, value - 1) != 0 then DEFAULT_ALIGNMENT
    else value
  }

  function Alignment(cfg: Config): nat {
    if cfg.blobAlignment != 0 then cfg.blobAlignment else DEFAULT_ALIGNMENT
  }

  /** The size a blob gets: rounded up with a mask, None on 64-bit overflow. */
  function AlignedSize(cfg: Config, size: u64): Option<u64> {
    var align := Alignment(cfg);
    if size + (align - 1) >= U64 then None
    else
      AndAtMost(size + (align - 1), U64 - align);
      var rounded := And(size + (align - 1), U64 - align);
      Some(if rounded == 0 then align else rounded)
  }

  ghost predicate GoodConfig(cfg: Config) {
    && IsPow2(Alignment(cfg))
    && (cfg.windowBase != 0 ==> cfg.windowBase + cfg.windowSize < U64)
  }

  // ---- resources ---------------------------------------------------------------

  /** Take a free slot for a new resource and ask the host to create it. */
  function BlobCreate(s: System, size: u64, mem: u32, flags: u32, blobId: u64, blob: Blob, answer: int): Outcome<Blob> {
    if size == 0 || blob.created then Outcome(s, blob, EINVAL)
    else if !s.dev.cfg.resourceBlob then Outcome(s, blob, ENOTSUP)
    else if mem != BLOB_MEM_GUEST && mem != BLOB_MEM_HOST3D && mem != BLOB_MEM_HOST3D_GUEST then Outcome(s, blob, EINVAL)
    else
      match AlignedSize(s.dev.cfg, size)
      case None => Outcome(s, blob, EOVERFLOW)
      case Some(aligned) =>
        match FreeFrom(s.dev.resources, 0)
        case None => Outcome(s, blob, ENOMEM)
        case Some(i) =>
          var id, offset := s.dev.nextRes, s.dev.nextOffset;
          var tried := SetSlot(s, i, ZERO_SLOT);
          var s1 := tried.(dev := tried.dev.(nextRes := (id + 1) % U32));
          if answer != 0 then Outcome(s1, blob, answer)
          else
            var s2 := s1.(host := s1.host.(resources := s1.host.resources[id := None]));
            if offset + aligned >= U64 then Outcome(s2, blob, EOVERFLOW)
            else
              var slot := Slot(id, true, true, true, false, aligned, mem, flags, 0, blobId, offset);
              var s3 := SetSlot(s2, i, slot);
              Outcome(s3.(dev := s3.dev.(nextOffset := offset + aligned)),
                      Blob(id, mem, flags, 0, blobId, aligned, offset, 0, 0, true, false), 0)
  }

  /** resource_create_2d and resource_create_3d, as far as the tables go. */
  function PlainCreate(s: System, is3d: bool, size: u64, answer: int): (System, int) {
    match FreeFrom(s.dev.resources, 0)
    case None => (s, ENOMEM)
    case Some(i) =>
      var id := s.dev.nextRes;
      var slot := if answer != 0 then ZERO_SLOT else ZERO_SLOT.(id := id, live := true, is3d := is3d, size := size);
      var s1 := SetSlot(s, i, slot);
      var s2 := s1.(dev := s1.dev.(nextRes := (id + 1) % U32));
      if answer != 0 then (s2, answer)
      else (s2.(host := s2.host.(resources := s2.host.resources[id := None])), 0)
  }

  predicate Mappable(flags: u32) { And(flags, BLOB_FLAG_USE_MAPPABLE) != 0 }

  function BlobUnmap(s: System, blob: Blob, answer: int): Outcome<Blob> {
    match FindRes(s.dev.resources, blob.resourceId)
    case None => Outcome(s, blob, EINVAL)
    case Some(i) =>
      var slot := s.dev.resources[i];
      if !slot.isBlob || !slot.mapped then Outcome(s, blob, EINVAL)
      else if answer != 0 then Outcome(s, blob, answer)
      else
        var s1 := SetSlot(s, i, slot.(mapped := false));
        Outcome(s1.(host := s1.host.(resources := s1.host.resources[blob.resourceId := None])),
                blob.(mapped := false, mappedAddr := 0, mappedSize := 0), 0)
  }

  /** A mapping the guest cannot address is undone, with its own host command. */
  function BlobMap(s: System, blob: Blob, answer: int, mapInfo: u32, undoAnswer: int): Outcome<Blob> {
    match FindRes(s.dev.resources, blob.resourceId)
    case None => Outcome(s, blob, EINVAL)
    case Some(i) =>
      var slot := s.dev.resources[i];
      var cfg := s.dev.cfg;
      if !slot.isBlob || slot.mapped || !blob.created then Outcome(s, blob, EINVAL)
      else if !Mappable(blob.flags) then Outcome(s, blob, EINVAL)
      else if answer != 0 then Outcome(s, blob, answer)
      else
        var s1 := SetSlot(s, i, slot.(mapped := true, mapInfo := mapInfo));
        var s2 := s1.(host := s1.host.(resources := s1.host.resources[blob.resourceId := Some(slot.offset)]));
        var b1 := blob.(mapInfo := mapInfo, offset := slot.offset, mappedSize := blob.size, mapped := true);
        if cfg.windowBase != 0 && (slot.offset + blob.size) % U64 <= cfg.windowSize then
          Outcome(s2, b1.(mappedAddr := (cfg.windowBase + slot.offset) % U64), 0)
        else
          var undo := BlobUnmap(s2, b1, undoAnswer);
          Outcome(undo.sys, undo.record, ENOTSUP)
  }

  function Unref(s: System, id: u32, answer: int): (System, int) {
    match FindRes(s.dev.resources, id)
    case None => (s, EINVAL)
    case Some(i) =>
      if answer != 0 then (s, answer)
      else
        var s1 := SetSlot(s, i, ZERO_SLOT);
        (s1.(host := s1.host.(resources := s1.host.resources - {id})), 0)
  }

  function BlobDestroy(s: System, blob: Blob, answer: int): Outcome<Blob> {
    if !blob.created || blob.mapped then Outcome(s, blob, EINVAL)
    else
      var (s1, rc) := Unref(s, blob.resourceId, answer);
      if rc != 0 then Outcome(s1, blob, EINVAL) else Outcome(s1, ZERO_BLOB, 0)
  }

  // ---- contexts ----------------------------------------------------------------

  function ContextCreate(s: System, capset: u32, ctx: ContextRecord, answer: int): Outcome<ContextRecord> {
    if capset == 0 then Outcome(s, ctx, EINVAL)
    else if !s.dev.cfg.virgl then Outcome(s, ctx, ENOTSUP)
    else if s.dev.cfg.contextInit && capset !in s.dev.cfg.capsets then Outcome(s, ctx, EINVAL)
    else
      match FreeCtxFrom(s.dev.contexts, 0)
      case None => Outcome(s, ctx, ENOMEM)
      case Some(i) =>
        var id := s.dev.nextCtx;
        var d1 := s.dev.(nextCtx := (id + 1) % U32);
        if answer != 0 then Outcome(s.(dev := d1.(contexts := d1.contexts[i := ZERO_CONTEXT])), ctx, answer)
        else
          Outcome(System(d1.(contexts := d1.contexts[i := Context(id, capset, true)]),
                         s.host.(contexts := s.host.contexts + {id})),
                  ContextRecord(id, capset, true), 0)
  }

  function ContextDestroy(s: System, ctx: ContextRecord, answer: int): Outcome<ContextRecord> {
    match FindCtx(s.dev.contexts, ctx.id)
    case None => Outcome(s, ctx, EINVAL)
    case Some(i) =>
      if answer != 0 then Outcome(s, ctx, answer)
      else
        Outcome(System(s.dev.(contexts := s.dev.contexts[i := ZERO_CONTEXT]),
                       s.host.(contexts := s.host.contexts - {s.dev.contexts[i].id})),
                ctx.(created := false), 0)
  }

  /** CTX_ATTACH_RESOURCE and CTX_DETACH_RESOURCE change no table of the guest. */
  function ContextResource(s: System, ctx: ContextRecord, id: u32, answer: int): int {
    if FindCtx(s.dev.contexts, ctx.id).None? || FindRes(s.dev.resources, id).None? then EINVAL else answer
  }
}
