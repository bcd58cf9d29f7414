/** Creating and destroying the command ring, and undoing what fails. */
module RingLifecycle {

  // A context, a mapped blob and an attachment are acquired in order, and released
  // in reverse when a stage fails (the goto ladders of uk_venus_ring_create and
  // its siblings).

  import opened Bits
  import opened Errno
  import opened Wrappers
  import opened GpuSystem
  import opened BlobLifecycle

  const VENUS_CAPSET: u32 := 4

  datatype RingRecord = RingRecord(ctx: ContextRecord, borrowedCtx: bool, blob: Blob, base: u64, size: u64, ready: bool)
  const NO_CONTEXT := ContextRecord(0, 0, false)
  const ZERO_RING := RingRecord(NO_CONTEXT, false, ZERO_BLOB, 0, 0, false)

  /** The host's answers to the commands a call may send. */
  datatype Answers = Answers(contextCreate: int, blobCreate: int, mapBlob: int, mapInfo: u32, undoMap: int,
                             attach: int, detach: int, unmap: int, unref: int, contextDestroy: int)

  /** The host carries out whatever releases something. */
  predicate AcceptsReleases(a: Answers) {
    a.undoMap == 0 && a.unmap == 0 && a.unref == 0 && a.contextDestroy == 0
  }

  // ---- the ladders -----------------------------------------------------------------

  /** err_unmap and err_blob: answers are ignored. */
  function UndoBlob(s: System, b: Blob, a: Answers): System {
    var out := BlobUnmap(s, b, a.unmap);
    BlobDestroy(out.sys, out.record, a.unref).sys
  }

  /** From a created blob on: map it, check the mapping, attach it; or give the
      blob back. */
  function MapAndAttach(s: System, ctx: ContextRecord, size: u64, created: Blob, a: Answers): Outcome<Blob> {
    var out := BlobMap(s, created, a.mapBlob, a.mapInfo, a.undoMap);
    if out.rc != 0 then Outcome(BlobDestroy(out.sys, out.record, a.unref).sys, ZERO_BLOB, out.rc)
    else if out.record.mappedAddr == 0 || out.record.mappedSize < size then
      Outcome(UndoBlob(out.sys, out.record, a), ZERO_BLOB, ENOTSUP)
    else
      var rc := ContextResource(out.sys, ctx, out.record.resourceId, a.attach);
      if rc != 0 then Outcome(UndoBlob(out.sys, out.record, a), ZERO_BLOB, rc) else Outcome(out.sys, out.record, 0)
  }

  /** The stages both creates share. */
  function AcquireBlob(s: System, ctx: ContextRecord, size: u64, blobId: u64, a: Answers): Outcome<Blob> {
    var made := BlobCreate(s, size, BLOB_MEM_HOST3D, BLOB_FLAG_USE_MAPPABLE, blobId, ZERO_BLOB, a.blobCreate);
    if made.rc != 0 then Outcome(made.sys, ZERO_BLOB, made.rc) else MapAndAttach(made.sys, ctx, size, made.record, a)
  }

  predicate HasRingFeatures(cfg: Config) {
    cfg.contextInit && cfg.resourceBlob && cfg.windowSize != 0
  }

  /** uk_venus_ring_create */
  function RingCreate(s: System, ring: RingRecord, size: u64, blobId: u64, a: Answers): Outcome<RingRecord> {
    if size == 0 || ring.ready || ring.ctx.created || ring.blob.created then Outcome(s, ring, EINVAL)
    else if !HasRingFeatures(s.dev.cfg) then Outcome(s, ring, ENOTSUP)
    else
      var made := ContextCreate(s, VENUS_CAPSET, NO_CONTEXT, a.contextCreate);
      if made.rc != 0 then Outcome(made.sys, ZERO_RING, made.rc)
      else
        var out := AcquireBlob(made.sys, made.record, size, blobId, a);
        if out.rc != 0 then Outcome(ContextDestroy(out.sys, made.record, a.contextDestroy).sys, ZERO_RING, out.rc)
        else Outcome(out.sys, RingRecord(made.record, false, out.record, out.record.mappedAddr, size, true), 0)
  }

  /** uk_venus_ring_create_on_ctx: the context stays the caller's. */
  function RingCreateOnContext(s: System, ring: RingRecord, ctx: ContextRecord, size: u64, a: Answers): Outcome<RingRecord> {
    if size == 0 || ring.ready || ring.blob.created then Outcome(s, ring, EINVAL)
    else if !HasRingFeatures(s.dev.cfg) then Outcome(s, ring, ENOTSUP)
    else
      var out := AcquireBlob(s, ctx, size, 0, a);
      if out.rc != 0 then Outcome(out.sys, ZERO_RING, out.rc)
      else Outcome(out.sys, RingRecord(ctx, true, out.record, out.record.mappedAddr, size, true), 0)
  }

  /** uk_venus_ring_destroy; the record is zeroed whatever the host answers, and
      detaching changes no table. */
  function RingDestroy(s: System, ring: RingRecord, a: Answers): System {
    var s1 := Release(s, ring.blob, a.unmap, a.unref).sys;
    if ring.ctx.created && !ring.borrowedCtx then ContextDestroy(s1, ring.ctx, a.contextDestroy).sys else s1
  }

  // ---- contexts ------------------------------------------------------------------

  /** Live contexts have distinct, non-zero ids, and the host has exactly these. */
  ghost predicate ContextsOk(s: System) {
    var cs := s.dev.contexts;
    && |cs| == MAX_CONTEXTS
    && (forall i :: 0 <= i < |cs| ==> if cs[i].live then cs[i].id != 0 else cs[i] == ZERO_CONTEXT)
    && (forall i, j :: 0 <= i < j < |cs| && cs[i].live && cs[j].live ==> cs[i].id != cs[j].id)
    && (forall id: u32 :: id in s.host.contexts <==> LiveContext(s, id))
  }

  predicate LiveContext(s: System, id: u32) { FindCtxFrom(s.dev.contexts, id, 0).Some? }

  /** The id the next context will use is neither zero nor in use. */
  predicate FreshContext(s: System) { s.dev.nextCtx != 0 && !LiveContext(s, s.dev.nextCtx) }

  /** Resources and the configuration as in s. */
  ghost predicate OnlyContexts(s: System, s': System) {
    && s'.dev == s.dev.(contexts := s'.dev.contexts, nextCtx := s'.dev.nextCtx)
    && s'.host == s.host.(contexts := s'.host.contexts)
  }

  /** Contexts and the configuration as in s. */
  ghost predicate OnlyResources(s: System, s': System) {
    s'.dev.contexts == s.dev.contexts && s'.dev.nextCtx == s.dev.nextCtx && s'.dev.cfg == s.dev.cfg
    && s'.host.contexts == s.host.contexts
  }

  /** Slot i takes a new context, on both sides. */
  lemma ContextTaken(s: System, s': System, i: nat, id: u32, capset: u32)
    requires ContextsOk(s) && i < MAX_CONTEXTS && !s.dev.contexts[i].live && id != 0 && !LiveContext(s, id)
    requires s'.dev.contexts == s.dev.contexts[i := Context(id, capset, true)]
    requires s'.host.contexts == s.host.contexts + {id}
    ensures ContextsOk(s') && FindCtx(s'.dev.contexts, id) == Some(i)
    ensures forall k: u32 :: LiveContext(s', k) <==> LiveContext(s, k) || k == id
  {
    assert s'.dev.contexts[i].live && s'.dev.contexts[i].id == id;
    forall k: u32
      ensures LiveContext(s', k) <==> LiveContext(s, k) || k == id
    {
      var f := FindCtxFrom(s.dev.contexts, k, 0);
      if f.Some? { assert s'.dev.contexts[f.value] == s.dev.contexts[f.value]; }
    }
  }

  /** Slot i gives its context up, on both sides. */
  lemma ContextGone(s: System, s': System, i: nat)
    requires ContextsOk(s) && i < MAX_CONTEXTS && s.dev.contexts[i].live
    requires s'.dev.contexts == s.dev.contexts[i := ZERO_CONTEXT]
    requires s'.host.contexts == s.host.contexts - {s.dev.contexts[i].id}
    ensures ContextsOk(s')
    ensures forall k: u32 :: LiveContext(s', k) <==> LiveContext(s, k) && k != s.dev.contexts[i].id
  {
    forall k: u32
      ensures LiveContext(s', k) <==> LiveContext(s, k) && k != s.dev.contexts[i].id
    {
      var f := FindCtxFrom(s.dev.contexts, k, 0);
      if f.Some? && f.value != i { assert s'.dev.contexts[f.value] == s.dev.contexts[f.value]; }
    }
  }

  lemma ContextCreateCall(s: System, capset: u32, ctx: ContextRecord, answer: int) returns (i: nat)
    requires ContextsOk(s) && FreshContext(s)
    ensures var out := ContextCreate(s, capset, ctx, answer);
      && OnlyContexts(s, out.sys) && ContextsOk(out.sys)
      && (out.rc != 0 ==> out.record == ctx && out.sys.dev.contexts == s.dev.contexts && out.sys.host == s.host)
      && (out.rc == 0 ==>
            && i < MAX_CONTEXTS && s.dev.contexts[i] == ZERO_CONTEXT
            && out.record == ContextRecord(s.dev.nextCtx, capset, true)
            && OwnsContext(s, out.sys, i, out.record)
            && forall k: u32 :: LiveContext(out.sys, k) <==> LiveContext(s, k) || k == out.record.id)
  {
    var out := ContextCreate(s, capset, ctx, answer);
    var at := FreeCtxFrom(s.dev.contexts, 0);
    i := if at.Some? then at.value else 0;
    if at.Some? {
      assert s.dev.contexts[i := ZERO_CONTEXT] == s.dev.contexts;
      if out.rc == 0 { ContextTaken(s, out.sys, i, s.dev.nextCtx, capset); }
    }
  }

  /** Destroying a context keeps the tables in order, whatever the host answers. */
  lemma ContextDestroyCall(s: System, ctx: ContextRecord, answer: int)
    requires ContextsOk(s)
    ensures var out := ContextDestroy(s, ctx, answer);
      && OnlyContexts(s, out.sys) && ContextsOk(out.sys)
      && (answer != 0 ==> out.sys == s)
      && (answer == 0 && ctx.id != 0 ==> forall k: u32 :: LiveContext(out.sys, k) <==> LiveContext(s, k) && k != ctx.id)
  {
    var at := FindCtx(s.dev.contexts, ctx.id);
    if at.Some? && answer == 0 {
      ContextGone(s, ContextDestroy(s, ctx, answer).sys, at.value);
    }
  }

  /** Slot j holds the only context that s has beyond s0. */
  ghost predicate OwnsContext(s0: System, s: System, j: nat, ctx: ContextRecord) {
    && j < |s0.dev.contexts| && s0.dev.contexts[j] == ZERO_CONTEXT && ctx.created
    && s.dev.contexts == s0.dev.contexts[j := Context(ctx.id, ctx.capset, true)]
    && FindCtx(s.dev.contexts, ctx.id) == Some(j)
    && ctx.id !in s0.host.contexts && s.host.contexts == s0.host.contexts + {ctx.id}
  }

  lemma ReleaseContext(s0: System, s: System, j: nat, ctx: ContextRecord)
    requires OwnsContext(s0, s, j, ctx)
    ensures ContextDestroy(s, ctx, 0).sys
            == s.(dev := s.dev.(contexts := s0.dev.contexts), host := s.host.(contexts := s0.host.contexts))
  {
    assert s.dev.contexts[j := ZERO_CONTEXT] == s0.dev.contexts;
    assert s.host.contexts - {ctx.id} == s0.host.contexts;
  }

  // ---- the blob of a ring, with a host that accepts releases --------------------------

  /** The blob in `b` is the only difference between the resource tables of s0 and s. */
  ghost predicate Holding(s0: System, s: System, i: nat, b: Blob) {
    && SysOk(s) && i < MAX_RESOURCES && |s0.dev.resources| == MAX_RESOURCES
    && s0.dev.resources[i] == ZERO_SLOT
    && s.dev.resources == s0.dev.resources[i := s.dev.resources[i]]
    && b.created && RecordOk(s.dev, b) && FindRes(s.dev.resources, b.resourceId) == Some(i)
    && b.resourceId !in s0.host.resources
    && s.host.resources == s0.host.resources[b.resourceId := if b.mapped then Some(b.offset) else None]
    && OnlyResources(s0, s)
  }

  lemma HoldAfterCreate(s: System, size: u64, blobId: u64, answer: int) returns (i: nat)
    requires SysOk(s) && FreshId(s) && NewToHost(s)
    requires BlobCreate(s, size, BLOB_MEM_HOST3D, BLOB_FLAG_USE_MAPPABLE, blobId, ZERO_BLOB, answer).rc == 0
    ensures var out := BlobCreate(s, size, BLOB_MEM_HOST3D, BLOB_FLAG_USE_MAPPABLE, blobId, ZERO_BLOB, answer);
      && Holding(s, out.sys, i, out.record) && !out.record.mapped && out.record.size >= size
  {
    hide AlignedSize, And;
    var slot;
    i, slot := CreatedBlob(s, size, BLOB_MEM_HOST3D, BLOB_FLAG_USE_MAPPABLE, blobId, ZERO_BLOB, answer);
    assert SlotOk(s.dev.resources[i]);
    FindUnique(BlobCreate(s, size, BLOB_MEM_HOST3D, BLOB_FLAG_USE_MAPPABLE, blobId, ZERO_BLOB, answer).sys.dev, i);
  }

  lemma HoldAfterMap(s0: System, s: System, i: nat, b: Blob, a: Answers)
    requires Holding(s0, s, i, b) && !b.mapped && a.undoMap == 0
    ensures var out := BlobMap(s, b, a.mapBlob, a.mapInfo, a.undoMap);
      && Holding(s0, out.sys, i, out.record)
      && (out.rc != 0 ==> !out.record.mapped)
      && (out.rc == 0 ==> out.record.mapped && out.record.mappedSize == b.size && out.record.mappedAddr != 0)
  {
    MapCall(s, b, a.mapBlob, a.mapInfo, a.undoMap);
    MapHost(s, b, a.mapBlob, a.mapInfo, a.undoMap);
    hide BlobMap, SysOk;
    var res := BlobMap(s, b, a.mapBlob, a.mapInfo, a.undoMap).sys.dev.resources;
    assert res == s0.dev.resources[i := res[i]];
  }

  /** The host's table after a map call mirrors the record. */
  lemma MapHost(s: System, b: Blob, answer: int, mapInfo: u32, undoAnswer: int)
    requires SysOk(s) && b.created && RecordOk(s.dev, b)
    ensures var out := BlobMap(s, b, answer, mapInfo, undoAnswer);
      out.sys.host.resources == s.host.resources[b.resourceId := if out.record.mapped then Some(b.offset) else None]
      && out.record.offset == b.offset
  {
    hide And;
    var i := FindRes(s.dev.resources, b.resourceId).value;
    assert HostHas(s.host, s.dev.resources[i]);
    var was := s.host.resources;
    assert was[b.resourceId := was[b.resourceId]] == was;
  }

  lemma HoldAfterUnmap(s0: System, s: System, i: nat, b: Blob)
    requires Holding(s0, s, i, b) && b.mapped
    ensures var out := BlobUnmap(s, b, 0);
      Holding(s0, out.sys, i, out.record) && !out.record.mapped && out.record.resourceId == b.resourceId
  {
    UnmapCall(s, b, 0);
    var out := BlobUnmap(s, b, 0);
    assert out.sys.dev.resources == s0.dev.resources[i := out.sys.dev.resources[i]];
  }

  /** Releasing the blob gives back the tables from before it was made. */
  lemma ReleaseHeld(s0: System, s: System, i: nat, b: Blob)
    requires Holding(s0, s, i, b) && !b.mapped
    ensures var s' := BlobDestroy(s, b, 0).sys;
      && s'.dev.resources == s0.dev.resources && s'.host.resources == s0.host.resources
      && OnlyResources(s, s') && SysOk(s')
  {
    DestroyCall(s, b, 0);
    var out := BlobDestroy(s, b, 0);
    assert out.sys.dev.resources == s0.dev.resources[i := ZERO_SLOT] == s0.dev.resources;
    assert out.sys.host.resources == s0.host.resources;
  }

  /** The resources of s0, on both sides. */
  ghost predicate SameResources(s0: System, s: System) {
    s.dev.resources == s0.dev.resources && s.host.resources == s0.host.resources && OnlyResources(s0, s)
  }

  lemma UndoneBlob(s0: System, s: System, i: nat, b: Blob, a: Answers)
    requires Holding(s0, s, i, b) && b.mapped && AcceptsReleases(a)
    ensures SameResources(s0, UndoBlob(s, b, a))
  {
    HoldAfterUnmap(s0, s, i, b);
    var out := BlobUnmap(s, b, 0);
    ReleaseHeld(s0, out.sys, i, out.record);
  }

  /** From a created blob on: either it stands mapped, or it is gone again. */
  lemma MapAndAttachOutcome(s0: System, s: System, i: nat, created: Blob, ctx: ContextRecord, size: u64, a: Answers)
    requires Holding(s0, s, i, created) && !created.mapped && AcceptsReleases(a)
    ensures var out := MapAndAttach(s, ctx, size, created, a);
      && (out.rc != 0 ==> SameResources(s0, out.sys))
      && (out.rc == 0 ==> Holding(s0, out.sys, i, out.record) && out.record.mapped
                          && out.record.mappedAddr != 0 && out.record.mappedSize >= size)
  {
    HoldAfterMap(s0, s, i, created, a);
    var out := BlobMap(s, created, a.mapBlob, a.mapInfo, a.undoMap);
    hide Holding, BlobMap, UndoBlob;
    if out.rc != 0 {
      ReleaseHeld(s0, out.sys, i, out.record);
      StillOnly(s0, out.sys, i, out.record);
    } else {
      UndoneBlob(s0, out.sys, i, out.record, a);
    }
  }

  lemma StillOnly(s0: System, s: System, i: nat, b: Blob)
    requires Holding(s0, s, i, b)
    ensures OnlyResources(s0, s)
  {
  }

  /** Guest tables and the host's contexts as in s0; the host's resources too,
      unless the host was left with one more. */
  ghost predicate Restored(s0: System, s: System, lost: bool) {
    && s.dev.resources == s0.dev.resources && s.dev.contexts == s0.dev.contexts
    && s.host.contexts == s0.host.contexts
    && s.host.resources == if lost then s0.host.resources[s0.dev.nextRes := None] else s0.host.resources
  }

  /** The host makes the blob and the guest's 64-bit window counter then refuses it. */
  ghost predicate LosesBlob(s: System, size: u64, a: Answers) {
    Orphans(s, size, BLOB_MEM_HOST3D, ZERO_BLOB, a.blobCreate)
  }

  lemma LosingFails(s: System, size: u64, blobId: u64, a: Answers)
    requires LosesBlob(s, size, a)
    ensures BlobCreate(s, size, BLOB_MEM_HOST3D, BLOB_FLAG_USE_MAPPABLE, blobId, ZERO_BLOB, a.blobCreate).rc != 0
  {
    hide AlignedSize;
  }

  lemma AcquireOutcome(s: System, ctx: ContextRecord, size: u64, blobId: u64, a: Answers) returns (i: nat)
    requires SysOk(s) && FreshId(s) && NewToHost(s) && AcceptsReleases(a)
    ensures var out := AcquireBlob(s, ctx, size, blobId, a);
      && (out.rc != 0 ==> Restored(s, out.sys, LosesBlob(s, size, a)) && OnlyResources(s, out.sys))
      && (out.rc == 0 ==> Holding(s, out.sys, i, out.record) && out.record.mapped
                          && out.record.mappedAddr != 0 && out.record.mappedSize >= size)
  {
    var made := BlobCreate(s, size, BLOB_MEM_HOST3D, BLOB_FLAG_USE_MAPPABLE, blobId, ZERO_BLOB, a.blobCreate);
    i := 0;
    if made.rc != 0 {
      FailedCreate(s, size, BLOB_MEM_HOST3D, BLOB_FLAG_USE_MAPPABLE, blobId, ZERO_BLOB, a.blobCreate);
      hide BlobCreate, AlignedSize;
    } else {
      if LosesBlob(s, size, a) { LosingFails(s, size, blobId, a); }
      i := HoldAfterCreate(s, size, blobId, a.blobCreate);
      hide BlobCreate, Holding, LosesBlob;
      MapAndAttachOutcome(s, made.sys, i, made.record, ctx, size, a);
    }
  }

  // ---- one create, one destroy ---------------------------------------------------------

  /** What a ring create needs of the id counters. */
  ghost predicate FreshIds(s: System) { FreshId(s) && NewToHost(s) && FreshContext(s) }

  /** Resources do not care about contexts. */
  lemma ContextsLeaveSys(s: System, s': System)
    requires OnlyContexts(s, s')
    ensures SysOk(s') <==> SysOk(s)
    ensures FreshId(s') == FreshId(s) && NewToHost(s') == NewToHost(s)
    ensures forall size: u64, a: Answers :: LosesBlob(s', size, a) == LosesBlob(s, size, a)
  {
  }

  /** What makes a ring create leave a blob behind on the host: it gets as far as
      the blob, and there the window counter overflows after the host's answer. */
  ghost predicate CreateLoses(s: System, ring: RingRecord, size: u64, a: Answers) {
    && size != 0 && !ring.ready && !ring.ctx.created && !ring.blob.created && HasRingFeatures(s.dev.cfg)
    && ContextCreate(s, VENUS_CAPSET, NO_CONTEXT, a.contextCreate).rc == 0 && LosesBlob(s, size, a)
  }

  ghost predicate CreateOnLoses(s: System, ring: RingRecord, size: u64, a: Answers) {
    size != 0 && !ring.ready && !ring.blob.created && HasRingFeatures(s.dev.cfg) && LosesBlob(s, size, a)
  }

  lemma LosingCreatesFail(s: System, ring: RingRecord, ctx: ContextRecord, size: u64, blobId: u64, a: Answers)
    ensures CreateLoses(s, ring, size, a) ==> RingCreate(s, ring, size, blobId, a).rc != 0
    ensures CreateOnLoses(s, ring, size, a) ==> RingCreateOnContext(s, ring, ctx, size, a).rc != 0
  {
    if CreateOnLoses(s, ring, size, a) { LosingFails(s, size, 0, a); }
    if CreateLoses(s, ring, size, a) {
      var made := ContextCreate(s, VENUS_CAPSET, NO_CONTEXT, a.contextCreate);
      ContextsLeaveSys(s, made.sys);
      LosingFails(made.sys, size, blobId, a);
    }
    hide BlobCreate, LosesBlob, MapAndAttach, ContextDestroy;
  }

  /** A ring create that fails at any stage leaves the tables of both sides as
      they were and the ring zeroed or untouched; the host's resources if and only
      if the create does not lose its blob. */
  lemma FailedRingCreate(s: System, ring: RingRecord, size: u64, blobId: u64, a: Answers)
    requires SysOk(s) && ContextsOk(s) && FreshIds(s) && AcceptsReleases(a)
    requires RingCreate(s, ring, size, blobId, a).rc != 0
    ensures var out := RingCreate(s, ring, size, blobId, a);
      && Restored(s, out.sys, CreateLoses(s, ring, size, a))
      && (out.sys.host.resources == s.host.resources <==> !CreateLoses(s, ring, size, a))
      && (out.record == ZERO_RING || (out.record == ring && out.sys == s))
  {
    hide LosesBlob;
    if !(size == 0 || ring.ready || ring.ctx.created || ring.blob.created) && HasRingFeatures(s.dev.cfg) {
      var made := ContextCreate(s, VENUS_CAPSET, NO_CONTEXT, a.contextCreate);
      var j := ContextCreateCall(s, VENUS_CAPSET, NO_CONTEXT, a.contextCreate);
      if made.rc == 0 {
        ContextsLeaveSys(s, made.sys);
        var i := AcquireOutcome(made.sys, made.record, size, blobId, a);
        var out := AcquireBlob(made.sys, made.record, size, blobId, a);
        ReleaseContext(s, out.sys, j, made.record);
        hide AcquireBlob, ContextCreate, ContextDestroy, AlignedSize;
      }
    }
  }

  /** The same on a borrowed context, which no outcome touches. */
  lemma FailedRingCreateOnContext(s: System, ring: RingRecord, ctx: ContextRecord, size: u64, a: Answers)
    requires SysOk(s) && FreshId(s) && NewToHost(s) && AcceptsReleases(a)
    requires RingCreateOnContext(s, ring, ctx, size, a).rc != 0
    ensures var out := RingCreateOnContext(s, ring, ctx, size, a);
      && Restored(s, out.sys, CreateOnLoses(s, ring, size, a))
      && (out.sys.host.resources == s.host.resources <==> !CreateOnLoses(s, ring, size, a))
      && (out.record == ZERO_RING || (out.record == ring && out.sys == s))
  {
    hide LosesBlob;
    var i := AcquireOutcome(s, ctx, size, 0, a);
    hide AcquireBlob, AlignedSize;
  }

  lemma ReleasedBlob(s0: System, s: System, i: nat, b: Blob, a: Answers)
    requires Holding(s0, s, i, b) && b.mapped && AcceptsReleases(a)
    ensures SameResources(s0, Release(s, b, a.unmap, a.unref).sys)
  {
    UndoneBlob(s0, s, i, b, a);
    UnmapCall(s, b, a.unmap);
  }

  /** A ring created and destroyed again, with any answers that let it stand and
      then accept its release, leaves both sides' tables as they were. */
  lemma CreateThenDestroy(s: System, ring: RingRecord, size: u64, blobId: u64, a: Answers, later: Answers)
    requires SysOk(s) && ContextsOk(s) && FreshIds(s) && AcceptsReleases(a) && AcceptsReleases(later)
    requires RingCreate(s, ring, size, blobId, a).rc == 0
    ensures var made := RingCreate(s, ring, size, blobId, a);
      var s' := RingDestroy(made.sys, made.record, later);
      && s'.dev.resources == s.dev.resources && s'.dev.contexts == s.dev.contexts && s'.host == s.host
      && made.record.ready && made.record.base != 0 && made.record.blob.mappedSize >= size
  {
    var ctx := ContextCreate(s, VENUS_CAPSET, NO_CONTEXT, a.contextCreate);
    var j := ContextCreateCall(s, VENUS_CAPSET, NO_CONTEXT, a.contextCreate);
    ContextsLeaveSys(s, ctx.sys);
    var i := AcquireOutcome(ctx.sys, ctx.record, size, blobId, a);
    var out := AcquireBlob(ctx.sys, ctx.record, size, blobId, a);
    ReleasedBlob(ctx.sys, out.sys, i, out.record, later);
    var s1 := Release(out.sys, out.record, later.unmap, later.unref).sys;
    ReleaseContext(s, s1, j, ctx.record);
    hide AcquireBlob, ContextCreate, ContextDestroy, Release, AlignedSize, Holding;
  }

  /** The same on a borrowed context. */
  lemma CreateOnContextThenDestroy(s: System, ring: RingRecord, ctx: ContextRecord, size: u64, a: Answers, later: Answers)
    requires SysOk(s) && FreshId(s) && NewToHost(s) && AcceptsReleases(a) && AcceptsReleases(later)
    requires RingCreateOnContext(s, ring, ctx, size, a).rc == 0
    ensures var made := RingCreateOnContext(s, ring, ctx, size, a);
      var s' := RingDestroy(made.sys, made.record, later);
      && s'.dev.resources == s.dev.resources && s'.dev.contexts == s.dev.contexts && s'.host == s.host
      && made.sys.dev.contexts == s.dev.contexts && made.sys.host.contexts == s.host.contexts
  {
    var i := AcquireOutcome(s, ctx, size, 0, a);
    var out := AcquireBlob(s, ctx, size, 0, a);
    StillOnly(s, out.sys, i, out.record);
    ReleasedBlob(s, out.sys, i, out.record, later);
    hide AcquireBlob, Release, AlignedSize, Holding;
  }
}
