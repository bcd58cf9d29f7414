/** Runs of ring creates and destroys. */
module RingRuns {

  // The tables stay in order whatever the host answers, and with a host that
  // accepts releases nothing is ever left behind.

  import opened Bits
  import opened GpuSystem
  import opened BlobLifecycle
  import opened RingLifecycle

  datatype RingWorld = RingWorld(sys: System, rings: seq<RingRecord>)

  datatype RingOp =
    | CreateRing(r: nat, size: u64, blobId: u64, a: Answers)
    | CreateRingOn(r: nat, ctx: ContextRecord, size: u64, a: Answers)
    | DestroyRing(r: nat, a: Answers)

  function RingStep(w: RingWorld, op: RingOp): RingWorld {
    if op.r >= |w.rings| then w
    else match op
      case CreateRing(r, size, blobId, a) =>
        var out := RingCreate(w.sys, w.rings[r], size, blobId, a);
        RingWorld(out.sys, w.rings[r := out.record])
      case CreateRingOn(r, ctx, size, a) =>
        var out := RingCreateOnContext(w.sys, w.rings[r], ctx, size, a);
        RingWorld(out.sys, w.rings[r := out.record])
      case DestroyRing(r, a) => RingWorld(RingDestroy(w.sys, w.rings[r], a), w.rings[r := ZERO_RING])
  }

  function RingRun(w: RingWorld, ops: seq<RingOp>): RingWorld
    decreases ops
  {
    if ops == [] then w else RingRun(RingStep(w, ops[0]), ops[1..])
  }

  /** The ids a create takes are fresh. */
  ghost predicate StepFresh(s: System, op: RingOp) {
    match op
    case CreateRing(_, _, _, _) => FreshIds(s)
    case CreateRingOn(_, _, _, _) => FreshId(s) && NewToHost(s)
    case DestroyRing(_, _) => true
  }

  /** Every create of the run finds fresh ids. */
  ghost predicate RingFresh(w: RingWorld, ops: seq<RingOp>)
    decreases ops
  {
    ops == [] || (StepFresh(w.sys, ops[0]) && RingFresh(RingStep(w, ops[0]), ops[1..]))
  }

  function Blobs(rings: seq<RingRecord>): seq<Blob> {
    seq(|rings|, r requires 0 <= r < |rings| => rings[r].blob)
  }

  function AsWorld(w: RingWorld): World { World(w.sys, Blobs(w.rings), []) }

  ghost predicate OwnsLive(s: System, ring: RingRecord) {
    ring.ctx.created && ring.ctx.id != 0 && LiveContext(s, ring.ctx.id)
  }

  /** A ring is zero, or stands on a mapped blob, and on a live context of its own
      unless it borrowed one. */
  ghost predicate RingOk(s: System, ring: RingRecord) {
    ring == ZERO_RING
    || (&& ring.ready && ring.blob.created && ring.blob.mapped && ring.blob.mappedAddr != 0
        && ring.base == ring.blob.mappedAddr && ring.size <= ring.blob.mappedSize
        && (!ring.borrowedCtx ==> OwnsLive(s, ring)))
  }

  predicate Owns(ring: RingRecord, id: u32) { ring.ready && !ring.borrowedCtx && ring.ctx.id == id }

  ghost predicate RingsOk(w: RingWorld) {
    && Inv(AsWorld(w)) && ContextsOk(w.sys)
    && (forall r :: 0 <= r < |w.rings| ==> RingOk(w.sys, w.rings[r]))
    && (forall r, q :: 0 <= r < q < |w.rings| && Owns(w.rings[r], w.rings[r].ctx.id) ==> !Owns(w.rings[q], w.rings[r].ctx.id))
  }

  /** A probed device, and ring records that are all zero. */
  ghost predicate RingsInitial(w: RingWorld) {
    && BlobLifecycle.Initial(World(w.sys, [], []))
    && w.sys.dev.contexts == seq(MAX_CONTEXTS, _ => ZERO_CONTEXT) && w.sys.dev.nextCtx == 1 && w.sys.host.contexts == {}
    && (forall r :: 0 <= r < |w.rings| ==> w.rings[r] == ZERO_RING)
  }

  lemma RingsInitialOk(w: RingWorld)
    requires RingsInitial(w)
    ensures RingsOk(w)
  {
    InitialInv(AsWorld(w));
  }

  // ---- the blob of a ring, whatever the host answers --------------------------------

  lemma DestroyKeeps(w: World, r: nat, answer: int)
    requires Inv(w) && w.windows == [] && r < |w.records| && w.records[r].created
    ensures var s' := BlobDestroy(w.sys, w.records[r], answer).sys;
      Inv(World(s', w.records[r := ZERO_BLOB], [])) && OnlyResources(w.sys, s')
  {
    assert RecordOk(w.sys.dev, w.records[r]);
    DestroyCall(w.sys, w.records[r], answer);
    var out := BlobDestroy(w.sys, w.records[r], answer);
    AfterCall(w, r, out);
    ClearRecord(World(out.sys, w.records[r := out.record], []), r);
    assert w.records[r := out.record][r := ZERO_BLOB] == w.records[r := ZERO_BLOB];
  }

  lemma UndoKeeps(w: World, r: nat, a: Answers)
    requires Inv(w) && w.windows == [] && r < |w.records| && w.records[r].created
    ensures var s' := UndoBlob(w.sys, w.records[r], a);
      Inv(World(s', w.records[r := ZERO_BLOB], [])) && OnlyResources(w.sys, s')
  {
    assert RecordOk(w.sys.dev, w.records[r]);
    UnmapCall(w.sys, w.records[r], a.unmap);
    var out := BlobUnmap(w.sys, w.records[r], a.unmap);
    AfterCall(w, r, out);
    DestroyKeeps(World(out.sys, w.records[r := out.record], []), r, a.unref);
    assert w.records[r := out.record][r := ZERO_BLOB] == w.records[r := ZERO_BLOB];
  }

  /** Mapping keeps the blob layer in order and gives an address. */
  lemma MapKeeps(w: World, r: nat, a: Answers)
    requires Inv(w) && w.windows == [] && r < |w.records| && w.records[r].created && !w.records[r].mapped
    ensures var out := BlobMap(w.sys, w.records[r], a.mapBlob, a.mapInfo, a.undoMap);
      && Inv(World(out.sys, w.records[r := out.record], [])) && OnlyResources(w.sys, out.sys) && out.record.created
      && (out.rc == 0 ==> out.record.mapped)
  {
    assert RecordOk(w.sys.dev, w.records[r]);
    MapCall(w.sys, w.records[r], a.mapBlob, a.mapInfo, a.undoMap);
    hide And;
    AfterCall(w, r, BlobMap(w.sys, w.records[r], a.mapBlob, a.mapInfo, a.undoMap));
    hide Inv;
  }

  lemma MapAndAttachKeeps(w: World, r: nat, ctx: ContextRecord, size: u64, a: Answers)
    requires Inv(w) && w.windows == [] && r < |w.records| && w.records[r].created && !w.records[r].mapped
    ensures var out := MapAndAttach(w.sys, ctx, size, w.records[r], a);
      && Inv(World(out.sys, w.records[r := out.record], [])) && OnlyResources(w.sys, out.sys)
      && (if out.rc == 0 then out.record.created && out.record.mapped && out.record.mappedAddr != 0
                              && out.record.mappedSize >= size
          else out.record == ZERO_BLOB)
  {
    MapKeeps(w, r, a);
    var out := BlobMap(w.sys, w.records[r], a.mapBlob, a.mapInfo, a.undoMap);
    var w1 := World(out.sys, w.records[r := out.record], []);
    assert w1.records[r := ZERO_BLOB] == w.records[r := ZERO_BLOB];
    hide Inv, BlobMap, UndoBlob, BlobDestroy, ContextResource;
    if out.rc != 0 { DestroyKeeps(w1, r, a.unref); } else { UndoKeeps(w1, r, a); }
  }

  lemma AcquireKeeps(w: World, r: nat, ctx: ContextRecord, size: u64, blobId: u64, a: Answers)
    requires Inv(w) && w.windows == [] && r < |w.records| && w.records[r] == ZERO_BLOB && FreshId(w.sys)
    ensures var out := AcquireBlob(w.sys, ctx, size, blobId, a);
      && Inv(World(out.sys, w.records[r := out.record], [])) && OnlyResources(w.sys, out.sys)
      && (if out.rc == 0 then out.record.created && out.record.mapped && out.record.mappedAddr != 0
                              && out.record.mappedSize >= size
          else out.record == ZERO_BLOB)
  {
    var op := Create(r, size, BLOB_MEM_HOST3D, BLOB_FLAG_USE_MAPPABLE, blobId, a.blobCreate);
    var made := Call(w, op);
    CreateKeepsInv(w, op);
    if made.rc != 0 {
      FailedCreate(w.sys, size, BLOB_MEM_HOST3D, BLOB_FLAG_USE_MAPPABLE, blobId, ZERO_BLOB, a.blobCreate);
      assert w.records[r := ZERO_BLOB] == w.records;
    } else {
      var i, slot := CreatedBlob(w.sys, size, BLOB_MEM_HOST3D, BLOB_FLAG_USE_MAPPABLE, blobId, ZERO_BLOB, a.blobCreate);
      var w1 := World(made.sys, w.records[r := made.record], []);
      hide BlobCreate, MapAndAttach;
      ClearWindows(Step(w, op));
      MapAndAttachKeeps(w1, r, ctx, size, a);
      var out := MapAndAttach(made.sys, ctx, size, made.record, a);
      assert w1.records[r := out.record] == w.records[r := out.record];
    }
  }

  lemma ReleaseKeeps(w: World, r: nat, a: Answers)
    requires Inv(w) && w.windows == [] && r < |w.records| && (w.records[r].created || w.records[r] == ZERO_BLOB)
    ensures var s' := Release(w.sys, w.records[r], a.unmap, a.unref).sys;
      Inv(World(s', w.records[r := ZERO_BLOB], [])) && OnlyResources(w.sys, s')
  {
    ReleaseKeepsInv(w, r, a.unmap, a.unref);
    var out := Release(w.sys, w.records[r], a.unmap, a.unref);
    ClearRecord(World(out.sys, w.records[r := out.record], []), r);
    assert w.records[r := out.record][r := ZERO_BLOB] == w.records[r := ZERO_BLOB];
    hide Inv;
  }

  // ---- contexts -----------------------------------------------------------------------

  /** The blob layer does not look at contexts. */
  lemma ContextsLeaveInv(w: World, s': System)
    requires Inv(w) && OnlyContexts(w.sys, s')
    ensures Inv(w.(sys := s'))
  {
    forall r | 0 <= r < |w.records|
      ensures RecordOk(s'.dev, w.records[r])
    {
      assert RecordOk(w.sys.dev, w.records[r]);
    }
  }

  lemma SameContexts(s: System, s': System)
    requires OnlyResources(s, s')
    ensures ContextsOk(s') <==> ContextsOk(s)
    ensures forall id: u32 :: LiveContext(s', id) == LiveContext(s, id)
  {
  }

  // ---- every step -----------------------------------------------------------------------

  /** Ring r is replaced; the other rings keep their blobs and contexts. */
  lemma ReplaceRing(w: RingWorld, s': System, ring: RingRecord, r: nat)
    requires RingsOk(w) && r < |w.rings|
    requires Inv(World(s', Blobs(w.rings)[r := ring.blob], [])) && ContextsOk(s') && RingOk(s', ring)
    requires forall q :: 0 <= q < |w.rings| && q != r && w.rings[q].ready && !w.rings[q].borrowedCtx ==>
               LiveContext(s', w.rings[q].ctx.id)
    requires Owns(ring, ring.ctx.id) ==>
               forall q :: 0 <= q < |w.rings| && q != r ==> !Owns(w.rings[q], ring.ctx.id)
    ensures RingsOk(RingWorld(s', w.rings[r := ring]))
  {
    var w' := RingWorld(s', w.rings[r := ring]);
    assert Blobs(w'.rings) == Blobs(w.rings)[r := ring.blob];
    hide Inv, ContextsOk;
    forall q | 0 <= q < |w.rings|
      ensures RingOk(s', w'.rings[q])
    {
      assert RingOk(w.sys, w.rings[q]);
    }
  }

  lemma CreateStep(w: RingWorld, op: RingOp)
    requires RingsOk(w) && op.CreateRing? && op.r < |w.rings| && FreshIds(w.sys)
    ensures RingsOk(RingStep(w, op))
  {
    var r, a := op.r, op.a;
    var ring := w.rings[r];
    var out := RingCreate(w.sys, ring, op.size, op.blobId, a);
    assert RingOk(w.sys, ring);
    if op.size == 0 || ring.ready || ring.ctx.created || ring.blob.created || !HasRingFeatures(w.sys.dev.cfg) {
      assert w.rings[r := ring] == w.rings;
    } else {
      assert ring == ZERO_RING && w.rings[r := ZERO_RING] == w.rings;
      var made := ContextCreate(w.sys, VENUS_CAPSET, NO_CONTEXT, a.contextCreate);
      var j := ContextCreateCall(w.sys, VENUS_CAPSET, NO_CONTEXT, a.contextCreate);
      ContextsLeaveInv(AsWorld(w), made.sys);
      ContextsLeaveSys(w.sys, made.sys);
      if made.rc != 0 {
        StillLive(w, made.sys);
        ReplaceRing(w, made.sys, ZERO_RING, r) by {
          assert Blobs(w.rings)[r := ZERO_BLOB] == Blobs(w.rings);
        }
      } else {
        CreateStages(w, op, made.sys, made.record);
      }
    }
  }

  lemma StillLive(w: RingWorld, s': System)
    requires RingsOk(w) && forall id: u32 :: LiveContext(w.sys, id) ==> LiveContext(s', id)
    ensures forall q :: 0 <= q < |w.rings| && w.rings[q].ready && !w.rings[q].borrowedCtx ==>
              LiveContext(s', w.rings[q].ctx.id)
  {
    forall q | 0 <= q < |w.rings|
      ensures w.rings[q].ready && !w.rings[q].borrowedCtx ==> LiveContext(s', w.rings[q].ctx.id)
    {
      assert RingOk(w.sys, w.rings[q]);
    }
  }

  /** No ring owns a context that is not live. */
  lemma NotOwned(w: RingWorld, id: u32)
    requires RingsOk(w) && !LiveContext(w.sys, id)
    ensures forall q :: 0 <= q < |w.rings| ==> !Owns(w.rings[q], id)
  {
    forall q | 0 <= q < |w.rings|
      ensures !Owns(w.rings[q], id)
    {
      assert RingOk(w.sys, w.rings[q]);
    }
  }

  /** The stages after the context was made, in state s1. */
  lemma CreateStages(w: RingWorld, op: RingOp, s1: System, ctx: ContextRecord)
    requires RingsOk(w) && op.CreateRing? && op.r < |w.rings| && w.rings[op.r] == ZERO_RING
    requires Inv(AsWorld(w).(sys := s1)) && ContextsOk(s1) && FreshId(s1)
    requires ctx.created && ctx.id != 0 && !LiveContext(w.sys, ctx.id)
    requires forall id: u32 :: LiveContext(s1, id) <==> LiveContext(w.sys, id) || id == ctx.id
    ensures var out := AcquireBlob(s1, ctx, op.size, op.blobId, op.a);
      if out.rc != 0
      then RingsOk(RingWorld(ContextDestroy(out.sys, ctx, op.a.contextDestroy).sys, w.rings[op.r := ZERO_RING]))
      else RingsOk(RingWorld(out.sys, w.rings[op.r := RingRecord(ctx, false, out.record, out.record.mappedAddr, op.size, true)]))
  {
    var out := AcquireBlob(s1, ctx, op.size, op.blobId, op.a);
    AcquireKeeps(AsWorld(w).(sys := s1), op.r, ctx, op.size, op.blobId, op.a);
    SameContexts(s1, out.sys);
    NotOwned(w, ctx.id);
    hide AcquireBlob, Inv, ContextsOk, RingsOk, ContextDestroy;
    if out.rc != 0 {
      ContextDestroyCall(out.sys, ctx, op.a.contextDestroy);
      var s2 := ContextDestroy(out.sys, ctx, op.a.contextDestroy).sys;
      var blobs := Blobs(w.rings)[op.r := ZERO_BLOB];
      ContextsLeaveInv(World(out.sys, blobs, []), s2);
      StillLive(w, s2);
      ReplaceRing(w, s2, ZERO_RING, op.r);
    } else {
      StillLive(w, out.sys);
      ReplaceRing(w, out.sys, RingRecord(ctx, false, out.record, out.record.mappedAddr, op.size, true), op.r);
    }
  }

  lemma CreateOnStep(w: RingWorld, op: RingOp)
    requires RingsOk(w) && op.CreateRingOn? && op.r < |w.rings| && StepFresh(w.sys, op)
    ensures RingsOk(RingStep(w, op))
  {
    var r := op.r;
    var ring := w.rings[r];
    assert RingOk(w.sys, ring);
    if op.size == 0 || ring.ready || ring.blob.created || !HasRingFeatures(w.sys.dev.cfg) {
      assert w.rings[r := ring] == w.rings;
    } else {
      var out := AcquireBlob(w.sys, op.ctx, op.size, 0, op.a);
      AcquireKeeps(AsWorld(w), r, op.ctx, op.size, 0, op.a);
      SameContexts(w.sys, out.sys);
      StillLive(w, out.sys);
      hide AcquireBlob, Inv, ContextsOk;
      ReplaceRing(w, out.sys, RingStep(w, op).rings[r], r);
    }
  }

  lemma DestroyStep(w: RingWorld, op: RingOp)
    requires RingsOk(w) && op.DestroyRing? && op.r < |w.rings|
    ensures RingsOk(RingStep(w, op))
  {
    var r, ring, a := op.r, w.rings[op.r], op.a;
    assert RingOk(w.sys, ring);
    ReleaseKeeps(AsWorld(w), r, a);
    var s1 := Release(w.sys, ring.blob, a.unmap, a.unref).sys;
    SameContexts(w.sys, s1);
    var s2 := RingDestroy(w.sys, ring, a);
    if ring.ctx.created && !ring.borrowedCtx {
      ContextDestroyCall(s1, ring.ctx, a.contextDestroy);
      ContextsLeaveInv(World(s1, Blobs(w.rings)[r := ZERO_BLOB], []), s2);
    }
    hide Release, ContextDestroy, Inv, ContextsOk;
    forall q | 0 <= q < |w.rings| && q != r && w.rings[q].ready && !w.rings[q].borrowedCtx
      ensures LiveContext(s2, w.rings[q].ctx.id)
    {
      assert RingOk(w.sys, w.rings[q]) && Owns(w.rings[q], w.rings[q].ctx.id);
      if r < q { assert Owns(ring, ring.ctx.id) ==> !Owns(w.rings[q], ring.ctx.id); }
    }
    ReplaceRing(w, s2, ZERO_RING, r);
  }

  lemma RingStepKeepsOk(w: RingWorld, op: RingOp)
    requires RingsOk(w) && StepFresh(w.sys, op)
    ensures RingsOk(RingStep(w, op))
  {
    hide RingsOk, FreshIds;
    if op.r < |w.rings| {
      match op
      case CreateRing(_, _, _, _) => CreateStep(w, op);
      case CreateRingOn(_, _, _, _) => CreateOnStep(w, op);
      case DestroyRing(_, _) => DestroyStep(w, op);
    }
  }

  /** Any number of creates and destroys, with any answers: the resource and
      context tables of both sides stay in order, every ring record is zero or
      stands, and no two rings share a blob or own the same context. */
  lemma {:induction false} RingRunKeepsOk(w: RingWorld, ops: seq<RingOp>)
    requires RingsOk(w) && RingFresh(w, ops)
    ensures RingsOk(RingRun(w, ops))
    decreases ops
  {
    if ops != [] {
      hide RingsOk, RingStep, StepFresh;
      RingStepKeepsOk(w, ops[0]);
      RingRunKeepsOk(RingStep(w, ops[0]), ops[1..]);
    }
  }

  // ---- nothing is left behind ------------------------------------------------------------

  ghost predicate HasBlob(rings: seq<RingRecord>, id: u32) {
    exists r :: 0 <= r < |rings| && rings[r].ready && rings[r].blob.resourceId == id
  }

  ghost predicate OwnsContextId(rings: seq<RingRecord>, id: u32) { exists r :: 0 <= r < |rings| && Owns(rings[r], id) }

  /** Live on each side is what was live in s0 and, apart from that, exactly the
      standing rings' blobs and the contexts they own. */
  ghost predicate Conserved(s0: System, w: RingWorld) { forall id: u32 :: ConservedAt(s0, w, id) }

  ghost predicate ConservedAt(s0: System, w: RingWorld, id: u32) {
    && (HasBlob(w.rings, id) ==> !IsLive(s0.dev, id) && id !in s0.host.resources)
    && (OwnsContextId(w.rings, id) ==> !LiveContext(s0, id))
    && (IsLive(w.sys.dev, id) <==> IsLive(s0.dev, id) || HasBlob(w.rings, id))
    && (id in w.sys.host.resources <==> id in s0.host.resources || HasBlob(w.rings, id))
    && (LiveContext(w.sys, id) <==> LiveContext(s0, id) || OwnsContextId(w.rings, id))
  }

  /** A create that leaves the host with a blob no ring has. */
  ghost predicate StepLoses(w: RingWorld, op: RingOp) {
    match op
    case CreateRing(r, size, _, a) => r < |w.rings| && CreateLoses(w.sys, w.rings[r], size, a)
    case CreateRingOn(r, _, size, a) => r < |w.rings| && CreateOnLoses(w.sys, w.rings[r], size, a)
    case DestroyRing(_, _) => false
  }

  /** The host accepts every release of the run. */
  ghost predicate Accepting(ops: seq<RingOp>) { forall k :: 0 <= k < |ops| ==> AcceptsReleases(ops[k].a) }

  /** Some create of the run loses its blob. */
  ghost predicate SomeStepLoses(w: RingWorld, ops: seq<RingOp>)
    decreases ops
  {
    ops != [] && (StepLoses(w, ops[0]) || SomeStepLoses(RingStep(w, ops[0]), ops[1..]))
  }

  /** A new ring in a slot that was zero. */
  lemma RingAdded(rings: seq<RingRecord>, r: nat, ring: RingRecord)
    requires r < |rings| && rings[r] == ZERO_RING && ring.ready
    ensures forall id: u32 :: HasBlob(rings[r := ring], id) <==> HasBlob(rings, id) || id == ring.blob.resourceId
    ensures forall id: u32 :: OwnsContextId(rings[r := ring], id) <==> OwnsContextId(rings, id) || Owns(ring, id)
  {
    var rings' := rings[r := ring];
    assert rings'[r] == ring;
    forall id: u32
      ensures HasBlob(rings', id) <==> HasBlob(rings, id) || id == ring.blob.resourceId
      ensures OwnsContextId(rings', id) <==> OwnsContextId(rings, id) || Owns(ring, id)
    {
      if q :| 0 <= q < |rings| && rings[q].ready && rings[q].blob.resourceId == id { assert rings'[q] == rings[q]; }
      if q :| 0 <= q < |rings| && Owns(rings[q], id) { assert rings'[q] == rings[q]; }
    }
  }

  /** Two standing rings share neither a blob nor a context of their own. */
  lemma RingsApart(w: RingWorld, r: nat, q: nat)
    requires RingsOk(w) && r < |w.rings| && q < |w.rings| && q != r && w.rings[r].ready && w.rings[q].ready
    ensures w.rings[q].blob.resourceId != w.rings[r].blob.resourceId
    ensures forall id: u32 :: !(Owns(w.rings[r], id) && Owns(w.rings[q], id))
  {
    assert RingOk(w.sys, w.rings[q]) && RingOk(w.sys, w.rings[r]);
    var lo, hi := if q < r then q else r, if q < r then r else q;
    assert AsWorld(w).records[lo].resourceId != AsWorld(w).records[hi].resourceId;
    assert Owns(w.rings[lo], w.rings[lo].ctx.id) ==> !Owns(w.rings[hi], w.rings[lo].ctx.id);
  }

  /** A standing ring zeroed. */
  lemma RingRemoved(w: RingWorld, r: nat)
    requires RingsOk(w) && r < |w.rings| && w.rings[r].ready
    ensures var ring, rings' := w.rings[r], w.rings[r := ZERO_RING];
      && (forall id: u32 :: HasBlob(rings', id) <==> HasBlob(w.rings, id) && id != ring.blob.resourceId)
      && (forall id: u32 :: OwnsContextId(rings', id) <==> OwnsContextId(w.rings, id) && !Owns(ring, id))
  {
    var ring, rings' := w.rings[r], w.rings[r := ZERO_RING];
    forall q | 0 <= q < |w.rings| && q != r && w.rings[q].ready
      ensures w.rings[q].blob.resourceId != ring.blob.resourceId
      ensures forall id: u32 :: !(Owns(ring, id) && Owns(w.rings[q], id))
    {
      RingsApart(w, r, q);
    }
    hide RingsOk;
    forall id: u32
      ensures HasBlob(rings', id) <==> HasBlob(w.rings, id) && id != ring.blob.resourceId
      ensures OwnsContextId(rings', id) <==> OwnsContextId(w.rings, id) && !Owns(ring, id)
    {
      if q :| 0 <= q < |w.rings| && w.rings[q].ready && w.rings[q].blob.resourceId == id && q != r {
        assert rings'[q] == w.rings[q];
      }
      if q :| 0 <= q < |w.rings| && Owns(w.rings[q], id) && q != r { assert rings'[q] == w.rings[q]; }
    }
  }

  /** A held blob is one live resource more, on both sides. */
  lemma HoldingLive(s0: System, s: System, i: nat, b: Blob)
    requires Holding(s0, s, i, b)
    ensures forall id: u32 :: IsLive(s.dev, id) <==> IsLive(s0.dev, id) || id == b.resourceId
    ensures forall id: u32 :: id in s.host.resources <==> id in s0.host.resources || id == b.resourceId
  {
    assert Matches(s.dev.resources[i], b.resourceId);
    forall id: u32
      ensures IsLive(s.dev, id) <==> IsLive(s0.dev, id) || id == b.resourceId
    {
      var f := FindFrom(s0.dev.resources, id, 0);
      if f.Some? { assert s.dev.resources[f.value] == s0.dev.resources[f.value]; }
    }
  }

  // ---- what one call does to the tables ------------------------------------------------

  /** Ring r stands in w', on a new blob and perhaps a new context. */
  ghost predicate Added(w: RingWorld, w': RingWorld, r: nat) {
    && r < |w.rings| == |w'.rings| && w'.rings == w.rings[r := w'.rings[r]]
    && var ring := w'.rings[r];
       && w.rings[r] == ZERO_RING && ring.ready
       && !IsLive(w.sys.dev, ring.blob.resourceId) && ring.blob.resourceId !in w.sys.host.resources
       && (forall id: u32 :: Owns(ring, id) ==> !LiveContext(w.sys, id))
       && (forall id: u32 :: IsLive(w'.sys.dev, id) <==> IsLive(w.sys.dev, id) || id == ring.blob.resourceId)
       && (forall id: u32 :: id in w'.sys.host.resources <==> id in w.sys.host.resources || id == ring.blob.resourceId)
       && (forall id: u32 :: LiveContext(w'.sys, id) <==> LiveContext(w.sys, id) || Owns(ring, id))
  }

  /** Ring r is gone in w', and its blob and own context with it. */
  ghost predicate Removed(w: RingWorld, w': RingWorld, r: nat) {
    && r < |w.rings| && w.rings[r].ready && w'.rings == w.rings[r := ZERO_RING]
    && var ring := w.rings[r];
       && (forall id: u32 :: IsLive(w'.sys.dev, id) <==> IsLive(w.sys.dev, id) && id != ring.blob.resourceId)
       && (forall id: u32 :: id in w'.sys.host.resources <==> id in w.sys.host.resources && id != ring.blob.resourceId)
       && (forall id: u32 :: LiveContext(w'.sys, id) <==> LiveContext(w.sys, id) && !Owns(ring, id))
  }

  /** A call fails or does nothing, losing a blob or not; or it adds a ring, or
      removes one. */
  ghost predicate Effect(w: RingWorld, w': RingWorld, r: nat, lost: bool) {
    || (w'.rings == w.rings && Restored(w.sys, w'.sys, lost))
    || (!lost && Added(w, w', r))
    || (!lost && Removed(w, w', r))
  }

  /** A ring on a blob that is held in s, on contexts as in s1. */
  lemma AcquiredAdds(w: RingWorld, s1: System, s: System, i: nat, ring: RingRecord, r: nat)
    requires r < |w.rings| && w.rings[r] == ZERO_RING && ring.ready && ContextsOk(s1)
    requires OnlyContexts(w.sys, s1) && Holding(s1, s, i, ring.blob)
    requires forall id: u32 :: LiveContext(s1, id) <==> LiveContext(w.sys, id) || Owns(ring, id)
    requires forall id: u32 :: Owns(ring, id) ==> !LiveContext(w.sys, id)
    ensures Added(w, RingWorld(s, w.rings[r := ring]), r)
  {
    HoldingLive(s1, s, i, ring.blob);
    StillOnly(s1, s, i, ring.blob);
    SameContexts(s1, s);
    assert ring.blob.resourceId !in w.sys.host.resources && !IsLive(w.sys.dev, ring.blob.resourceId) by {
      NotLiveBefore(s1, s, i, ring.blob);
    }
    hide Holding, LiveContext, Owns, ContextsOk;
  }

  lemma NotLiveBefore(s0: System, s: System, i: nat, b: Blob)
    requires Holding(s0, s, i, b)
    ensures b.resourceId !in s0.host.resources && !IsLive(s0.dev, b.resourceId)
  {
    forall k | 0 <= k < MAX_RESOURCES
      ensures !Matches(s0.dev.resources[k], b.resourceId)
    {
      if k != i {
        assert s.dev.resources[k] == s0.dev.resources[k] && Matches(s.dev.resources[i], b.resourceId);
      }
    }
  }

  lemma CreateAdds(w: RingWorld, op: RingOp)
    requires RingsOk(w) && op.CreateRing? && op.r < |w.rings| && FreshIds(w.sys) && AcceptsReleases(op.a)
    requires RingCreate(w.sys, w.rings[op.r], op.size, op.blobId, op.a).rc == 0
    ensures Added(w, RingStep(w, op), op.r)
  {
    var r, a := op.r, op.a;
    assert RingOk(w.sys, w.rings[r]);
    var made := ContextCreate(w.sys, VENUS_CAPSET, NO_CONTEXT, a.contextCreate);
    var j := ContextCreateCall(w.sys, VENUS_CAPSET, NO_CONTEXT, a.contextCreate);
    ContextsLeaveSys(w.sys, made.sys);
    var i := AcquireOutcome(made.sys, made.record, op.size, op.blobId, a);
    var got := AcquireBlob(made.sys, made.record, op.size, op.blobId, a);
    hide AcquireBlob, ContextCreate, Holding, RingsOk, LiveContext;
    AcquiredAdds(w, made.sys, got.sys, i, RingStep(w, op).rings[r], r);
    hide Added;
  }

  lemma CreateOnAdds(w: RingWorld, op: RingOp)
    requires RingsOk(w) && op.CreateRingOn? && op.r < |w.rings| && StepFresh(w.sys, op) && AcceptsReleases(op.a)
    requires RingCreateOnContext(w.sys, w.rings[op.r], op.ctx, op.size, op.a).rc == 0
    ensures Added(w, RingStep(w, op), op.r)
  {
    var r, a := op.r, op.a;
    assert RingOk(w.sys, w.rings[r]);
    var i := AcquireOutcome(w.sys, op.ctx, op.size, 0, a);
    var got := AcquireBlob(w.sys, op.ctx, op.size, 0, a);
    hide AcquireBlob, Holding, LiveContext;
    AcquiredAdds(w, w.sys, got.sys, i, RingStep(w, op).rings[r], r);
    hide Added, RingsOk;
  }

  lemma CreateEffect(w: RingWorld, op: RingOp)
    requires RingsOk(w) && op.CreateRing? && op.r < |w.rings| && FreshIds(w.sys) && AcceptsReleases(op.a)
    ensures Effect(w, RingStep(w, op), op.r, StepLoses(w, op))
  {
    var ring, a := w.rings[op.r], op.a;
    var out := RingCreate(w.sys, ring, op.size, op.blobId, a);
    LosingCreatesFail(w.sys, ring, NO_CONTEXT, op.size, op.blobId, a);
    hide CreateLoses, RingCreate, Added, Removed;
    if out.rc != 0 {
      assert RingOk(w.sys, ring);
      hide RingsOk;
      FailedRingCreate(w.sys, ring, op.size, op.blobId, a);
      assert w.rings[op.r := ring] == w.rings;
      FailedCreateKeepsRecord(w.sys, ring, op.size, op.blobId, a);
    } else {
      CreateAdds(w, op);
      hide RingsOk;
    }
  }

  /** A create on a ring that stands is refused, so a failure keeps the record. */
  lemma FailedCreateKeepsRecord(s: System, ring: RingRecord, size: u64, blobId: u64, a: Answers)
    requires RingOk(s, ring)
    ensures RingCreate(s, ring, size, blobId, a).rc != 0 ==> RingCreate(s, ring, size, blobId, a).record == ring
    ensures forall ctx: ContextRecord :: RingCreateOnContext(s, ring, ctx, size, a).rc != 0 ==>
              RingCreateOnContext(s, ring, ctx, size, a).record == ring
  {
    hide AcquireBlob, ContextCreate, ContextDestroy;
  }

  lemma CreateOnEffect(w: RingWorld, op: RingOp)
    requires RingsOk(w) && op.CreateRingOn? && op.r < |w.rings| && StepFresh(w.sys, op) && AcceptsReleases(op.a)
    ensures Effect(w, RingStep(w, op), op.r, StepLoses(w, op))
  {
    var ring, a := w.rings[op.r], op.a;
    var out := RingCreateOnContext(w.sys, ring, op.ctx, op.size, a);
    LosingCreatesFail(w.sys, ring, op.ctx, op.size, 0, a);
    hide CreateOnLoses, RingCreateOnContext, Added, Removed;
    if out.rc != 0 {
      assert RingOk(w.sys, ring);
      hide RingsOk;
      FailedRingCreateOnContext(w.sys, ring, op.ctx, op.size, a);
      assert w.rings[op.r := ring] == w.rings;
      FailedCreateKeepsRecord(w.sys, ring, op.size, 0, a);
    } else {
      CreateOnAdds(w, op);
      hide RingsOk;
    }
  }

  /** The blob of a standing ring leaves both tables. */
  lemma ReleasedLive(w: World, r: nat, a: Answers)
    requires Inv(w) && r < |w.records| && w.records[r].created && w.records[r].mapped && AcceptsReleases(a)
    ensures var s' := Release(w.sys, w.records[r], a.unmap, a.unref).sys;
      && (forall id: u32 :: IsLive(s'.dev, id) <==> IsLive(w.sys.dev, id) && id != w.records[r].resourceId)
      && (forall id: u32 :: id in s'.host.resources <==> id in w.sys.host.resources && id != w.records[r].resourceId)
  {
    assert RecordOk(w.sys.dev, w.records[r]);
    UnmapCall(w.sys, w.records[r], 0);
    var w1 := BlobLifecycle.Step(w, Unmap(r, 0));
    BlobLifecycle.StepKeepsInv(w, Unmap(r, 0));
    DestroyCall(w1.sys, w1.records[r], 0);
    forall id: u32
      ensures var s' := Release(w.sys, w.records[r], a.unmap, a.unref).sys;
        && (IsLive(s'.dev, id) <==> IsLive(w.sys.dev, id) && id != w.records[r].resourceId)
        && (id in s'.host.resources <==> id in w.sys.host.resources && id != w.records[r].resourceId)
    {
      LiveChange(w, Unmap(r, 0), id);
      HostChange(w, Unmap(r, 0), id);
      LiveChange(w1, Destroy(r, 0), id);
      HostChange(w1, Destroy(r, 0), id);
    }
  }

  lemma DestroyEffect(w: RingWorld, op: RingOp)
    requires RingsOk(w) && op.DestroyRing? && op.r < |w.rings| && AcceptsReleases(op.a)
    ensures Effect(w, RingStep(w, op), op.r, false)
  {
    var r, ring := op.r, w.rings[op.r];
    assert RingOk(w.sys, ring);
    if ring == ZERO_RING {
      assert w.rings[r := ZERO_RING] == w.rings;
    } else {
      ReleasedLive(AsWorld(w), r, op.a);
      ReleaseKeeps(AsWorld(w), r, op.a);
      var s1 := Release(w.sys, ring.blob, op.a.unmap, op.a.unref).sys;
      SameContexts(w.sys, s1);
      if !ring.borrowedCtx && ring.ctx.created { ContextDestroyCall(s1, ring.ctx, 0); }
      var w' := RingStep(w, op);
      assert forall id: u32 :: IsLive(w'.sys.dev, id) == IsLive(s1.dev, id);
      hide Release, ContextDestroy, RingDestroy, Inv, ContextsOk, RingsOk, IsLive, LiveContext, Added;
      assert Removed(w, w', r);
    }
  }

  lemma StepEffect(w: RingWorld, op: RingOp)
    requires RingsOk(w) && StepFresh(w.sys, op) && op.r < |w.rings| && AcceptsReleases(op.a)
    ensures Effect(w, RingStep(w, op), op.r, StepLoses(w, op))
  {
    match op
    case CreateRing(_, _, _, _) => CreateEffect(w, op);
    case CreateRingOn(_, _, _, _) => CreateOnEffect(w, op);
    case DestroyRing(_, _) => DestroyEffect(w, op);
  }

  lemma AddedConserves(s0: System, w: RingWorld, w': RingWorld, r: nat)
    requires Conserved(s0, w) && Added(w, w', r)
    ensures Conserved(s0, w')
  {
    var ring := w'.rings[r];
    RingAdded(w.rings, r, ring);
    hide HasBlob, OwnsContextId, IsLive, LiveContext, Owns;
    forall id: u32
      ensures ConservedAt(s0, w', id)
    {
      assert ConservedAt(s0, w, id);
      assert HasBlob(w'.rings, id) <==> HasBlob(w.rings, id) || id == ring.blob.resourceId;
      assert OwnsContextId(w'.rings, id) <==> OwnsContextId(w.rings, id) || Owns(ring, id);
    }
  }

  lemma RemovedConserves(s0: System, w: RingWorld, w': RingWorld, r: nat)
    requires Conserved(s0, w) && RingsOk(w) && Removed(w, w', r)
    ensures Conserved(s0, w')
  {
    RingRemoved(w, r);
    var ring := w.rings[r];
    assert HasBlob(w.rings, ring.blob.resourceId);
    assert forall id: u32 :: Owns(ring, id) ==> OwnsContextId(w.rings, id);
    hide HasBlob, OwnsContextId, RingsOk, IsLive, LiveContext, Owns;
    assert ConservedAt(s0, w, ring.blob.resourceId);
    forall id: u32
      ensures ConservedAt(s0, w', id)
    {
      assert ConservedAt(s0, w, id);
      assert HasBlob(w'.rings, id) <==> HasBlob(w.rings, id) && id != ring.blob.resourceId;
      assert OwnsContextId(w'.rings, id) <==> OwnsContextId(w.rings, id) && !Owns(ring, id);
    }
  }

  lemma RestoredConserves(s0: System, w: RingWorld, w': RingWorld)
    requires Conserved(s0, w) && Restored(w.sys, w'.sys, false) && w'.rings == w.rings
    ensures Conserved(s0, w')
  {
    hide HasBlob, OwnsContextId;
    forall id: u32
      ensures ConservedAt(s0, w', id)
    {
      assert ConservedAt(s0, w, id);
    }
  }

  /** The host has a resource that neither s0 nor any ring accounts for. */
  ghost predicate LeftBehind(s0: System, w: RingWorld, id: u32) {
    id in w.sys.host.resources && id !in s0.host.resources && !HasBlob(w.rings, id)
  }

  lemma LeftBehindStays(s0: System, w: RingWorld, w': RingWorld, r: nat, lost: bool, id: u32)
    requires RingsOk(w) && Effect(w, w', r, lost) && LeftBehind(s0, w, id)
    ensures LeftBehind(s0, w', id)
  {
    if Added(w, w', r) {
      RingAdded(w.rings, r, w'.rings[r]);
    } else if Removed(w, w', r) {
      RingRemoved(w, r);
      assert HasBlob(w.rings, w.rings[r].blob.resourceId);
    }
    hide RingsOk, HasBlob, IsLive, LiveContext, Owns;
  }

  lemma LosingLeavesBehind(s0: System, w: RingWorld, w': RingWorld, r: nat)
    requires Conserved(s0, w) && NewToHost(w.sys) && Effect(w, w', r, true)
    ensures LeftBehind(s0, w', w.sys.dev.nextRes)
  {
    assert ConservedAt(s0, w, w.sys.dev.nextRes);
    hide HasBlob;
  }

  lemma StepConservesIff(s0: System, w: RingWorld, op: RingOp)
    requires RingsOk(w) && Conserved(s0, w) && StepFresh(w.sys, op) && AcceptsReleases(op.a)
    ensures StepLoses(w, op) ==> exists id: u32 :: LeftBehind(s0, RingStep(w, op), id)
    ensures !StepLoses(w, op) ==> Conserved(s0, RingStep(w, op))
  {
    if op.r < |w.rings| {
      var w', lost := RingStep(w, op), StepLoses(w, op);
      StepEffect(w, op);
      if lost {
        assert NewToHost(w.sys);
        hide StepLoses, RingStep, Conserved;
        LosingLeavesBehind(s0, w, w', op.r);
      } else {
        hide StepLoses, RingStep, Conserved, StepFresh, Restored, Added, Removed;
        if Added(w, w', op.r) { AddedConserves(s0, w, w', op.r); }
        else if Removed(w, w', op.r) { RemovedConserves(s0, w, w', op.r); }
        else { RestoredConserves(s0, w, w'); }
      }
    }
  }

  lemma {:induction false} StaysLeftBehind(s0: System, w: RingWorld, ops: seq<RingOp>, id: u32)
    requires RingsOk(w) && RingFresh(w, ops) && Accepting(ops) && LeftBehind(s0, w, id)
    ensures LeftBehind(s0, RingRun(w, ops), id)
    decreases ops
  {
    if ops != [] {
      var op, w' := ops[0], RingStep(w, ops[0]);
      assert AcceptsReleases(ops[0].a) && forall k :: 0 <= k < |ops| - 1 ==> ops[1..][k] == ops[k + 1];
      RingStepKeepsOk(w, op);
      if op.r < |w.rings| {
        StepEffect(w, op);
        hide RingsOk, StepFresh, StepLoses, Effect, LeftBehind;
        LeftBehindStays(s0, w, w', op.r, StepLoses(w, op), id);
      }
      hide RingStep, LeftBehind, RingsOk;
      StaysLeftBehind(s0, w', ops[1..], id);
    }
  }

  lemma {:induction false} RingRunConservesIff(s0: System, w: RingWorld, ops: seq<RingOp>)
    requires RingsOk(w) && Conserved(s0, w) && RingFresh(w, ops) && Accepting(ops)
    ensures Conserved(s0, RingRun(w, ops)) <==> !SomeStepLoses(w, ops)
    decreases ops
  {
    if ops != [] {
      hide RingsOk, Conserved, StepFresh, StepLoses, RingStep;
      assert AcceptsReleases(ops[0].a) && forall k :: 0 <= k < |ops| - 1 ==> ops[1..][k] == ops[k + 1];
      var w' := RingStep(w, ops[0]);
      RingStepKeepsOk(w, ops[0]);
      StepConservesIff(s0, w, ops[0]);
      if StepLoses(w, ops[0]) {
        var id: u32 :| LeftBehind(s0, w', id);
        StaysLeftBehind(s0, w', ops[1..], id);
        LeftBehindIsLost(s0, RingRun(w, ops), id);
      } else {
        RingRunConservesIff(s0, w', ops[1..]);
      }
    }
  }

  lemma LeftBehindIsLost(s0: System, w: RingWorld, id: u32)
    requires LeftBehind(s0, w, id)
    ensures !Conserved(s0, w)
  {
    assert !ConservedAt(s0, w, id);
  }

  /** Whatever else lives on the device: after any number of creates and destroys
      of rings that were all zero, with a host that accepts releases, what has
      been added on either side is exactly what the rings that stand hold, if and
      only if no create lost its blob to the window counter. */
  lemma NothingLeftBehindIff(w: RingWorld, ops: seq<RingOp>)
    requires RingsOk(w) && forall r :: 0 <= r < |w.rings| ==> w.rings[r] == ZERO_RING
    requires RingFresh(w, ops) && Accepting(ops)
    ensures Conserved(w.sys, RingRun(w, ops)) <==> !SomeStepLoses(w, ops)
  {
    assert Conserved(w.sys, w) by {
      assert forall id: u32 :: !HasBlob(w.rings, id) && !OwnsContextId(w.rings, id);
    }
    RingRunConservesIff(w.sys, w, ops);
  }

  // ---- until the id counters wrap ------------------------------------------------------------

  ghost predicate ContextsBelow(s: System) {
    0 < s.dev.nextCtx && forall i :: 0 <= i < |s.dev.contexts| && s.dev.contexts[i].live ==> s.dev.contexts[i].id < s.dev.nextCtx
  }

  lemma ContextCallsStayBelow(s: System, capset: u32, ctx: ContextRecord, answer: int)
    requires ContextsBelow(s) && s.dev.nextCtx + 1 < U32
    ensures var s' := ContextCreate(s, capset, ctx, answer).sys;
      ContextsBelow(s') && s'.dev.nextCtx <= s.dev.nextCtx + 1 && OnlyContexts(s, s')
    ensures ContextsBelow(ContextDestroy(s, ctx, answer).sys) && ContextDestroy(s, ctx, answer).sys.dev.nextCtx == s.dev.nextCtx
    ensures OnlyContexts(s, ContextDestroy(s, ctx, answer).sys)
  {
  }

  /** Ids of both kinds below their counters. */
  ghost predicate Below(s: System) { IdsBelow(s) && ContextsBelow(s) }

  lemma BlobCallsLeaveContexts(s: System, size: u64, blobId: u64, b: Blob, a: Answers)
    ensures OnlyResources(s, BlobCreate(s, size, BLOB_MEM_HOST3D, BLOB_FLAG_USE_MAPPABLE, blobId, b, a.blobCreate).sys)
    ensures OnlyResources(s, BlobMap(s, b, a.mapBlob, a.mapInfo, a.undoMap).sys)
    ensures OnlyResources(s, BlobUnmap(s, b, a.unmap).sys)
    ensures OnlyResources(s, BlobDestroy(s, b, a.unref).sys)
  {
    hide And, AlignedSize;
  }

  lemma UndoStaysBelow(s: System, b: Blob, a: Answers)
    requires Below(s)
    ensures Below(UndoBlob(s, b, a)) && UndoBlob(s, b, a).dev.nextRes == s.dev.nextRes
    ensures OnlyResources(s, UndoBlob(s, b, a))
  {
    hide IdsBelow, BlobUnmap, BlobDestroy;
    var out := BlobUnmap(s, b, a.unmap);
    UnmapStaysBelow(s, b, a.unmap);
    BlobCallsLeaveContexts(s, 0, 0, b, a);
    DestroyStaysBelow(out.sys, out.record, a.unref);
    BlobCallsLeaveContexts(out.sys, 0, 0, out.record, a);
  }

  lemma AcquireStaysBelow(s: System, ctx: ContextRecord, size: u64, blobId: u64, a: Answers)
    requires Below(s) && s.dev.nextRes + 1 < U32
    ensures var s' := AcquireBlob(s, ctx, size, blobId, a).sys;
      Below(s') && s'.dev.nextRes <= s.dev.nextRes + 1 && OnlyResources(s, s')
  {
    hide IdsBelow, BlobCreate, BlobMap, BlobDestroy, UndoBlob, ContextResource;
    CreateStaysBelow(s, size, BLOB_MEM_HOST3D, BLOB_FLAG_USE_MAPPABLE, blobId, ZERO_BLOB, a.blobCreate);
    BlobCallsLeaveContexts(s, size, blobId, ZERO_BLOB, a);
    var made := BlobCreate(s, size, BLOB_MEM_HOST3D, BLOB_FLAG_USE_MAPPABLE, blobId, ZERO_BLOB, a.blobCreate);
    MapStaysBelow(made.sys, made.record, a.mapBlob, a.mapInfo, a.undoMap);
    BlobCallsLeaveContexts(made.sys, 0, 0, made.record, a);
    var out := BlobMap(made.sys, made.record, a.mapBlob, a.mapInfo, a.undoMap);
    DestroyStaysBelow(out.sys, out.record, a.unref);
    BlobCallsLeaveContexts(out.sys, 0, 0, out.record, a);
    UndoStaysBelow(out.sys, out.record, a);
  }

  lemma RingBlobStaysBelow(s: System, b: Blob, a: Answers)
    requires Below(s)
    ensures var s' := Release(s, b, a.unmap, a.unref).sys; Below(s') && s'.dev.nextRes == s.dev.nextRes && OnlyResources(s, s')
  {
    hide IdsBelow, BlobUnmap, BlobDestroy;
    ReleaseStaysBelow(s, b, a.unmap, a.unref);
    BlobCallsLeaveContexts(s, 0, 0, b, a);
    var out := if b.mapped then BlobUnmap(s, b, a.unmap) else Outcome(s, b, 0);
    BlobCallsLeaveContexts(out.sys, 0, 0, out.record, a);
  }

  lemma ContextsLeaveBelow(s: System, s': System)
    requires IdsBelow(s) && OnlyContexts(s, s')
    ensures IdsBelow(s')
  {
  }

  lemma RingStepStaysBelow(w: RingWorld, op: RingOp)
    requires Below(w.sys) && w.sys.dev.nextRes + 1 < U32 && w.sys.dev.nextCtx + 1 < U32
    ensures Below(RingStep(w, op).sys)
    ensures RingStep(w, op).sys.dev.nextRes <= w.sys.dev.nextRes + 1 && RingStep(w, op).sys.dev.nextCtx <= w.sys.dev.nextCtx + 1
  {
    hide IdsBelow, ContextsBelow, AcquireBlob, Release, ContextCreate, ContextDestroy;
    if op.r < |w.rings| {
      match op
      case CreateRing(r, size, blobId, a) =>
        ContextCallsStayBelow(w.sys, VENUS_CAPSET, NO_CONTEXT, a.contextCreate);
        var made := ContextCreate(w.sys, VENUS_CAPSET, NO_CONTEXT, a.contextCreate);
        ContextsLeaveBelow(w.sys, made.sys);
        AcquireStaysBelow(made.sys, made.record, size, blobId, a);
        var out := AcquireBlob(made.sys, made.record, size, blobId, a);
        DestroyContextStaysBelow(out.sys, made.record, a.contextDestroy);
      case CreateRingOn(r, ctx, size, a) => AcquireStaysBelow(w.sys, ctx, size, 0, a);
      case DestroyRing(r, a) =>
        RingBlobStaysBelow(w.sys, w.rings[r].blob, a);
        DestroyContextStaysBelow(Release(w.sys, w.rings[r].blob, a.unmap, a.unref).sys, w.rings[r].ctx, a.contextDestroy);
    }
  }

  lemma DestroyContextStaysBelow(s: System, ctx: ContextRecord, answer: int)
    requires Below(s)
    ensures var s' := ContextDestroy(s, ctx, answer).sys; Below(s') && OnlyContexts(s, s') && s'.dev.nextCtx == s.dev.nextCtx
  {
  }

  /** Until one of the 32-bit counters wraps every id is fresh. */
  lemma {:induction false} ShortRingRunsAreFresh(w: RingWorld, ops: seq<RingOp>)
    requires Below(w.sys) && w.sys.dev.nextRes + |ops| < U32 && w.sys.dev.nextCtx + |ops| < U32
    ensures RingFresh(w, ops)
    decreases ops
  {
    if ops != [] {
      BelowIsFresh(w.sys);
      hide IdsBelow, RingStep;
      RingStepStaysBelow(w, ops[0]);
      ShortRingRunsAreFresh(RingStep(w, ops[0]), ops[1..]);
    }
  }
}
