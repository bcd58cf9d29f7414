/** The virtgpu DRM translator's table of buffer objects: handles are table
    indices plus one, each object owns one blob of the device below. */
module DrmHandles {
  import opened Bits
  import opened Errno
  import opened Rounding
  import opened Wrappers
  import opened GpuSystem
  import opened BlobLifecycle

  const MAX_HANDLES: nat := 256

  /** `mapped` is the address of the mapping, 0 when there is none. */
  datatype Bo = Bo(handle: u32, resHandle: u32, size: u64, isBlob: bool, mem: u32, flags: u32, mapped: u64, blob: Blob)
  const ZERO_BO := Bo(0, 0, 0, false, 0, 0, 0, ZERO_BLOB)

  datatype Drm = Drm(handles: seq<Bo>, next: u32, nextBlobId: u64, sys: System)

  // ---- the calls -----------------------------------------------------------------

  /** bo_lookup */
  function Lookup(d: Drm, h: u32): (r: Option<nat>)
    requires |d.handles| == MAX_HANDLES && d.next <= MAX_HANDLES
    ensures r.Some? ==> r.value == h - 1 && h <= d.next && d.handles[r.value].handle == h != 0
  {
    if h == 0 || h > d.next then None
    else if d.handles[h - 1].handle != h then None
    else Some(h - 1)
  }

  /** uk_drm_virtgpu_resource_create_blob; the returned handle is 0 on failure. */
  function CreateBo(d: Drm, mem: u32, flags: u32, size: u64, answer: int): (Drm, u32, int)
    requires |d.handles| == MAX_HANDLES
  {
    if size == 0 then (d, 0, EINVAL)
    else if d.next >= MAX_HANDLES then (d, 0, ENOMEM)
    else
      var out := BlobCreate(d.sys, size, mem, flags, d.nextBlobId, ZERO_BLOB, answer);
      var d1 := d.(nextBlobId := (d.nextBlobId + 1) % U64, sys := out.sys);
      if out.rc != 0 then (d1.(handles := d.handles[d.next := ZERO_BO.(blob := out.record)]), 0, out.rc)
      else
        var bo := Bo(d.next + 1, out.record.resourceId, size, true, mem, flags, 0, out.record);
        (d1.(handles := d.handles[d.next := bo], next := d.next + 1), d.next + 1, 0)
  }

  /** uk_drm_virtgpu_map: the address of the object's mapping. */
  function MapBo(d: Drm, h: u32, answer: int, mapInfo: u32, undoAnswer: int): (Drm, u64, int)
    requires |d.handles| == MAX_HANDLES && d.next <= MAX_HANDLES
  {
    match Lookup(d, h)
    case None => (d, 0, ENOENT)
    case Some(i) =>
      var bo := d.handles[i];
      if !bo.isBlob then (d, 0, ENOENT)
      else if bo.mapped != 0 then (d, bo.mapped, 0)
      else
        var out := BlobMap(d.sys, bo.blob, answer, mapInfo, undoAnswer);
        if out.rc != 0 then (d.(sys := out.sys, handles := d.handles[i := bo.(blob := out.record)]), 0, out.rc)
        else
          var bo' := bo.(blob := out.record, mapped := out.record.mappedAddr);
          (d.(sys := out.sys, handles := d.handles[i := bo']), bo'.mapped, 0)
  }

  /** bo_release: unmap if mapped, destroy, forget the object either way. */
  function ReleaseBo(d: Drm, i: nat, unmapAnswer: int, unrefAnswer: int): Drm
    requires i < |d.handles|
  {
    var bo := d.handles[i];
    if !bo.isBlob || !bo.blob.created then d
    else
      var out1 := if bo.blob.mapped then BlobUnmap(d.sys, bo.blob, unmapAnswer) else Outcome(d.sys, bo.blob, 0);
      var out2 := BlobDestroy(out1.sys, out1.record, unrefAnswer);
      d.(sys := out2.sys, handles := d.handles[i := ZERO_BO])
  }

  /** uk_drm_virtgpu_gem_close */
  function CloseBo(d: Drm, h: u32, unmapAnswer: int, unrefAnswer: int): (Drm, int)
    requires |d.handles| == MAX_HANDLES && d.next <= MAX_HANDLES
  {
    match Lookup(d, h)
    case None => (d, ENOENT)
    case Some(i) =>
      if !d.handles[i].isBlob then (d, ENOENT)
      else (ReleaseBo(d, i, unmapAnswer, unrefAnswer), 0)
  }

  datatype DrmOp =
    | CreateOp(mem: u32, flags: u32, size: u64, answer: int)
    | MapOp(h: u32, answer: int, mapInfo: u32, undoAnswer: int)
    | CloseOp(h: u32, unmapAnswer: int, unrefAnswer: int)

  function DrmStep(d: Drm, op: DrmOp): Drm
    requires |d.handles| == MAX_HANDLES && d.next <= MAX_HANDLES
  {
    match op
    case CreateOp(mem, flags, size, answer) => CreateBo(d, mem, flags, size, answer).0
    case MapOp(h, answer, mapInfo, undoAnswer) => MapBo(d, h, answer, mapInfo, undoAnswer).0
    case CloseOp(h, unmapAnswer, unrefAnswer) => CloseBo(d, h, unmapAnswer, unrefAnswer).0
  }

  // ---- the invariant -----------------------------------------------------------

  function Blobs(handles: seq<Bo>): seq<Blob> {
    seq(|handles|, i requires 0 <= i < |handles| => handles[i].blob)
  }

  function AsWorld(d: Drm): World { World(d.sys, Blobs(d.handles), []) }

  /** A slot of the table is either empty or holds the object whose handle is its
      index plus one; the object's fields describe its blob. */
  ghost predicate BoOk(d: Drm, i: nat)
    requires i < |d.handles|
  {
    var bo := d.handles[i];
    if bo.handle == 0 then bo == ZERO_BO
    else
      && i < d.next && bo.handle == i + 1
      && bo.isBlob && bo.blob.created && bo.resHandle == bo.blob.resourceId
      && bo.mem == bo.blob.mem && bo.flags == bo.blob.flags
      && 0 < bo.size && bo.blob.size == RoundedUp(bo.size, Alignment(d.sys.dev.cfg))
      && bo.mapped == bo.blob.mappedAddr
  }

  ghost predicate DrmInv(d: Drm) {
    && |d.handles| == MAX_HANDLES && d.next <= MAX_HANDLES
    && (forall i :: 0 <= i < MAX_HANDLES ==> BoOk(d, i))
    && Inv(AsWorld(d))
  }

  ghost predicate DrmInitial(d: Drm) {
    d.handles == seq(MAX_HANDLES, _ => ZERO_BO) && d.next == 0 && BlobLifecycle.Initial(World(d.sys, [], []))
  }

  lemma DrmInitialInv(d: Drm)
    requires DrmInitial(d)
    ensures DrmInv(d)
  {
    InitialInv(AsWorld(d));
  }

  /** A call on the blob of slot i, with the object written back. */
  lemma UpdateBo(d: Drm, i: nat, out: Outcome<Blob>, bo: Bo)
    requires DrmInv(d) && i < MAX_HANDLES && d.handles[i].blob.created
    requires GoodCall(d.sys, d.handles[i].blob, out)
    requires bo.blob == out.record || bo.blob == ZERO_BLOB
    requires BoOk(d.(handles := d.handles[i := bo]), i)
    ensures DrmInv(d.(handles := d.handles[i := bo], sys := out.sys))
  {
    var w := AsWorld(d);
    AfterCall(w, i, out);
    var d' := d.(handles := d.handles[i := bo], sys := out.sys);
    ClearRecord(World(out.sys, w.records[i := out.record], []), i);
    assert Blobs(d'.handles) == w.records[i := bo.blob];
    assert w.records[i := out.record][i := ZERO_BLOB] == w.records[i := ZERO_BLOB];
    forall j | 0 <= j < MAX_HANDLES
      ensures BoOk(d', j)
    {
      assert BoOk(d, j);
    }
  }

  lemma CreateKeepsDrm(d: Drm, op: DrmOp)
    requires DrmInv(d) && op.CreateOp? && FreshId(d.sys)
    ensures DrmInv(DrmStep(d, op))
    ensures CreateBo(d, op.mem, op.flags, op.size, op.answer).2 != 0 ==>
      DrmStep(d, op).handles == d.handles && DrmStep(d, op).next == d.next
  {
    var d' := DrmStep(d, op);
    if op.size != 0 && d.next < MAX_HANDLES {
      var w, r := AsWorld(d), d.next;
      assert BoOk(d, r) && w.records[r] == ZERO_BLOB;
      var call := Create(r, op.size, op.mem, op.flags, d.nextBlobId, op.answer);
      BlobLifecycle.CreateKeepsInv(w, call);
      var out := Call(w, call);
      if out.rc != 0 {
        FailedCreate(d.sys, op.size, op.mem, op.flags, d.nextBlobId, ZERO_BLOB, op.answer);
        assert d'.handles == d.handles;
        assert w.records[r := ZERO_BLOB] == w.records;
      } else {
        CreatedSize(d.sys, op.size, op.mem, op.flags, d.nextBlobId, op.answer);
        assert Blobs(d'.handles) == w.records[r := out.record];
        ClearWindows(Step(w, call));
      }
      forall j | 0 <= j < MAX_HANDLES
        ensures BoOk(d', j)
      {
        assert BoOk(d, j);
      }
    }
  }

  lemma CreatedSize(s: System, size: u64, mem: u32, flags: u32, blobId: u64, answer: int)
    requires SysOk(s) && FreshId(s)
    requires BlobCreate(s, size, mem, flags, blobId, ZERO_BLOB, answer).rc == 0
    ensures var b := BlobCreate(s, size, mem, flags, blobId, ZERO_BLOB, answer).record;
      b.created && b.size == RoundedUp(size, Alignment(s.dev.cfg)) && b.mem == mem && b.flags == flags && b.mappedAddr == 0
  {
    RoundUp(size, Alignment(s.dev.cfg));
    AlignedSizeIs(s.dev.cfg, size, Alignment(s.dev.cfg));
  }

  lemma MapKeepsDrm(d: Drm, op: DrmOp)
    requires DrmInv(d) && op.MapOp?
    ensures DrmInv(DrmStep(d, op))
  {
    var at := Lookup(d, op.h);
    if at.Some? {
      var i := at.value;
      assert BoOk(d, i) && RecordOk(d.sys.dev, AsWorld(d).records[i]);
      var bo := d.handles[i];
      if bo.mapped == 0 {
        MapCall(d.sys, bo.blob, op.answer, op.mapInfo, op.undoAnswer);
        var out := BlobMap(d.sys, bo.blob, op.answer, op.mapInfo, op.undoAnswer);
        MapKeepsFields(d.sys, bo.blob, op.answer, op.mapInfo, op.undoAnswer);
        UpdateBo(d, i, out, bo.(blob := out.record, mapped := if out.rc != 0 then 0 else out.record.mappedAddr));
      }
    }
  }

  lemma MapKeepsFields(s: System, b: Blob, answer: int, mapInfo: u32, undoAnswer: int)
    requires SysOk(s) && b.created && RecordOk(s.dev, b)
    ensures var b' := BlobMap(s, b, answer, mapInfo, undoAnswer).record;
      b' == b.(mapInfo := b'.mapInfo, mappedAddr := b'.mappedAddr, mappedSize := b'.mappedSize, mapped := b'.mapped)
  {}

  lemma ReleaseKeepsDrm(d: Drm, i: nat, unmapAnswer: int, unrefAnswer: int)
    requires DrmInv(d) && i < MAX_HANDLES
    ensures DrmInv(ReleaseBo(d, i, unmapAnswer, unrefAnswer))
    ensures var d' := ReleaseBo(d, i, unmapAnswer, unrefAnswer);
      d' == d.(sys := d'.sys, handles := d.handles[i := ZERO_BO])
      && d'.sys.dev.cfg == d.sys.dev.cfg
  {
    assert BoOk(d, i) && RecordOk(d.sys.dev, AsWorld(d).records[i]);
    var bo := d.handles[i];
    if bo.handle != 0 {
      var d1 := if bo.blob.mapped then AfterUnmap(d, i, unmapAnswer) else d;
      if bo.blob.mapped {
        UnmapCall(d.sys, bo.blob, unmapAnswer);
        UnmapKeepsFields(d.sys, bo.blob, unmapAnswer);
        var out1 := BlobUnmap(d.sys, bo.blob, unmapAnswer);
        UpdateBo(d, i, out1, bo.(blob := out1.record, mapped := out1.record.mappedAddr));
      }
      assert RecordOk(d1.sys.dev, AsWorld(d1).records[i]);
      DestroyCall(d1.sys, d1.handles[i].blob, unrefAnswer);
      UpdateBo(d1, i, BlobDestroy(d1.sys, d1.handles[i].blob, unrefAnswer), ZERO_BO);
      assert d1.handles[i := ZERO_BO] == d.handles[i := ZERO_BO];
    } else {
      assert d.handles[i := ZERO_BO] == d.handles;
    }
  }

  function AfterUnmap(d: Drm, i: nat, unmapAnswer: int): Drm
    requires i < |d.handles|
  {
    var out := BlobUnmap(d.sys, d.handles[i].blob, unmapAnswer);
    d.(sys := out.sys, handles := d.handles[i := d.handles[i].(blob := out.record, mapped := out.record.mappedAddr)])
  }

  lemma UnmapKeepsFields(s: System, b: Blob, answer: int)
    ensures var b' := BlobUnmap(s, b, answer).record;
      b' == b.(mappedAddr := b'.mappedAddr, mappedSize := b'.mappedSize, mapped := b'.mapped)
  {}

  lemma DrmStepKeepsInv(d: Drm, op: DrmOp)
    requires DrmInv(d) && (op.CreateOp? ==> FreshId(d.sys))
    ensures DrmInv(DrmStep(d, op))
  {
    match op
    case CreateOp(_, _, _, _) => CreateKeepsDrm(d, op);
    case MapOp(_, _, _, _) => MapKeepsDrm(d, op);
    case CloseOp(h, a, b) =>
      var at := Lookup(d, h);
      if at.Some? && d.handles[at.value].isBlob { ReleaseKeepsDrm(d, at.value, a, b); }
  }

  // ---- every run ---------------------------------------------------------------

  function DrmRun(d: Drm, ops: seq<DrmOp>): Drm
    requires |d.handles| == MAX_HANDLES && d.next <= MAX_HANDLES
    decreases ops
  {
    if ops == [] then d
    else
      var d1 := DrmStep(d, ops[0]);
      DrmRun(d1, ops[1..])
  }

  /** Every create of the run finds a fresh resource id in the device below. */
  ghost predicate DrmFresh(d: Drm, ops: seq<DrmOp>)
    requires |d.handles| == MAX_HANDLES && d.next <= MAX_HANDLES
    decreases ops
  {
    ops == [] ||
    ((ops[0].CreateOp? ==> FreshId(d.sys))
     && var d1 := DrmStep(d, ops[0]);
        DrmFresh(d1, ops[1..]))
  }

  lemma StepCounter(d: Drm, op: DrmOp)
    requires DrmInv(d)
    ensures d.next <= DrmStep(d, op).next && DrmStep(d, op).sys.dev.cfg == d.sys.dev.cfg
  {
    if op.CloseOp? {
      var at := Lookup(d, op.h);
      if at.Some? { ReleaseKeepsDrm(d, at.value, op.unmapAnswer, op.unrefAnswer); }
    }
  }

  lemma DrmStepStaysBelow(d: Drm, op: DrmOp)
    requires |d.handles| == MAX_HANDLES && d.next <= MAX_HANDLES
    requires IdsBelow(d.sys) && d.sys.dev.nextRes + 1 < U32
    ensures IdsBelow(DrmStep(d, op).sys) && DrmStep(d, op).sys.dev.nextRes <= d.sys.dev.nextRes + 1
  {
    hide IdsBelow, BlobCreate, BlobMap, BlobUnmap, BlobDestroy;
    match op
    case CreateOp(mem, flags, size, answer) =>
      CreateStaysBelow(d.sys, size, mem, flags, d.nextBlobId, ZERO_BLOB, answer);
    case MapOp(h, answer, mapInfo, undoAnswer) =>
      var at := Lookup(d, h);
      if at.Some? { MapStaysBelow(d.sys, d.handles[at.value].blob, answer, mapInfo, undoAnswer); }
    case CloseOp(h, unmapAnswer, unrefAnswer) =>
      var at := Lookup(d, h);
      if at.Some? {
        var blob := d.handles[at.value].blob;
        var out1 := if blob.mapped then BlobUnmap(d.sys, blob, unmapAnswer) else Outcome(d.sys, blob, 0);
        UnmapStaysBelow(d.sys, blob, unmapAnswer);
        DestroyStaysBelow(out1.sys, out1.record, unrefAnswer);
      }
  }

  /** Until the 32-bit counter wraps every id is fresh. */
  lemma {:induction false} ShortDrmRunsAreFresh(d: Drm, ops: seq<DrmOp>)
    requires |d.handles| == MAX_HANDLES && d.next <= MAX_HANDLES
    requires IdsBelow(d.sys) && d.sys.dev.nextRes + |ops| < U32
    ensures DrmFresh(d, ops)
    decreases ops
  {
    if ops != [] {
      BelowIsFresh(d.sys);
      DrmStepStaysBelow(d, ops[0]);
      ShortDrmRunsAreFresh(DrmStep(d, ops[0]), ops[1..]);
    }
  }

  lemma {:induction false} DrmRunKeepsInv(d: Drm, ops: seq<DrmOp>)
    requires DrmInv(d) && DrmFresh(d, ops)
    ensures DrmInv(DrmRun(d, ops))
    decreases ops
  {
    if ops != [] {
      DrmStepKeepsInv(d, ops[0]);
      DrmRunKeepsInv(DrmStep(d, ops[0]), ops[1..]);
    }
  }

  /** In every run, a handle is found exactly when its slot holds an object; it
      is the slot's index plus one, and the object's blob is live below. */
  lemma LiveHandles(d: Drm, ops: seq<DrmOp>, h: u32)
    requires DrmInitial(d) && DrmFresh(d, ops)
    ensures var now := DrmRun(d, ops);
      |now.handles| == MAX_HANDLES && now.next <= MAX_HANDLES
      && (Lookup(now, h).Some? <==> 0 < h <= now.next && now.handles[h - 1] != ZERO_BO)
      && (Lookup(now, h).Some? ==> now.handles[h - 1].handle == h && now.handles[h - 1].isBlob
                                   && IsLive(now.sys.dev, now.handles[h - 1].resHandle))
  {
    DrmInitialInv(d);
    DrmRunKeepsInv(d, ops);
    var now := DrmRun(d, ops);
    if 0 < h <= now.next {
      assert BoOk(now, h - 1) && RecordOk(now.sys.dev, AsWorld(now).records[h - 1]);
    }
  }

  /** A handle that was issued and is closed. */
  ghost predicate Closed(d: Drm, h: u32) {
    |d.handles| == MAX_HANDLES && 0 < h <= d.next <= MAX_HANDLES && d.handles[h - 1] == ZERO_BO
  }

  /** A closed handle stays closed in every run: it is never found again, and no
      create returns it. */
  lemma {:induction false} ClosedStaysClosed(d: Drm, h: u32, ops: seq<DrmOp>)
    requires DrmInv(d) && Closed(d, h) && DrmFresh(d, ops)
    ensures Closed(DrmRun(d, ops), h) && Lookup(DrmRun(d, ops), h) == None
    ensures forall mem, flags, size, answer :: CreateBo(DrmRun(d, ops), mem, flags, size, answer).1 != h
    decreases ops
  {
    if ops != [] {
      var d1 := DrmStep(d, ops[0]);
      DrmStepKeepsInv(d, ops[0]);
      StepCounter(d, ops[0]);
      if ops[0].CloseOp? {
        var at := Lookup(d, ops[0].h);
        if at.Some? { ReleaseKeepsDrm(d, at.value, ops[0].unmapAnswer, ops[0].unrefAnswer); }
      }
      assert Closed(d1, h);
      ClosedStaysClosed(d1, h, ops[1..]);
    }
  }

  /** Closing a handle that is found closes it, whatever the host answers. */
  lemma CloseCloses(d: Drm, h: u32, unmapAnswer: int, unrefAnswer: int)
    requires DrmInv(d)
    ensures CloseBo(d, h, unmapAnswer, unrefAnswer).1 == 0 <==> Lookup(d, h).Some?
    ensures CloseBo(d, h, unmapAnswer, unrefAnswer).1 == 0 ==> Closed(CloseBo(d, h, unmapAnswer, unrefAnswer).0, h)
  {
    var at := Lookup(d, h);
    if at.Some? {
      assert BoOk(d, at.value);
      ReleaseKeepsDrm(d, at.value, unmapAnswer, unrefAnswer);
    }
  }

  /** The host accepts what it takes to release this object. */
  predicate Released(bo: Bo, answers: (int, int)) {
    bo.handle != 0 && (bo.blob.mapped ==> answers.0 == 0) && answers.1 == 0
  }

  /** Releasing an object takes exactly its resource off both tables if the host
      accepts the commands it takes, and no resource otherwise. */
  lemma ReleaseEffect(d: Drm, i: nat, answers: (int, int), id: u32)
    requires DrmInv(d) && i < MAX_HANDLES
    ensures var d' := ReleaseBo(d, i, answers.0, answers.1);
      var gone := Released(d.handles[i], answers) && id == d.handles[i].resHandle;
      && (IsLive(d'.sys.dev, id) <==> IsLive(d.sys.dev, id) && !gone)
      && (id in d'.sys.host.resources <==> id in d.sys.host.resources && !gone)
  {
    assert BoOk(d, i) && RecordOk(d.sys.dev, AsWorld(d).records[i]);
    var bo := d.handles[i];
    if bo.handle != 0 {
      var w := AsWorld(d);
      var w1 := if bo.blob.mapped then Step(w, Unmap(i, answers.0)) else w;
      if bo.blob.mapped {
        UnmapCall(d.sys, bo.blob, answers.0);
        StepKeepsInv(w, Unmap(i, answers.0));
        LiveChange(w, Unmap(i, answers.0), id);
        HostChange(w, Unmap(i, answers.0), id);
      }
      DestroyCall(w1.sys, w1.records[i], answers.1);
      LiveChange(w1, Destroy(i, answers.1), id);
      HostChange(w1, Destroy(i, answers.1), id);
    }
  }

  /** The sweep of uk_drm_virtgpu_close, from index i on. */
  function Sweep(d: Drm, i: nat, answers: nat -> (int, int)): Drm
    requires i <= d.next <= |d.handles|
    decreases d.next - i
  {
    if i == d.next then d else Sweep(ReleaseBo(d, i, answers(i).0, answers(i).1), i + 1, answers)
  }

  /** Some object from index i on has this resource and is released. */
  ghost predicate ReleasedFrom(d: Drm, i: nat, answers: nat -> (int, int), id: u32) {
    exists j :: i <= j < d.next <= |d.handles| && d.handles[j].resHandle == id && Released(d.handles[j], answers(j))
  }

  /** Closing the device releases exactly the objects still live whose commands
      the host accepts, whatever it answers to the others. */
  lemma {:induction false} SweepReleasesAccepted(d: Drm, i: nat, answers: nat -> (int, int), id: u32)
    requires DrmInv(d) && i <= d.next
    ensures var d' := Sweep(d, i, answers);
      && (IsLive(d'.sys.dev, id) <==> IsLive(d.sys.dev, id) && !ReleasedFrom(d, i, answers, id))
      && (id in d'.sys.host.resources <==> id in d.sys.host.resources && !ReleasedFrom(d, i, answers, id))
    decreases d.next - i
  {
    if i < d.next {
      hide DrmInv, ReleaseBo;
      var d1 := ReleaseBo(d, i, answers(i).0, answers(i).1);
      ReleaseKeepsDrm(d, i, answers(i).0, answers(i).1);
      ReleaseEffect(d, i, answers(i), id);
      SweepReleasesAccepted(d1, i + 1, answers, id);
      ReleasedLater(d, d1, i, answers, id);
    }
  }

  lemma ReleasedLater(d: Drm, d1: Drm, i: nat, answers: nat -> (int, int), id: u32)
    requires i < d.next == d1.next <= |d.handles| && d1.handles == d.handles[i := ZERO_BO]
    ensures ReleasedFrom(d, i, answers, id) <==>
            (d.handles[i].resHandle == id && Released(d.handles[i], answers(i))) || ReleasedFrom(d1, i + 1, answers, id)
  {
    assert forall j :: i < j < |d.handles| ==> d1.handles[j] == d.handles[j];
    if ReleasedFrom(d1, i + 1, answers, id) {
      var j :| i < j < d.next && d1.handles[j].resHandle == id && Released(d1.handles[j], answers(j));
      assert d.handles[j].resHandle == id && Released(d.handles[j], answers(j));
    }
    if j :| i < j < d.next && d.handles[j].resHandle == id && Released(d.handles[j], answers(j)) {
      assert d1.handles[j].resHandle == id && Released(d1.handles[j], answers(j));
    }
  }

  /** With a host that accepts, that is every object still live. */
  lemma SweepReleasesAll(d: Drm, answers: nat -> (int, int), id: u32)
    requires DrmInv(d) && forall j: nat :: answers(j) == (0, 0)
    ensures var d' := Sweep(d, 0, answers);
      var owned := exists j :: 0 <= j < d.next && d.handles[j].handle != 0 && d.handles[j].resHandle == id;
      && (IsLive(d'.sys.dev, id) <==> IsLive(d.sys.dev, id) && !owned)
      && (id in d'.sys.host.resources <==> id in d.sys.host.resources && !owned)
  {
    SweepReleasesAccepted(d, 0, answers, id);
    if j :| 0 <= j < d.next && d.handles[j].handle != 0 && d.handles[j].resHandle == id {
      assert Released(d.handles[j], answers(j));
    }
  }
}
