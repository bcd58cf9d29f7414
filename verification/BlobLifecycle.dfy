/** What every run of blob operations keeps. */
module BlobLifecycle {

  // The caller's records, the guest's slots and the host's table agree, ids are
  // unique, and the windows in the host-visible region never overlap.

  import opened Bits
  import opened Errno
  import opened Rounding
  import opened Wrappers
  import opened GpuSystem

  /** A window handed out, and the blob size asked for. */
  datatype Window = Window(offset: nat, size: nat, asked: nat)

  /** Callers' blob records beside the two tables, and the windows handed out
      since the start. */
  datatype World = World(sys: System, records: seq<Blob>, windows: seq<Window>)

  /** One call, with the host's answers to the commands it sends. */
  datatype Op =
    | Create(r: nat, size: u64, mem: u32, flags: u32, blobId: u64, answer: int)
    | Map(r: nat, answer: int, mapInfo: u32, undoAnswer: int)
    | Unmap(r: nat, answer: int)
    | Destroy(r: nat, answer: int)
    | CreatePlain(is3d: bool, size: u64, answer: int)
    | UnrefPlain(id: u32, answer: int)

  /** A blob is released through blob_destroy, which refuses a mapped one;
      resource_unref by id is for plain resources. */
  predicate Allowed(w: World, op: Op) {
    match op
    case Create(r, _, _, _, _, _) => r < |w.records|
    case Map(r, _, _, _) => r < |w.records|
    case Unmap(r, _) => r < |w.records|
    case Destroy(r, _) => r < |w.records|
    case CreatePlain(_, _, _) => true
    case UnrefPlain(id, _) =>
      (match FindRes(w.sys.dev.resources, id) case None => true case Some(i) => !w.sys.dev.resources[i].isBlob)
  }

  function Call(w: World, op: Op): Outcome<Blob>
    requires Allowed(w, op)
  {
    match op
    case Create(r, size, mem, flags, blobId, answer) => BlobCreate(w.sys, size, mem, flags, blobId, w.records[r], answer)
    case Map(r, answer, mapInfo, undoAnswer) => BlobMap(w.sys, w.records[r], answer, mapInfo, undoAnswer)
    case Unmap(r, answer) => BlobUnmap(w.sys, w.records[r], answer)
    case Destroy(r, answer) => BlobDestroy(w.sys, w.records[r], answer)
    case CreatePlain(is3d, size, answer) =>
      var (s, rc) := PlainCreate(w.sys, is3d, size, answer); Outcome(s, ZERO_BLOB, rc)
    case UnrefPlain(id, answer) =>
      var (s, rc) := Unref(w.sys, id, answer); Outcome(s, ZERO_BLOB, rc)
  }

  function Step(w: World, op: Op): World {
    if !Allowed(w, op) then w
    else
      var out := Call(w, op);
      if op.CreatePlain? || op.UnrefPlain? then w.(sys := out.sys)
      else
        World(out.sys, w.records[op.r := out.record],
              if op.Create? && out.rc == 0 then w.windows + [Window(out.record.offset, out.record.size, op.size)] else w.windows)
  }

  function Run(w: World, ops: seq<Op>): World
    decreases ops
  {
    if ops == [] then w else Run(Step(w, ops[0]), ops[1..])
  }

  // ---- the invariant -----------------------------------------------------------

  ghost predicate SlotsOk(d: Device) {
    && |d.resources| == MAX_RESOURCES
    && (forall i :: 0 <= i < |d.resources| ==> SlotOk(d.resources[i]))
    && IdsGood(d.resources)
  }

  /** Live slots have distinct, non-zero ids. */
  ghost predicate IdsGood(res: seq<Slot>) {
    && (forall i :: 0 <= i < |res| && res[i].live ==> res[i].id != 0)
    && (forall i, j :: 0 <= i < j < |res| && res[i].live && res[j].live ==> res[i].id != res[j].id)
  }

  ghost predicate SlotOk(s: Slot) {
    if s.live then s.id != 0 && (!s.isBlob ==> !s.mapped) else s == ZERO_SLOT
  }

  ghost predicate WindowsOk(d: Device) {
    && d.nextOffset % Alignment(d.cfg) == 0
    && (forall i :: 0 <= i < |d.resources| && IsLiveBlob(d.resources[i]) ==> WindowOk(d, d.resources[i]))
    && (forall i, j :: 0 <= i < j < |d.resources| && IsLiveBlob(d.resources[i]) && IsLiveBlob(d.resources[j])
          ==> Disjoint(d.resources[i], d.resources[j]))
  }

  predicate IsLiveBlob(s: Slot) { s.live && s.isBlob }

  ghost predicate WindowOk(d: Device, s: Slot) {
    && 0 < s.size && s.offset + s.size <= d.nextOffset
    && s.offset % Alignment(d.cfg) == 0 && s.size % Alignment(d.cfg) == 0
  }

  ghost predicate Disjoint(a: Slot, b: Slot) {
    a.offset + a.size <= b.offset || b.offset + b.size <= a.offset
  }

  ghost predicate HostOk(s: System) {
    forall i :: 0 <= i < |s.dev.resources| && s.dev.resources[i].live ==> HostHas(s.host, s.dev.resources[i])
  }

  ghost predicate HostHas(h: Host, s: Slot) {
    s.id in h.resources && h.resources[s.id] == if s.mapped then Some(s.offset) else None
  }

  ghost predicate RecordOk(d: Device, b: Blob) {
    if !b.created then b == ZERO_BLOB
    else
      var f := FindRes(d.resources, b.resourceId);
      f.Some? && RecordMatches(d.cfg, b, d.resources[f.value])
  }

  ghost predicate RecordMatches(cfg: Config, b: Blob, s: Slot) {
    && s.isBlob && s.size == b.size && s.offset == b.offset && s.mem == b.mem && s.flags == b.flags && s.blobId == b.blobId
    && s.mapped == b.mapped
    && (b.mappedAddr != 0 ==>
          && b.mapped && cfg.windowBase != 0 && b.mappedSize == b.size
          && b.offset + b.size <= cfg.windowSize && b.mappedAddr == cfg.windowBase + b.offset)
  }

  ghost predicate RecordsOk(d: Device, records: seq<Blob>) {
    && (forall r :: 0 <= r < |records| ==> RecordOk(d, records[r]))
    && (forall r, q :: 0 <= r < q < |records| && records[r].created && records[q].created
          ==> records[r].resourceId != records[q].resourceId)
  }

  /** Aligned, and the least aligned size that covers the request. */
  ghost predicate WindowFits(cfg: Config, w: Window) {
    w.offset % Alignment(cfg) == 0 && w.size % Alignment(cfg) == 0 && w.asked <= w.size < w.asked + Alignment(cfg)
  }

  ghost predicate LogOk(d: Device, windows: seq<Window>) {
    && (forall a :: 0 <= a < |windows| ==> WindowFits(d.cfg, windows[a]))
    && (forall a :: 0 <= a < |windows| ==> windows[a].offset + windows[a].size <= d.nextOffset)
    && (forall a, b :: 0 <= a < b < |windows| ==> windows[a].offset + windows[a].size <= windows[b].offset)
  }

  ghost predicate SysOk(s: System) {
    GoodConfig(s.dev.cfg) && SlotsOk(s.dev) && WindowsOk(s.dev) && HostOk(s)
  }

  ghost predicate Inv(w: World) {
    SysOk(w.sys) && RecordsOk(w.sys.dev, w.records) && LogOk(w.sys.dev, w.windows)
  }

  /** A probed device with nothing created, and fresh records. */
  ghost predicate Initial(w: World) {
    && GoodConfig(w.sys.dev.cfg)
    && w.sys.dev.resources == seq(MAX_RESOURCES, _ => ZERO_SLOT)
    && w.sys.dev.nextRes == 1 && w.sys.dev.nextOffset == 0
    && w.sys.host.resources == map[] && w.windows == []
    && (forall r :: 0 <= r < |w.records| ==> w.records[r] == ZERO_BLOB)
  }

  /** Whether a resource with this id is live on the guest. */
  predicate IsLive(d: Device, id: u32) { FindFrom(d.resources, id, 0).Some? }

  /** The id the next create will use is neither zero nor in use. */
  predicate FreshId(s: System) { s.dev.nextRes != 0 && !IsLive(s.dev, s.dev.nextRes) }

  predicate TakesId(op: Op) { op.Create? || op.CreatePlain? }

  /** Every create of the run finds a fresh id. The 32-bit counter makes sure of
      it until it wraps (ShortRunsAreFresh). */
  ghost predicate FreshRun(w: World, ops: seq<Op>)
    decreases ops
  {
    ops == [] || ((TakesId(ops[0]) ==> FreshId(w.sys)) && FreshRun(Step(w, ops[0]), ops[1..]))
  }

  // ---- single facts --------------------------------------------------------------

  /** With unique ids the scan finds the one slot that has the id. */
  lemma FindUnique(d: Device, i: nat)
    requires SlotsOk(d) && i < |d.resources| && d.resources[i].live
    ensures FindRes(d.resources, d.resources[i].id) == Some(i)
  {
    assert FindFrom(d.resources, d.resources[i].id, 0).Some?;
  }

  /** The mask rounds a blob's size up to the least multiple of the alignment. */
  lemma AlignedSizeIsLeastMultiple(cfg: Config, size: u64)
    requires GoodConfig(cfg) && size > 0
    ensures AlignedSize(cfg, size) == None <==> size + (Alignment(cfg) - 1) >= U64
    ensures AlignedSize(cfg, size).Some? ==>
      var a := AlignedSize(cfg, size).value;
      a % Alignment(cfg) == 0 && size <= a < size + Alignment(cfg) && a < U64
  {
    RoundUp(size, Alignment(cfg));
    AlignedSizeIs(cfg, size, Alignment(cfg));
  }

  lemma AlignedSizeIs(cfg: Config, size: u64, align: nat)
    requires IsPow2(align) && align == Alignment(cfg) && size > 0
    requires RoundedUp(size, align) > 0
    ensures AlignedSize(cfg, size) == if size + (align - 1) >= U64 then None else Some(RoundedUp(size, align))
  {
    hide And, IsPow2;
    if size + (align - 1) < U64 { MaskRounds(size + (align - 1), align); }
  }

  lemma MultiplesAdd(x: nat, y: nat, m: nat)
    requires m > 0 && x % m == 0 && y % m == 0
    ensures (x + y) % m == 0
  {
    ModAdd(x, y, m);
  }

  /** Probing always settles on a power of two. */
  lemma NegotiatedIsPow2(feature: bool, readable: bool, value: u32)
    ensures var a := NegotiatedAlignment(feature, readable, value);
      && (a == 0 <==> !feature)
      && (a != 0 ==> IsPow2(a))
      && (feature && readable && value > 0 && IsPow2(value) ==> a == value)
  {
    if value > 0 { ClearLowestBit(value); }
    Pow2Values();
    assert IsPow2(4096) by { assert 4096 == Pow2(12); }
  }

  /** Handing out the next id keeps ids non-zero and unique exactly when the
      32-bit counter is neither zero nor the id of a live resource. */
  lemma NextIdGood(d: Device, i: nat, slot: Slot)
    requires IdsGood(d.resources) && i < |d.resources| && !d.resources[i].live
    requires slot.live && slot.id == d.nextRes
    ensures IdsGood(d.resources[i := slot])
            <==> d.nextRes != 0 && forall j :: 0 <= j < |d.resources| ==> !Matches(d.resources[j], d.nextRes)
  {
    var res := d.resources[i := slot];
    if j :| 0 <= j < |d.resources| && Matches(d.resources[j], d.nextRes) {
      assert res[j].id == res[i].id;
    }
    assert res[i] == slot;
  }

  // ---- one table change at a time ---------------------------------------------------

  /** Slot i of d is replaced by `slot`; nothing else in the slot table changes. */
  ghost predicate Replaced(d: Device, d': Device, i: nat, slot: Slot) {
    && i < |d.resources| && d'.resources == d.resources[i := slot]
    && d'.cfg == d.cfg && d.nextOffset <= d'.nextOffset
  }

  /** Records of other resources still match after slot i is replaced. */
  lemma OtherRecordUnaffected(d: Device, d': Device, i: nat, slot: Slot, b: Blob)
    requires SlotsOk(d) && SlotsOk(d') && Replaced(d, d', i, slot) && RecordOk(d, b)
    requires b.created && d.resources[i].live ==> b.resourceId != d.resources[i].id
    ensures RecordOk(d', b)
  {
    if b.created {
      var f := FindRes(d.resources, b.resourceId).value;
      assert Matches(d.resources[f], b.resourceId);
      FindUnique(d', f);
    }
  }

  /** A free slot is already zero, so zeroing it again changes nothing. */
  lemma ZeroedFreeSlot(d: Device, i: nat)
    requires SlotsOk(d) && i < |d.resources| && !d.resources[i].live
    ensures d.resources[i := ZERO_SLOT] == d.resources
  {
    assert SlotOk(d.resources[i]);
  }

  /** Filling a free slot with the next id. */
  lemma TakeKeepsSys(s: System, s': System, i: nat, slot: Slot)
    requires SysOk(s) && FreshId(s) && i < MAX_RESOURCES && !s.dev.resources[i].live
    requires slot.live && slot.id == s.dev.nextRes && !slot.mapped
    requires Replaced(s.dev, s'.dev, i, slot)
    requires s'.host.resources == s.host.resources[slot.id := None]
    requires slot.isBlob ==> 0 < slot.size && slot.offset == s.dev.nextOffset && slot.size % Alignment(s.dev.cfg) == 0
                             && s'.dev.nextOffset == slot.offset + slot.size
    requires !slot.isBlob ==> s'.dev.nextOffset == s.dev.nextOffset
    ensures SysOk(s')
  {
    forall j | 0 <= j < MAX_RESOURCES
      ensures SlotOk(s'.dev.resources[j])
    {
      assert SlotOk(s.dev.resources[j]);
    }
    assert IdsGood(s'.dev.resources) by { NextIdGood(s.dev, i, slot); }
    if slot.isBlob { MultiplesAdd(slot.offset, slot.size, Alignment(s.dev.cfg)); }
    forall j | 0 <= j < MAX_RESOURCES && IsLiveBlob(s'.dev.resources[j])
      ensures WindowOk(s'.dev, s'.dev.resources[j])
    {
      if j != i { assert WindowOk(s.dev, s.dev.resources[j]); }
    }
    assert WindowsOk(s'.dev) by {
      forall a, b | 0 <= a < b < MAX_RESOURCES && IsLiveBlob(s'.dev.resources[a]) && IsLiveBlob(s'.dev.resources[b])
        ensures Disjoint(s'.dev.resources[a], s'.dev.resources[b])
      {
        if a == i { assert WindowOk(s.dev, s.dev.resources[b]); }
        else if b == i { assert WindowOk(s.dev, s.dev.resources[a]); }
        else { assert Disjoint(s.dev.resources[a], s.dev.resources[b]); }
      }
    }
    assert HostOk(s') by {
      forall j | 0 <= j < MAX_RESOURCES && s'.dev.resources[j].live
        ensures HostHas(s'.host, s'.dev.resources[j])
      {
        if j != i {
          assert HostHas(s.host, s.dev.resources[j]);
          assert SlotOk(s.dev.resources[j]);
        }
      }
    }
  }

  /** Changing the mapping of a live slot, on both sides. */
  lemma RemapKeepsSys(s: System, s': System, i: nat, slot: Slot)
    requires SysOk(s) && i < MAX_RESOURCES && s.dev.resources[i].live && s.dev.resources[i].isBlob
    requires slot == s.dev.resources[i].(mapped := slot.mapped, mapInfo := slot.mapInfo)
    requires s'.dev == s.dev.(resources := s.dev.resources[i := slot])
    requires s'.host.resources == s.host.resources[slot.id := if slot.mapped then Some(slot.offset) else None]
    ensures SysOk(s')
  {
    hide Alignment;
    var res, res' := s.dev.resources, s'.dev.resources;
    forall j | 0 <= j < MAX_RESOURCES
      ensures SlotOk(res'[j])
      ensures IsLiveBlob(res'[j]) ==> WindowOk(s'.dev, res'[j])
      ensures res'[j].live ==> HostHas(s'.host, res'[j])
    {
      assert SlotOk(res[j]);
      assert IsLiveBlob(res[j]) ==> WindowOk(s.dev, res[j]);
      assert res[j].live ==> HostHas(s.host, res[j]);
    }
    assert forall a, b :: 0 <= a < b < MAX_RESOURCES && IsLiveBlob(res'[a]) && IsLiveBlob(res'[b])
             ==> Disjoint(res[a], res[b]) && Disjoint(res'[a], res'[b]);
    assert SlotOk(res[i]) && HostHas(s.host, res[i]);
  }

  /** Zeroing a live slot and dropping its id on the host. */
  lemma ReleaseKeepsSys(s: System, s': System, i: nat)
    requires SysOk(s) && i < MAX_RESOURCES && s.dev.resources[i].live
    requires s'.dev == s.dev.(resources := s.dev.resources[i := ZERO_SLOT])
    requires s'.host.resources == s.host.resources - {s.dev.resources[i].id}
    ensures SysOk(s')
  {
    var res, res' := s.dev.resources, s'.dev.resources;
    forall j | 0 <= j < MAX_RESOURCES
      ensures SlotOk(res'[j])
      ensures IsLiveBlob(res'[j]) ==> WindowOk(s'.dev, res'[j])
      ensures res'[j].live ==> HostHas(s'.host, res'[j])
    {
      assert SlotOk(res[j]);
      assert IsLiveBlob(res[j]) ==> WindowOk(s.dev, res[j]);
      assert res[j].live ==> HostHas(s.host, res[j]);
    }
    assert forall a, b :: 0 <= a < b < MAX_RESOURCES && IsLiveBlob(res'[a]) && IsLiveBlob(res'[b])
             ==> Disjoint(res[a], res[b]) && Disjoint(res'[a], res'[b]);
  }

  // ---- the calls -------------------------------------------------------------------

  /** What a create that fails leaves behind: the slot table, the record and the
      windows exactly as before; on the host, at most one resource the guest no
      longer names, and only when the window counter overflows. */
  lemma FailedCreate(s: System, size: u64, mem: u32, flags: u32, blobId: u64, blob: Blob, answer: int)
    requires SysOk(s) && FreshId(s)
    requires BlobCreate(s, size, mem, flags, blobId, blob, answer).rc != 0
    ensures var out := BlobCreate(s, size, mem, flags, blobId, blob, answer);
      && SysOk(out.sys) && out.record == blob
      && out.sys.dev == s.dev.(nextRes := out.sys.dev.nextRes)
      && out.sys.host == (if Orphans(s, size, mem, blob, answer)
                          then s.host.(resources := s.host.resources[s.dev.nextRes := None]) else s.host)
  {
    hide AlignedSize, Alignment, IsPow2;
    var out := BlobCreate(s, size, mem, flags, blobId, blob, answer);
    var free := FreeFrom(s.dev.resources, 0);
    if free.Some? { ZeroedFreeSlot(s.dev, free.value); }
    assert out.sys.dev.resources == s.dev.resources;
    forall j | 0 <= j < MAX_RESOURCES
      ensures SlotOk(s.dev.resources[j])
      ensures s.dev.resources[j].live ==> HostHas(out.sys.host, s.dev.resources[j])
      ensures IsLiveBlob(s.dev.resources[j]) ==> WindowOk(out.sys.dev, s.dev.resources[j])
    {
      assert SlotOk(s.dev.resources[j]);
      assert s.dev.resources[j].live ==> HostHas(s.host, s.dev.resources[j]);
      assert IsLiveBlob(s.dev.resources[j]) ==> WindowOk(s.dev, s.dev.resources[j]);
    }
  }

  /** The create fails after the host has already made the resource. */
  ghost predicate Orphans(s: System, size: u64, mem: u32, blob: Blob, answer: int) {
    && size != 0 && !blob.created && s.dev.cfg.resourceBlob
    && mem in {BLOB_MEM_GUEST, BLOB_MEM_HOST3D, BLOB_MEM_HOST3D_GUEST}
    && FreeFrom(s.dev.resources, 0).Some? && answer == 0
    && AlignedSize(s.dev.cfg, size).Some? && s.dev.nextOffset + AlignedSize(s.dev.cfg, size).value >= U64
  }

  /** A create that succeeds: a fresh id, the least aligned size that covers the
      request, and the window right behind all earlier ones. */
  lemma CreatedBlob(s: System, size: u64, mem: u32, flags: u32, blobId: u64, blob: Blob, answer: int) returns (i: nat, slot: Slot)
    requires SysOk(s) && FreshId(s)
    requires BlobCreate(s, size, mem, flags, blobId, blob, answer).rc == 0
    ensures var out := BlobCreate(s, size, mem, flags, blobId, blob, answer);
      && SysOk(out.sys) && i < MAX_RESOURCES && !s.dev.resources[i].live
      && Replaced(s.dev, out.sys.dev, i, slot)
      && slot == Slot(s.dev.nextRes, true, true, true, false, slot.size, mem, flags, 0, blobId, s.dev.nextOffset)
      && slot.size % Alignment(s.dev.cfg) == 0 && size <= slot.size < size + Alignment(s.dev.cfg)
      && out.sys.dev.nextOffset == slot.offset + slot.size && out.sys.dev.nextRes == (s.dev.nextRes + 1) % U32
      && out.record == Blob(slot.id, mem, flags, 0, blobId, slot.size, slot.offset, 0, 0, true, false)
      && RecordOk(out.sys.dev, out.record)
      && out.sys.host == s.host.(resources := s.host.resources[slot.id := None])
      && out.sys.dev.contexts == s.dev.contexts
  {
    var out := BlobCreate(s, size, mem, flags, blobId, blob, answer);
    AlignedSizeIsLeastMultiple(s.dev.cfg, size);
    i := FreeFrom(s.dev.resources, 0).value;
    slot := out.sys.dev.resources[i];
    assert out.sys.dev.resources == s.dev.resources[i := slot];
    TakeKeepsSys(s, out.sys, i, slot);
    FindUnique(out.sys.dev, i);
  }

  lemma CreateKeepsInv(w: World, op: Op)
    requires Inv(w) && op.Create? && Allowed(w, op) && FreshId(w.sys)
    ensures Inv(Step(w, op))
  {
    if Call(w, op).rc != 0 {
      FailedCreate(w.sys, op.size, op.mem, op.flags, op.blobId, w.records[op.r], op.answer);
      CounterOnly(w, Step(w, op));
    } else {
      CreateSucceeds(w, op);
    }
  }

  lemma CreateSucceeds(w: World, op: Op)
    requires Inv(w) && op.Create? && Allowed(w, op) && FreshId(w.sys) && Call(w, op).rc == 0
    ensures Inv(Step(w, op))
  {
    var i, slot := CreatedBlob(w.sys, op.size, op.mem, op.flags, op.blobId, w.records[op.r], op.answer);
    AddRecord(w, Call(w, op), i, slot, op.r, op.size);
  }

  /** A new record with the next id and the next window. */
  lemma AddRecord(w: World, out: Outcome<Blob>, i: nat, slot: Slot, r: nat, asked: nat)
    requires Inv(w) && FreshId(w.sys) && SysOk(out.sys)
    requires Replaced(w.sys.dev, out.sys.dev, i, slot) && !w.sys.dev.resources[i].live
    requires r < |w.records| && RecordOk(out.sys.dev, out.record) && out.record.resourceId == w.sys.dev.nextRes
    requires out.record.offset == w.sys.dev.nextOffset && out.record.offset + out.record.size == out.sys.dev.nextOffset
    requires WindowFits(w.sys.dev.cfg, Window(out.record.offset, out.record.size, asked))
    ensures Inv(World(out.sys, w.records[r := out.record], w.windows + [Window(out.record.offset, out.record.size, asked)]))
  {
    OthersKeep(w, out.sys, w.records[r := out.record], i, slot, r);
  }

  /** Moving only the id counter leaves records and windows in order. */
  lemma CounterOnly(w: World, w': World)
    requires Inv(w) && SysOk(w'.sys) && w'.sys.dev == w.sys.dev.(nextRes := w'.sys.dev.nextRes)
    requires w'.records == w.records && w'.windows == w.windows
    ensures Inv(w')
  {
    forall r | 0 <= r < |w.records|
      ensures RecordOk(w'.sys.dev, w.records[r])
    {
      assert RecordOk(w.sys.dev, w.records[r]);
    }
  }

  /** All records but r still match, and the new record's id is its own. */
  lemma OthersKeep(w: World, s': System, records': seq<Blob>, i: nat, slot: Slot, r: nat)
    requires Inv(w) && SysOk(s') && Replaced(w.sys.dev, s'.dev, i, slot)
    requires r < |w.records| == |records'| && records' == w.records[r := records'[r]]
    requires RecordOk(s'.dev, records'[r])
    requires w.sys.dev.resources[i].live ==> w.records[r].created && w.records[r].resourceId == w.sys.dev.resources[i].id
    requires records'[r].created ==> (FreshId(w.sys) && records'[r].resourceId == w.sys.dev.nextRes)
                                     || (w.records[r].created && records'[r].resourceId == w.records[r].resourceId)
    ensures RecordsOk(s'.dev, records')
  {
    forall q | 0 <= q < |w.records|
      ensures RecordOk(s'.dev, records'[q])
      ensures w.records[q].created && FreshId(w.sys) ==> w.records[q].resourceId != w.sys.dev.nextRes
    {
      assert RecordOk(w.sys.dev, w.records[q]);
      if w.records[q].created {
        assert FindRes(w.sys.dev.resources, w.records[q].resourceId).Some?;
      }
      if q != r { OtherRecordUnaffected(w.sys.dev, s'.dev, i, slot, w.records[q]); }
    }
  }

  /** A call on one blob changes at most that blob's slot, and its record still
      matches. */
  ghost predicate GoodCall(s: System, b: Blob, out: Outcome<Blob>) {
    var f := FindRes(s.dev.resources, b.resourceId);
    && SysOk(out.sys) && RecordOk(out.sys.dev, out.record) && f.Some? && f.value < |out.sys.dev.resources|
    && Replaced(s.dev, out.sys.dev, f.value, out.sys.dev.resources[f.value])
    && (out.record.created ==> out.record.resourceId == b.resourceId && FindRes(out.sys.dev.resources, b.resourceId) == f)
    && out.sys.dev.nextCtx == s.dev.nextCtx && out.sys.dev.contexts == s.dev.contexts && out.sys.host.contexts == s.host.contexts
    && out.sys.dev.nextOffset == s.dev.nextOffset && out.sys.dev.nextRes == s.dev.nextRes
  }

  /** Unmapping changes record, slot and host together, or nothing. */
  lemma UnmapCall(s: System, b: Blob, answer: int)
    requires SysOk(s) && b.created && RecordOk(s.dev, b)
    ensures var out := BlobUnmap(s, b, answer);
      && GoodCall(s, b, out) && out.record.created
      && (out.rc == 0 <==> b.mapped && answer == 0)
      && (out.rc == 0 ==> !out.record.mapped) && (out.rc != 0 ==> out.sys == s && out.record == b)
  {
    var out := BlobUnmap(s, b, answer);
    var i := FindRes(s.dev.resources, b.resourceId).value;
    assert SlotOk(s.dev.resources[i]);
    if out.rc == 0 {
      RemapKeepsSys(s, out.sys, i, out.sys.dev.resources[i]);
      FindUnique(out.sys.dev, i);
    }
  }

  /** Mapping: on success the record holds an address inside the region; a
      mapping that is not addressable is undone, and if the host refuses the
      undo all three sides agree that it is still mapped. */
  lemma MapCall(s: System, b: Blob, answer: int, mapInfo: u32, undoAnswer: int)
    requires SysOk(s) && b.created && RecordOk(s.dev, b)
    ensures var out := BlobMap(s, b, answer, mapInfo, undoAnswer);
      && GoodCall(s, b, out) && out.record.created
      && (out.rc == 0 <==> MapSucceeds(s.dev.cfg, b, answer))
      && (out.rc == 0 ==> out.record.mapped && out.record.mappedAddr == s.dev.cfg.windowBase + b.offset
                          && out.record.mappedSize == b.size && b.offset + b.size <= s.dev.cfg.windowSize)
      && (out.rc != 0 ==> out.record.size == b.size && (if b.mapped then out.record == b else out.record.mappedAddr == 0)
                          && (out.record.mapped ==> b.mapped || undoAnswer != 0))
  {
    var i := FindRes(s.dev.resources, b.resourceId).value;
    WindowInRange(s.dev, i);
    SmallMod(b.offset + b.size, U64);
    hide And;
    if b.mapped || !Mappable(b.flags) || answer != 0 {
      assert BlobMap(s, b, answer, mapInfo, undoAnswer).sys == s;
    } else {
      var s2, b1 := MapCommand(s, b, mapInfo);
      if Addressable(s.dev.cfg, b) {
        SmallMod(s.dev.cfg.windowBase + b.offset, U64);
        assert BlobMap(s, b, answer, mapInfo, undoAnswer)
            == Outcome(s2, b1.(mappedAddr := s.dev.cfg.windowBase + b.offset), 0);
      } else {
        UndoneMap(s, b, s2, b1, undoAnswer);
        assert BlobMap(s, b, answer, mapInfo, undoAnswer)
            == Outcome(BlobUnmap(s2, b1, undoAnswer).sys, BlobUnmap(s2, b1, undoAnswer).record, ENOTSUP);
      }
    }
  }

  lemma UndoneMap(s: System, b: Blob, s2: System, b1: Blob, undoAnswer: int)
    requires SysOk(s) && b.created && RecordOk(s.dev, b) && SysOk(s2) && RecordOk(s2.dev, b1)
    requires b1 == b.(mapInfo := b1.mapInfo, mappedSize := b.size, mapped := true) && b1.mappedAddr == 0
    requires var i := FindRes(s.dev.resources, b.resourceId).value;
      && FindRes(s2.dev.resources, b.resourceId) == Some(i)
      && s2.dev == s.dev.(resources := s.dev.resources[i := s2.dev.resources[i]])
      && s2.host.contexts == s.host.contexts
    ensures var out := BlobUnmap(s2, b1, undoAnswer);
      && GoodCall(s, b, Outcome(out.sys, out.record, ENOTSUP)) && out.record.created
      && out.record.mappedAddr == 0 && out.record.size == b.size && (out.record.mapped ==> undoAnswer != 0)
  {
    UnmapCall(s2, b1, undoAnswer);
    var i := FindRes(s.dev.resources, b.resourceId).value;
    var res' := BlobUnmap(s2, b1, undoAnswer).sys.dev.resources;
    assert res' == s.dev.resources[i := res'[i]];
  }

  lemma WindowInRange(d: Device, i: nat)
    requires SlotsOk(d) && WindowsOk(d) && i < |d.resources| && IsLiveBlob(d.resources[i])
    ensures d.resources[i].offset + d.resources[i].size <= d.nextOffset
    ensures 0 < d.resources[i].size
  {
    assert WindowOk(d, d.resources[i]);
  }

  /** Slot, host and record right after the host has accepted the map command. */
  lemma MapCommand(s: System, b: Blob, mapInfo: u32) returns (s2: System, b1: Blob)
    requires SysOk(s) && b.created && RecordOk(s.dev, b) && !b.mapped
    ensures var i := FindRes(s.dev.resources, b.resourceId).value;
      var slot := s.dev.resources[i];
      var s1 := SetSlot(s, i, slot.(mapped := true, mapInfo := mapInfo));
      && s2 == s1.(host := s1.host.(resources := s1.host.resources[b.resourceId := Some(slot.offset)]))
      && b1 == b.(mapInfo := mapInfo, offset := slot.offset, mappedSize := b.size, mapped := true)
      && SysOk(s2) && RecordOk(s2.dev, b1) && b1.mappedAddr == 0
      && FindRes(s2.dev.resources, b.resourceId) == Some(i)
  {
    var i := FindRes(s.dev.resources, b.resourceId).value;
    var slot := s.dev.resources[i];
    var mapped := slot.(mapped := true, mapInfo := mapInfo);
    var s1 := SetSlot(s, i, mapped);
    s2 := s1.(host := s1.host.(resources := s1.host.resources[b.resourceId := Some(slot.offset)]));
    b1 := b.(mapInfo := mapInfo, offset := slot.offset, mappedSize := b.size, mapped := true);
    RemapKeepsSys(s, s2, i, mapped);
    FindUnique(s2.dev, i);
  }

  /** When a map call returns 0. */
  predicate MapSucceeds(cfg: Config, b: Blob, answer: int) {
    !b.mapped && Mappable(b.flags) && answer == 0 && Addressable(cfg, b)
  }

  predicate Addressable(cfg: Config, b: Blob) {
    cfg.windowBase != 0 && b.offset + b.size <= cfg.windowSize
  }

  lemma DestroyCall(s: System, b: Blob, answer: int)
    requires SysOk(s) && b.created && RecordOk(s.dev, b)
    ensures var out := BlobDestroy(s, b, answer);
      var f := FindRes(s.dev.resources, b.resourceId);
      && GoodCall(s, b, out)
      && (out.rc == 0 <==> !b.mapped && answer == 0)
      && (out.rc == 0 ==> out.record == ZERO_BLOB
                          && out.sys.dev == s.dev.(resources := s.dev.resources[f.value := ZERO_SLOT])
                          && out.sys.host == s.host.(resources := s.host.resources - {b.resourceId}))
      && (out.rc != 0 ==> out.sys == s && out.record == b)
  {
    var out := BlobDestroy(s, b, answer);
    var i := FindRes(s.dev.resources, b.resourceId).value;
    assert SlotOk(s.dev.resources[i]);
    if out.rc == 0 { ReleaseKeepsSys(s, out.sys, i); }
  }

  lemma RecordCallKeepsInv(w: World, op: Op)
    requires Inv(w) && Allowed(w, op) && (op.Map? || op.Unmap? || op.Destroy?)
    ensures Inv(Step(w, op))
  {
    var b, out := w.records[op.r], Call(w, op);
    assert RecordOk(w.sys.dev, b);
    if !b.created {
      assert FindRes(w.sys.dev.resources, 0) == None;
      assert w.records[op.r := b] == w.records;
    } else {
      match op {
        case Map(_, answer, mapInfo, undoAnswer) => MapCall(w.sys, b, answer, mapInfo, undoAnswer);
        case Unmap(_, answer) => UnmapCall(w.sys, b, answer);
        case Destroy(_, answer) => DestroyCall(w.sys, b, answer);
      }
      AfterCall(w, op.r, out);
    }
  }

  lemma AfterCall(w: World, r: nat, out: Outcome<Blob>)
    requires Inv(w) && r < |w.records| && w.records[r].created && GoodCall(w.sys, w.records[r], out)
    ensures Inv(World(out.sys, w.records[r := out.record], w.windows))
  {
    var i := FindRes(w.sys.dev.resources, w.records[r].resourceId).value;
    OthersKeep(w, out.sys, w.records[r := out.record], i, out.sys.dev.resources[i], r);
  }

  lemma ClearRecord(w: World, r: nat)
    requires Inv(w) && r < |w.records|
    ensures Inv(w.(records := w.records[r := ZERO_BLOB]))
  {
  }

  lemma ClearWindows(w: World)
    requires Inv(w)
    ensures Inv(w.(windows := []))
  {
  }

  /** How callers get rid of a blob: unmap if mapped, destroy if still created;
      the answers are ignored. */
  function Release(s: System, b: Blob, unmapAnswer: int, unrefAnswer: int): Outcome<Blob> {
    var out := if b.mapped then BlobUnmap(s, b, unmapAnswer) else Outcome(s, b, 0);
    if out.record.created then BlobDestroy(out.sys, out.record, unrefAnswer) else out
  }

  lemma ReleaseKeepsInv(w: World, r: nat, unmapAnswer: int, unrefAnswer: int)
    requires Inv(w) && w.windows == [] && r < |w.records| && (w.records[r].mapped ==> w.records[r].created)
    ensures var out := Release(w.sys, w.records[r], unmapAnswer, unrefAnswer);
      Inv(World(out.sys, w.records[r := out.record], []))
  {
    var b := w.records[r];
    assert RecordOk(w.sys.dev, b);
    if b.created {
      var out1 := if b.mapped then BlobUnmap(w.sys, b, unmapAnswer) else Outcome(w.sys, b, 0);
      var w1 := World(out1.sys, w.records[r := out1.record], []);
      if b.mapped {
        UnmapCall(w.sys, b, unmapAnswer);
        AfterCall(w, r, out1);
      } else {
        assert w.records[r := b] == w.records;
      }
      DestroyCall(out1.sys, out1.record, unrefAnswer);
      var out2 := BlobDestroy(out1.sys, out1.record, unrefAnswer);
      AfterCall(w1, r, out2);
      assert w1.records[r := out2.record] == w.records[r := out2.record];
    } else {
      assert w.records[r := b] == w.records;
    }
  }

  lemma PlainCallKeepsInv(w: World, op: Op)
    requires Inv(w) && Allowed(w, op) && (op.CreatePlain? || op.UnrefPlain?) && (op.CreatePlain? ==> FreshId(w.sys))
    ensures Inv(Step(w, op))
  {
    hide Alignment, And;
    var w' := Step(w, op);
    var s, s' := w.sys, w'.sys;
    var at := if op.CreatePlain? then FreeFrom(s.dev.resources, 0) else FindRes(s.dev.resources, op.id);
    if at.Some? {
      var i := at.value;
      assert SlotOk(s.dev.resources[i]);
      if op.CreatePlain? {
        if op.answer == 0 {
          TakeKeepsSys(s, s', i, s'.dev.resources[i]);
        } else {
          ZeroedFreeSlot(s.dev, i);
          assert forall j :: 0 <= j < MAX_RESOURCES ==> SlotOk(s.dev.resources[j]) && SlotOk(s.dev.resources[j]);
          assert forall j :: 0 <= j < MAX_RESOURCES && IsLiveBlob(s.dev.resources[j])
                   ==> WindowOk(s.dev, s.dev.resources[j]) && WindowOk(s'.dev, s.dev.resources[j]);
        }
      } else if op.answer == 0 {
        ReleaseKeepsSys(s, s', i);
      }
      forall r | 0 <= r < |w.records|
        ensures RecordOk(s'.dev, w.records[r])
      {
        assert RecordOk(s.dev, w.records[r]);
        if w.records[r].created {
          var f := FindRes(s.dev.resources, w.records[r].resourceId).value;
          assert s.dev.resources[i].live ==> i != f;
        }
        OtherRecordUnaffected(s.dev, s'.dev, i, s'.dev.resources[i], w.records[r]);
      }
    }
  }

  lemma StepKeepsInv(w: World, op: Op)
    requires Inv(w) && (TakesId(op) ==> FreshId(w.sys))
    ensures Inv(Step(w, op))
  {
    if Allowed(w, op) {
      if op.Create? { CreateKeepsInv(w, op); }
      else if op.CreatePlain? || op.UnrefPlain? { PlainCallKeepsInv(w, op); }
      else { RecordCallKeepsInv(w, op); }
    }
  }

  // ---- every run -------------------------------------------------------------------

  /** The invariant holds after every run whose creates find fresh ids. */
  lemma {:induction false} RunKeepsInv(w: World, ops: seq<Op>)
    requires Inv(w) && FreshRun(w, ops)
    ensures Inv(Run(w, ops))
    decreases ops
  {
    if ops != [] {
      StepKeepsInv(w, ops[0]);
      RunKeepsInv(Step(w, ops[0]), ops[1..]);
    }
  }

  lemma InitialInv(w: World)
    requires Initial(w)
    ensures Inv(w)
  {
    forall i | 0 <= i < |w.sys.dev.resources|
      ensures w.sys.dev.resources[i] == ZERO_SLOT
    {}
  }

  /** Every run from a fresh device, of any calls with any host answers, keeps
      the caller's records, the guest's slots and the host's table in agreement. */
  lemma RecordsSlotsHostAgree(w: World, ops: seq<Op>, r: nat)
    requires Initial(w) && FreshRun(w, ops) && r < |Run(w, ops).records|
    requires Run(w, ops).records[r].created
    ensures var now := Run(w, ops);
      var b := now.records[r];
      var f := FindRes(now.sys.dev.resources, b.resourceId);
      && b.resourceId != 0 && f.Some?
      && b.resourceId in now.sys.host.resources
      && now.sys.dev.resources[f.value].mapped == b.mapped == now.sys.host.resources[b.resourceId].Some?
      && (b.mapped ==> now.sys.host.resources[b.resourceId] == Some(b.offset))
  {
    InitialInv(w);
    RunKeepsInv(w, ops);
    var d := Run(w, ops).sys.dev;
    assert RecordOk(d, Run(w, ops).records[r]);
    var i := FindRes(d.resources, Run(w, ops).records[r].resourceId).value;
    assert HostHas(Run(w, ops).sys.host, d.resources[i]);
  }

  // ---- windows: these rest on the overflow-checked counter alone --------------------

  ghost predicate WindowInv(w: World) {
    GoodConfig(w.sys.dev.cfg) && w.sys.dev.nextOffset % Alignment(w.sys.dev.cfg) == 0 && LogOk(w.sys.dev, w.windows)
  }

  /** A create that succeeds hands out the window at the counter and moves the
      counter behind it. */
  lemma CreateMovesCounter(s: System, size: u64, mem: u32, flags: u32, blobId: u64, blob: Blob, answer: int)
    requires GoodConfig(s.dev.cfg) && s.dev.nextOffset % Alignment(s.dev.cfg) == 0
    requires BlobCreate(s, size, mem, flags, blobId, blob, answer).rc == 0
    ensures var out := BlobCreate(s, size, mem, flags, blobId, blob, answer);
      && out.sys.dev.cfg == s.dev.cfg && out.record.offset == s.dev.nextOffset
      && out.sys.dev.nextOffset == out.record.offset + out.record.size
      && out.sys.dev.nextOffset % Alignment(s.dev.cfg) == 0
      && WindowFits(s.dev.cfg, Window(out.record.offset, out.record.size, size))
  {
    hide And, RoundedUp;
    AlignedSizeIsLeastMultiple(s.dev.cfg, size);
    MultiplesAdd(s.dev.nextOffset, AlignedSize(s.dev.cfg, size).value, Alignment(s.dev.cfg));
  }

  /** Every other step leaves counter, alignment and windows alone. */
  lemma OnlyCreateMovesCounter(w: World, op: Op)
    requires !(op.Create? && Allowed(w, op) && Call(w, op).rc == 0)
    ensures var w' := Step(w, op);
      w'.windows == w.windows && w'.sys.dev.nextOffset == w.sys.dev.nextOffset && w'.sys.dev.cfg == w.sys.dev.cfg
  {
    hide AlignedSize, And;
  }

  lemma StepKeepsWindows(w: World, op: Op)
    requires WindowInv(w)
    ensures WindowInv(Step(w, op))
  {
    if op.Create? && Allowed(w, op) && Call(w, op).rc == 0 {
      CreateMovesCounter(w.sys, op.size, op.mem, op.flags, op.blobId, w.records[op.r], op.answer);
    } else {
      OnlyCreateMovesCounter(w, op);
    }
  }

  lemma {:induction false} RunKeepsWindows(w: World, ops: seq<Op>)
    requires WindowInv(w)
    ensures WindowInv(Run(w, ops))
    decreases ops
  {
    if ops != [] {
      StepKeepsWindows(w, ops[0]);
      RunKeepsWindows(Step(w, ops[0]), ops[1..]);
    }
  }

  /** Windows of any two blobs ever created, released or not, are disjoint, the
      later one behind the earlier; offsets and sizes are aligned, and each size
      is the least aligned one that covers what was asked for. This holds of
      every run, however many ids it uses up. */
  lemma WindowsNeverOverlap(w: World, ops: seq<Op>, a: nat, b: nat)
    requires Initial(w) && a < b < |Run(w, ops).windows|
    ensures var ws := Run(w, ops).windows;
      && ws[a].offset + ws[a].size <= ws[b].offset && ws[b].offset + ws[b].size < U64
      && WindowFits(Run(w, ops).sys.dev.cfg, ws[a]) && WindowFits(Run(w, ops).sys.dev.cfg, ws[b])
  {
    RunKeepsWindows(w, ops);
  }

  /** Two mapped blobs never share an address: what a caller writes through one
      mapping is not visible through another. */
  lemma MappingsNeverAlias(w: World, ops: seq<Op>, r: nat, q: nat)
    requires Initial(w) && FreshRun(w, ops)
    requires r < |Run(w, ops).records| && q < |Run(w, ops).records| && r != q
    requires Run(w, ops).records[r].mappedAddr != 0 && Run(w, ops).records[q].mappedAddr != 0
    ensures var now := Run(w, ops);
      var x, y, cfg := now.records[r], now.records[q], now.sys.dev.cfg;
      && x.mapped && y.mapped
      && (x.mappedAddr + x.mappedSize <= y.mappedAddr || y.mappedAddr + y.mappedSize <= x.mappedAddr)
      && cfg.windowBase <= x.mappedAddr && x.mappedAddr + x.mappedSize <= cfg.windowBase + cfg.windowSize < U64
      && x.mappedSize == x.size
  {
    hide Inv;
    InitialInv(w);
    RunKeepsInv(w, ops);
    RecordsNeverAlias(Run(w, ops), r, q);
  }

  lemma RecordsNeverAlias(w: World, r: nat, q: nat)
    requires Inv(w) && r < |w.records| && q < |w.records| && r != q
    requires w.records[r].mappedAddr != 0 && w.records[q].mappedAddr != 0
    ensures var x, y, cfg := w.records[r], w.records[q], w.sys.dev.cfg;
      && x.mapped && y.mapped
      && (x.mappedAddr + x.mappedSize <= y.mappedAddr || y.mappedAddr + y.mappedSize <= x.mappedAddr)
      && cfg.windowBase <= x.mappedAddr && x.mappedAddr + x.mappedSize <= cfg.windowBase + cfg.windowSize < U64
      && x.mappedSize == x.size
  {
    var d := w.sys.dev;
    assert RecordOk(d, w.records[r]) && RecordOk(d, w.records[q]);
    var i := FindRes(d.resources, w.records[r].resourceId).value;
    var j := FindRes(d.resources, w.records[q].resourceId).value;
    assert i != j;
    var lo, hi := if i < j then i else j, if i < j then j else i;
    assert Disjoint(d.resources[lo], d.resources[hi]);
  }

  /** On the host but not named by any guest slot. */
  ghost predicate Orphan(s: System, id: u32) { id in s.host.resources && !IsLive(s.dev, id) }

  lemma LiveAt(d: Device, id: u32, i: nat)
    requires i < |d.resources| && Matches(d.resources[i], id)
    ensures IsLive(d, id)
  {}

  /** A call that fails makes no resource live and loses none. */
  lemma FailedCallKeepsLive(w: World, op: Op, id: u32)
    requires Inv(w) && Allowed(w, op) && (TakesId(op) ==> FreshId(w.sys))
    requires Call(w, op).rc != 0
    ensures IsLive(Step(w, op).sys.dev, id) == IsLive(w.sys.dev, id)
  {
    LiveChange(w, op, id);
  }

  /** Which ids each call makes live or releases. */
  lemma LiveChange(w: World, op: Op, id: u32)
    requires Inv(w) && Allowed(w, op) && (TakesId(op) ==> FreshId(w.sys))
    ensures var rc := Call(w, op).rc;
      IsLive(Step(w, op).sys.dev, id) <==>
        if rc == 0 && (op.Create? || op.CreatePlain?) && id == w.sys.dev.nextRes then true
        else if rc == 0 && op.Destroy? && id == w.records[op.r].resourceId then false
        else if rc == 0 && op.UnrefPlain? && id == op.id then false
        else IsLive(w.sys.dev, id)
  {
    hide AlignedSize, Alignment, And;
    var d, d' := w.sys.dev, Step(w, op).sys.dev;
    var at := if op.Create? || op.CreatePlain? then FreeFrom(d.resources, 0)
              else if op.UnrefPlain? then FindRes(d.resources, op.id)
              else FindRes(d.resources, w.records[op.r].resourceId);
    if at.Some? {
      var i := at.value;
      StepKeepsInv(w, op);
      SlotChange(w, op, i);
      var f, f' := FindFrom(d.resources, id, 0), FindFrom(d'.resources, id, 0);
      if f.Some? && f.value != i { LiveAt(d', id, f.value); }
      if f'.Some? && f'.value != i { LiveAt(d, id, f'.value); }
      if Matches(d.resources[i], id) { LiveAt(d, id, i); }
      if Matches(d'.resources[i], id) { LiveAt(d', id, i); }
      if f'.Some? && f'.value != i && d.resources[i].live {
        assert d.resources[f'.value].id != d.resources[i].id;
      }
    }
  }

  /** How the id and the liveness of the one slot a call can change do change. */
  ghost predicate SlotChanged(w: World, op: Op, i: nat)
    requires Allowed(w, op)
  {
    var d, d', rc := w.sys.dev, Step(w, op).sys.dev, Call(w, op).rc;
    && i < |d.resources| == |d'.resources| && d'.resources == d.resources[i := d'.resources[i]]
    && (rc == 0 && (op.Create? || op.CreatePlain?) ==> Matches(d'.resources[i], d.nextRes))
    && (rc == 0 && (op.Destroy? || op.UnrefPlain?) ==> !d'.resources[i].live)
    && (rc != 0 || op.Map? || op.Unmap? ==>
          d'.resources[i].live == d.resources[i].live && (d.resources[i].live ==> d'.resources[i].id == d.resources[i].id))
  }

  lemma TakenSlotChange(w: World, op: Op, i: nat)
    requires Inv(w) && Allowed(w, op) && (op.Create? || op.CreatePlain?) && FreshId(w.sys)
    requires FreeFrom(w.sys.dev.resources, 0) == Some(i)
    ensures SlotChanged(w, op, i)
  {
    hide AlignedSize, Alignment, And;
    assert SlotOk(w.sys.dev.resources[i]);
  }

  lemma MappedSlotChange(w: World, op: Op, i: nat)
    requires Inv(w) && Allowed(w, op) && op.Map? && FindRes(w.sys.dev.resources, w.records[op.r].resourceId) == Some(i)
    ensures SlotChanged(w, op, i)
  {
    hide And, Inv;
  }

  lemma LeftSlotChange(w: World, op: Op, i: nat)
    requires Inv(w) && Allowed(w, op) && (op.Unmap? || op.Destroy? || op.UnrefPlain?)
    requires Some(i) == FindRes(w.sys.dev.resources, if op.UnrefPlain? then op.id else w.records[op.r].resourceId)
    ensures SlotChanged(w, op, i)
  {
    hide Inv;
  }

  lemma SlotChange(w: World, op: Op, i: nat)
    requires Inv(w) && Allowed(w, op) && (TakesId(op) ==> FreshId(w.sys))
    requires Some(i) == if op.Create? || op.CreatePlain? then FreeFrom(w.sys.dev.resources, 0)
                        else if op.UnrefPlain? then FindRes(w.sys.dev.resources, op.id)
                        else FindRes(w.sys.dev.resources, w.records[op.r].resourceId)
    ensures SlotChanged(w, op, i)
  {
    hide SlotChanged, Inv;
    match op
    case Create(_, _, _, _, _, _) => TakenSlotChange(w, op, i);
    case CreatePlain(_, _, _) => TakenSlotChange(w, op, i);
    case Map(_, _, _, _) => MappedSlotChange(w, op, i);
    case _ => LeftSlotChange(w, op, i);
  }

  /** A step that loses a host resource: the create fails behind the host. */
  ghost predicate Losing(w: World, op: Op) {
    op.Create? && Allowed(w, op) && Orphans(w.sys, op.size, op.mem, w.records[op.r], op.answer)
  }

  /** The next id is not in use on the host either. */
  predicate NewToHost(s: System) { s.dev.nextRes !in s.host.resources }

  lemma OrphanChange(w: World, op: Op, id: u32)
    requires Inv(w) && (TakesId(op) ==> FreshId(w.sys) && NewToHost(w.sys))
    ensures Orphan(Step(w, op).sys, id) <==> Orphan(w.sys, id) || (Losing(w, op) && id == w.sys.dev.nextRes)
  {
    if Allowed(w, op) {
      LiveChange(w, op, id);
      HostChange(w, op, id);
      if IsLive(w.sys.dev, id) {
        var i := FindFrom(w.sys.dev.resources, id, 0).value;
        assert SlotOk(w.sys.dev.resources[i]) && HostHas(w.sys.host, w.sys.dev.resources[i]);
      }
    }
  }

  /** Which ids each call adds to the host's table or removes. */
  lemma HostChange(w: World, op: Op, id: u32)
    requires Inv(w) && Allowed(w, op) && (TakesId(op) ==> FreshId(w.sys))
    ensures var rc := Call(w, op).rc;
      id in Step(w, op).sys.host.resources <==>
        if ((rc == 0 && (op.Create? || op.CreatePlain?)) || Losing(w, op)) && id == w.sys.dev.nextRes then true
        else if rc == 0 && op.Destroy? && id == w.records[op.r].resourceId then false
        else if rc == 0 && op.UnrefPlain? && id == op.id then false
        else id in w.sys.host.resources
  {
    if op.Create? {
      if Call(w, op).rc != 0 {
        FailedCreate(w.sys, op.size, op.mem, op.flags, op.blobId, w.records[op.r], op.answer);
      } else {
        var i, slot := CreatedBlob(w.sys, op.size, op.mem, op.flags, op.blobId, w.records[op.r], op.answer);
      }
    } else if op.Map? || op.Unmap? || op.Destroy? {
      RemapHostKeys(w, op);
    }
  }

  lemma RemapHostKeys(w: World, op: Op)
    requires Inv(w) && Allowed(w, op) && (op.Map? || op.Unmap? || op.Destroy?)
    ensures Call(w, op).sys.host.resources.Keys
            == if op.Destroy? && Call(w, op).rc == 0 then w.sys.host.resources.Keys - {w.records[op.r].resourceId}
               else w.sys.host.resources.Keys
  {
    var b := w.records[op.r];
    assert RecordOk(w.sys.dev, b);
    if b.created {
      var i := FindRes(w.sys.dev.resources, b.resourceId).value;
      assert HostHas(w.sys.host, w.sys.dev.resources[i]);
    }
  }

  /** Some step of the run loses a host resource. */
  ghost predicate SomeLosing(w: World, ops: seq<Op>)
    decreases ops
  {
    ops != [] && (Losing(w, ops[0]) || SomeLosing(Step(w, ops[0]), ops[1..]))
  }

  ghost predicate NoOrphans(s: System) { forall id: u32 :: !Orphan(s, id) }

  /** Every create of the run uses an id the host does not know: an id that was
      lost and, after the counter has wrapped, given out again would no longer
      be an orphan. */
  ghost predicate NewToHostRun(w: World, ops: seq<Op>)
    decreases ops
  {
    ops == [] || ((TakesId(ops[0]) ==> NewToHost(w.sys)) && NewToHostRun(Step(w, ops[0]), ops[1..]))
  }

  /** Every host resource is named by a guest slot at the end of a run exactly
      when no create of the run was refused by the window counter after the host
      had accepted it. */
  lemma NoOrphansIffNoneLost(w: World, ops: seq<Op>)
    requires Initial(w) && FreshRun(w, ops) && NewToHostRun(w, ops)
    ensures NoOrphans(Run(w, ops).sys) <==> !SomeLosing(w, ops)
  {
    InitialInv(w);
    OrphansOfRun(w, ops);
  }

  lemma {:induction false} OrphansOfRun(w: World, ops: seq<Op>)
    requires Inv(w) && FreshRun(w, ops) && NewToHostRun(w, ops)
    ensures NoOrphans(Run(w, ops).sys) <==> NoOrphans(w.sys) && !SomeLosing(w, ops)
    decreases ops
  {
    if ops != [] {
      NoOrphansAfter(w, ops[0]);
      StepKeepsInv(w, ops[0]);
      OrphansOfRun(Step(w, ops[0]), ops[1..]);
    }
  }

  lemma NoOrphansAfter(w: World, op: Op)
    requires Inv(w) && (TakesId(op) ==> FreshId(w.sys) && NewToHost(w.sys))
    ensures NoOrphans(Step(w, op).sys) <==> NoOrphans(w.sys) && !Losing(w, op)
  {
    var next := Step(w, op);
    forall id: u32
      ensures Orphan(next.sys, id) <==> Orphan(w.sys, id) || (Losing(w, op) && id == w.sys.dev.nextRes)
    {
      OrphanChange(w, op, id);
    }
    if !NoOrphans(w.sys) {
      var id: u32 :| Orphan(w.sys, id);
      assert Orphan(next.sys, id);
    }
    if Losing(w, op) {
      var id: u32 := w.sys.dev.nextRes;
      assert Orphan(next.sys, id);
    }
  }

  // ---- until the id counter wraps ------------------------------------------------------

  /** Every id in use, on either side, is below the counter. */
  ghost predicate IdsBelow(s: System) {
    && 0 < s.dev.nextRes
    && (forall i :: 0 <= i < |s.dev.resources| && s.dev.resources[i].live ==> s.dev.resources[i].id < s.dev.nextRes)
    && (forall id :: id in s.host.resources ==> id < s.dev.nextRes)
  }

  lemma BelowIsFresh(s: System)
    requires IdsBelow(s)
    ensures FreshId(s) && NewToHost(s)
  {
  }

  lemma CreateStaysBelow(s: System, size: u64, mem: u32, flags: u32, blobId: u64, blob: Blob, answer: int)
    requires IdsBelow(s) && s.dev.nextRes + 1 < U32
    ensures var s' := BlobCreate(s, size, mem, flags, blobId, blob, answer).sys;
      IdsBelow(s') && s.dev.nextRes <= s'.dev.nextRes <= s.dev.nextRes + 1
  {
    hide AlignedSize;
  }

  lemma UnmapStaysBelow(s: System, b: Blob, answer: int)
    requires IdsBelow(s)
    ensures var s' := BlobUnmap(s, b, answer).sys; IdsBelow(s') && s'.dev.nextRes == s.dev.nextRes
  {
  }

  lemma MapStaysBelow(s: System, b: Blob, answer: int, mapInfo: u32, undoAnswer: int)
    requires IdsBelow(s)
    ensures var s' := BlobMap(s, b, answer, mapInfo, undoAnswer).sys; IdsBelow(s') && s'.dev.nextRes == s.dev.nextRes
  {
    hide And;
  }

  lemma DestroyStaysBelow(s: System, b: Blob, answer: int)
    requires IdsBelow(s)
    ensures var s' := BlobDestroy(s, b, answer).sys; IdsBelow(s') && s'.dev.nextRes == s.dev.nextRes
  {
  }

  lemma ReleaseStaysBelow(s: System, b: Blob, unmapAnswer: int, unrefAnswer: int)
    requires IdsBelow(s)
    ensures var s' := Release(s, b, unmapAnswer, unrefAnswer).sys; IdsBelow(s') && s'.dev.nextRes == s.dev.nextRes
  {
    hide IdsBelow, BlobUnmap, BlobDestroy;
    UnmapStaysBelow(s, b, unmapAnswer);
    var out := if b.mapped then BlobUnmap(s, b, unmapAnswer) else Outcome(s, b, 0);
    DestroyStaysBelow(out.sys, out.record, unrefAnswer);
  }

  lemma PlainStaysBelow(w: World, op: Op)
    requires IdsBelow(w.sys) && w.sys.dev.nextRes + 1 < U32 && Allowed(w, op) && (op.CreatePlain? || op.UnrefPlain?)
    ensures IdsBelow(Step(w, op).sys) && Step(w, op).sys.dev.nextRes <= w.sys.dev.nextRes + 1
  {
  }

  lemma StepStaysBelow(w: World, op: Op)
    requires IdsBelow(w.sys) && w.sys.dev.nextRes + 1 < U32
    ensures IdsBelow(Step(w, op).sys) && Step(w, op).sys.dev.nextRes <= w.sys.dev.nextRes + 1
  {
    hide IdsBelow;
    if Allowed(w, op) {
      match op
      case Create(r, size, mem, flags, blobId, answer) =>
        CreateStaysBelow(w.sys, size, mem, flags, blobId, w.records[r], answer);
      case Map(r, answer, mapInfo, undoAnswer) => MapStaysBelow(w.sys, w.records[r], answer, mapInfo, undoAnswer);
      case Unmap(r, answer) => UnmapStaysBelow(w.sys, w.records[r], answer);
      case Destroy(r, answer) => DestroyStaysBelow(w.sys, w.records[r], answer);
      case CreatePlain(_, _, _) => PlainStaysBelow(w, op);
      case UnrefPlain(_, _) => PlainStaysBelow(w, op);
    }
  }

  /** Runs of fewer than 2^32 - 1 calls find a fresh id at every create. */
  lemma {:induction false} ShortRunsAreFresh(w: World, ops: seq<Op>)
    requires IdsBelow(w.sys) && w.sys.dev.nextRes + |ops| < U32
    ensures FreshRun(w, ops) && NewToHostRun(w, ops)
    decreases ops
  {
    if ops != [] {
      BelowIsFresh(w.sys);
      StepStaysBelow(w, ops[0]);
      ShortRunsAreFresh(Step(w, ops[0]), ops[1..]);
    }
  }

  // ---- a run that loses a resource --------------------------------------------------------

  /** Half of the 64-bit window space. */
  const HALF: u64 := 0x8000_0000_0000_0000

  function TwoHalves(): seq<Op> {
    [Create(0, HALF, BLOB_MEM_HOST3D, BLOB_FLAG_USE_MAPPABLE, 0, 0), Create(1, HALF, BLOB_MEM_HOST3D, BLOB_FLAG_USE_MAPPABLE, 0, 0)]
  }

  lemma HalfIsAligned(cfg: Config)
    requires GoodConfig(cfg)
    ensures AlignedSize(cfg, HALF) == Some(HALF)
  {
    hide And;
    var align := Alignment(cfg);
    var k: nat :| align == Pow2(k);
    Pow2Values();
    Pow2Add(31, 32);
    if k > 32 { Pow2StrictMonotone(32, k); }
    Pow2Divides(k, 63);
    AlignedSizeIsLeastMultiple(cfg, HALF);
    var a := AlignedSize(cfg, HALF).value;
    ModShift(0, align, Pow2(63 - k));
    ModInjective(HALF, a, align);
  }

  lemma FirstHalf(w: World)
    requires Initial(w) && w.sys.dev.cfg.resourceBlob && |w.records| >= 2
    ensures var w1 := Step(w, TwoHalves()[0]);
      && w1.sys.dev.cfg == w.sys.dev.cfg && w1.sys.dev.nextOffset == HALF && w1.sys.dev.nextRes == 2
      && |w1.records| == |w.records| && w1.records[1] == ZERO_BLOB
      && w1.windows == [Window(0, HALF, HALF)] && FreeFrom(w1.sys.dev.resources, 0).Some?
  {
    HalfIsAligned(w.sys.dev.cfg);
    hide AlignedSize;
    assert !Step(w, TwoHalves()[0]).sys.dev.resources[1].live;
  }

  /** On any fresh device with blobs: the host accepts two blobs of 2^63 bytes,
      the guest's counter refuses the second, and the host is left with a
      resource no guest slot names. */
  lemma SecondHalfIsLost(w: World)
    requires Initial(w) && w.sys.dev.cfg.resourceBlob && |w.records| >= 2
    ensures FreshRun(w, TwoHalves()) && NewToHostRun(w, TwoHalves()) && SomeLosing(w, TwoHalves())
    ensures Run(w, TwoHalves()).windows == [Window(0, HALF, HALF)] && Orphan(Run(w, TwoHalves()).sys, 2)
  {
    var op1, op2 := TwoHalves()[0], TwoHalves()[1];
    InitialInv(w);
    ShortRunsAreFresh(w, TwoHalves());
    FirstHalf(w);
    HalfIsAligned(w.sys.dev.cfg);
    assert TwoHalves()[1..] == [op2] && [op2][1..] == [];
    var w1 := Step(w, op1);
    StepStaysBelow(w, op1);
    BelowIsFresh(w1.sys);
    StepKeepsInv(w, op1);
    hide AlignedSize, Inv;
    assert Losing(w1, op2) && SomeLosing(w1, [op2]);
    OrphanChange(w1, op2, 2);
    assert Run(w, TwoHalves()) == Run(w1, [op2]) == Run(Step(w1, op2), []) == Step(w1, op2);
  }
}
