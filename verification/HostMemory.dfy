/** Host-visible VkDeviceMemory, exported or staged. */
module HostMemory {

  // The dispatch's table of exported allocations, each backed by a mapped blob,
  // and the shared staging buffer behind it.

  import opened Bits
  import opened Rounding
  import opened Wrappers
  import opened GpuSystem
  import opened BlobLifecycle

  /** UK_HV_MEM_MAX and UK_STAGING_BUF_SIZE */
  const SLOTS: nat := 128
  const STAGING_SIZE: nat := 256 * 1024 * 1024

  /** The g_hv_mem table, field by field, over the device below. */
  datatype Memory = Memory(used: seq<bool>, handles: seq<u64>, blobs: seq<Blob>, nextHandle: u64, sys: System)

  /** The host's answers during one call. */
  datatype Answers = Answers(submitted: bool, create: int, mapBlob: int, mapInfo: u32, undoMap: int, attach: int,
                             unmap: int, unref: int)

  function FreeSlot(used: seq<bool>, from: nat): (r: Option<nat>)
    requires from <= |used|
    ensures r.Some? ==> from <= r.value < |used| && !used[r.value]
    ensures r.None? ==> forall k :: from <= k < |used| ==> used[k]
    decreases |used| - from
  {
    if from == |used| then None else if !used[from] then Some(from) else FreeSlot(used, from + 1)
  }

  /** uk_hv_mem_find */
  function Find(m: Memory, h: u64, from: nat): (r: Option<nat>)
    requires from <= |m.used| == |m.handles|
    ensures r.Some? ==> from <= r.value < |m.used| && m.used[r.value] && m.handles[r.value] == h
    ensures r.None? ==> forall k :: from <= k < |m.used| ==> !(m.used[k] && m.handles[k] == h)
    decreases |m.used| - from
  {
    if from == |m.used| then None
    else if m.used[from] && m.handles[from] == h then Some(from)
    else Find(m, h, from + 1)
  }

  /** Everything after the memory itself was allocated on the host: blob, mapping,
      attachment, or all of it undone and the record cleared. */
  function Export(s: System, ctx: ContextRecord, size: u64, h: u64, a: Answers): (System, Blob, bool) {
    var made := BlobCreate(s, size, BLOB_MEM_HOST3D, BLOB_FLAG_USE_MAPPABLE, h, ZERO_BLOB, a.create);
    var out := if made.rc != 0 then made else BlobMap(made.sys, made.record, a.mapBlob, a.mapInfo, a.undoMap);
    if out.rc == 0 && out.record.mappedAddr != 0 && ContextResource(out.sys, ctx, out.record.resourceId, a.attach) == 0
    then (out.sys, out.record, true)
    else (Release(out.sys, out.record, a.unmap, a.unref).sys, ZERO_BLOB, false)
  }

  /** stub_vkAllocateMemory. `exportable`: the type is host-visible, device and
      context are there and no batch is being recorded. */
  function Allocate(m: Memory, ctx: ContextRecord, sz: u64, exportable: bool, a: Answers): (Memory, u64)
    requires |m.used| == |m.handles| == |m.blobs|
  {
    var h := m.nextHandle;
    var m1 := m.(nextHandle := (h + 1) % U64);
    var at := FreeSlot(m.used, 0);
    if !exportable || sz == 0 || at.None? then (m1, h)
    else
      var r := at.value;
      if !a.submitted then (m1.(blobs := m.blobs[r := ZERO_BLOB]), h)
      else
        var (s, b, ok) := Export(m.sys, ctx, PageAlign(sz), h, a);
        var m2 := m1.(sys := s, blobs := m.blobs[r := b]);
        if ok then (m2.(used := m.used[r := true], handles := m.handles[r := h]), h) else (m2, h)
  }

  /** stub_vkFreeMemory */
  function Free(m: Memory, h: u64, a: Answers): Memory
    requires |m.used| == |m.handles| == |m.blobs|
  {
    match Find(m, h, 0)
    case None => m
    case Some(r) =>
      var out := Release(m.sys, m.blobs[r], a.unmap, a.unref);
      m.(used := m.used[r := false], blobs := m.blobs[r := out.record], sys := out.sys)
  }

  datatype Pointer = Mapped(address: u64) | Staging(offset: nat)

  /** stub_vkMapMemory */
  function MapMemory(m: Memory, h: u64, offset: u64): Pointer
    requires |m.used| == |m.handles| == |m.blobs|
  {
    var at := Find(m, h, 0);
    if at.Some? && m.blobs[at.value].mappedAddr != 0 then Mapped((m.blobs[at.value].mappedAddr + offset) % U64)
    else Staging(And(offset, STAGING_SIZE - 1))
  }

  // ---- runs --------------------------------------------------------------------------------

  datatype Op =
    | AllocateOp(ctx: ContextRecord, sz: u64, exportable: bool, a: Answers)
    | FreeOp(h: u64, a: Answers)
    | OtherHandle

  function Step(m: Memory, op: Op): Memory
    requires |m.used| == |m.handles| == |m.blobs|
  {
    match op
    case AllocateOp(ctx, sz, exportable, a) => Allocate(m, ctx, sz, exportable, a).0
    case FreeOp(h, a) => Free(m, h, a)
    case OtherHandle => m.(nextHandle := (m.nextHandle + 1) % U64)
  }

  function Run(m: Memory, ops: seq<Op>): (m': Memory)
    requires |m.used| == |m.handles| == |m.blobs|
    ensures |m'.used| == |m'.handles| == |m'.blobs|
    decreases ops
  {
    if ops == [] then m else Run(Step(m, ops[0]), ops[1..])
  }

  function AsWorld(m: Memory): World { World(m.sys, m.blobs, []) }

  /** A slot in use holds a mapped blob under a handle already given out. */
  ghost predicate SlotInUse(m: Memory, r: nat)
    requires r < |m.used| == |m.handles| == |m.blobs|
  {
    m.used[r] ==> m.handles[r] < m.nextHandle && m.blobs[r].created && m.blobs[r].mapped && m.blobs[r].mappedAddr != 0
  }

  ghost predicate MemoryInv(m: Memory) {
    && |m.used| == |m.handles| == |m.blobs| == SLOTS
    && Inv(AsWorld(m))
    && (forall r :: 0 <= r < SLOTS ==> SlotInUse(m, r))
    && (forall r, q :: 0 <= r < q < SLOTS && m.used[r] && m.used[q] ==> m.handles[r] != m.handles[q])
  }

  /** Handles for `n` more calls. */
  ghost predicate Room(m: Memory, n: nat) { m.nextHandle + n < U64 }

  /** Every allocation of the run finds a fresh resource id in the device below. */
  ghost predicate MemoryFresh(m: Memory, ops: seq<Op>)
    requires |m.used| == |m.handles| == |m.blobs|
    decreases ops
  {
    ops == [] || ((ops[0].AllocateOp? ==> FreshId(m.sys)) && MemoryFresh(Step(m, ops[0]), ops[1..]))
  }

  ghost predicate StartsEmpty(m: Memory) {
    && m.used == seq(SLOTS, _ => false) && |m.handles| == SLOTS
    && m.blobs == seq(SLOTS, _ => ZERO_BLOB) && BlobLifecycle.Initial(AsWorld(m))
  }

  lemma StartsInOrder(m: Memory)
    requires StartsEmpty(m)
    ensures MemoryInv(m)
  {
    InitialInv(AsWorld(m));
  }

  // ---- the pieces keep the blob layer in order -----------------------------------------------

  /** From a created blob on. */
  lemma ExportTail(w: World, r: nat, ctx: ContextRecord, a: Answers) returns (s: System, b: Blob)
    requires Inv(w) && w.windows == [] && r < |w.records| && w.records[r].created
    ensures var out := BlobMap(w.sys, w.records[r], a.mapBlob, a.mapInfo, a.undoMap);
      var ok := out.rc == 0 && out.record.mappedAddr != 0 && ContextResource(out.sys, ctx, out.record.resourceId, a.attach) == 0;
      && Inv(World(s, w.records[r := b], []))
      && (ok ==> s == out.sys && b == out.record && b.created && b.mapped && b.mappedSize == w.records[r].size)
      && (!ok ==> s == Release(out.sys, out.record, a.unmap, a.unref).sys && b == ZERO_BLOB)
  {
    assert RecordOk(w.sys.dev, w.records[r]);
    MapCall(w.sys, w.records[r], a.mapBlob, a.mapInfo, a.undoMap);
    var out := BlobMap(w.sys, w.records[r], a.mapBlob, a.mapInfo, a.undoMap);
    AfterCall(w, r, out);
    var w1 := World(out.sys, w.records[r := out.record], []);
    if out.rc == 0 && out.record.mappedAddr != 0 && ContextResource(out.sys, ctx, out.record.resourceId, a.attach) == 0 {
      s, b := out.sys, out.record;
    } else {
      ReleaseKeepsInv(w1, r, a.unmap, a.unref);
      var gone := Release(out.sys, out.record, a.unmap, a.unref);
      ClearRecord(World(gone.sys, w1.records[r := gone.record], []), r);
      s, b := gone.sys, ZERO_BLOB;
      assert w1.records[r := gone.record][r := ZERO_BLOB] == w.records[r := ZERO_BLOB];
    }
  }

  lemma ExportKeepsInv(w: World, r: nat, ctx: ContextRecord, size: u64, h: u64, a: Answers)
    requires Inv(w) && w.windows == [] && r < |w.records| && w.records[r] == ZERO_BLOB && FreshId(w.sys)
    ensures var (s, b, ok) := Export(w.sys, ctx, size, h, a);
      && Inv(World(s, w.records[r := b], []))
      && (if ok then b.created && b.mapped && b.mappedAddr != 0 && b.mappedSize >= size > 0 else b == ZERO_BLOB)
  {
    var op := Create(r, size, BLOB_MEM_HOST3D, BLOB_FLAG_USE_MAPPABLE, h, a.create);
    var made := Call(w, op);
    CreateKeepsInv(w, op);
    if made.rc != 0 {
      FailedCreate(w.sys, size, BLOB_MEM_HOST3D, BLOB_FLAG_USE_MAPPABLE, h, ZERO_BLOB, a.create);
      assert w.records[r := ZERO_BLOB] == w.records;
    } else {
      var i, slot := CreatedBlob(w.sys, size, BLOB_MEM_HOST3D, BLOB_FLAG_USE_MAPPABLE, h, ZERO_BLOB, a.create);
      var w1 := World(made.sys, w.records[r := made.record], []);
      var s, b := ExportTail(w1, r, ctx, a);
      assert w1.records[r := b] == w.records[r := b];
    }
  }

  // ---- every step ------------------------------------------------------------------------------

  lemma AllocateKeepsInv(m: Memory, op: Op)
    requires MemoryInv(m) && op.AllocateOp? && Room(m, 1) && FreshId(m.sys)
    ensures MemoryInv(Step(m, op)) && Step(m, op).nextHandle == m.nextHandle + 1
  {
    hide Inv, Export, PageAlign;
    var at := FreeSlot(m.used, 0);
    var m' := Step(m, op);
    if op.exportable && op.sz != 0 && at.Some? {
      var r := at.value;
      ClearRecord(AsWorld(m), r);
      if op.a.submitted {
        var size, cleared := PageAlign(op.sz), World(m.sys, m.blobs[r := ZERO_BLOB], []);
        ExportKeepsInv(cleared, r, op.ctx, size, m.nextHandle, op.a);
        var b := Export(m.sys, op.ctx, size, m.nextHandle, op.a).1;
        assert cleared.records[r := b] == m.blobs[r := b];
      }
      OneSlotChanged(m, m', r);
    } else {
      assert forall q :: 0 <= q < SLOTS && SlotInUse(m, q) ==> SlotInUse(m', q);
    }
  }

  /** The slots after an allocation that took the free slot r, or left it free. */
  lemma OneSlotChanged(m: Memory, m': Memory, r: nat)
    requires MemoryInv(m) && r < SLOTS && !m.used[r] && m'.nextHandle == m.nextHandle + 1
    requires |m'.blobs| == SLOTS && m'.blobs == m.blobs[r := m'.blobs[r]]
    requires (m'.used == m.used && m'.handles == m.handles)
             || (m'.used == m.used[r := true] && m'.handles == m.handles[r := m.nextHandle]
                 && m'.blobs[r].created && m'.blobs[r].mapped && m'.blobs[r].mappedAddr != 0)
    ensures forall q :: 0 <= q < SLOTS ==> SlotInUse(m', q)
    ensures forall q, p :: 0 <= q < p < SLOTS && m'.used[q] && m'.used[p] ==> m'.handles[q] != m'.handles[p]
  {
    assert forall q :: 0 <= q < SLOTS && q != r && SlotInUse(m, q) ==> SlotInUse(m', q);
    assert forall q :: 0 <= q < SLOTS && SlotInUse(m, q) && m.used[q] ==> m.handles[q] != m.nextHandle;
  }

  lemma FreeKeepsInv(m: Memory, op: Op)
    requires MemoryInv(m) && op.FreeOp?
    ensures MemoryInv(Step(m, op)) && Step(m, op).nextHandle == m.nextHandle
  {
    var at := Find(m, op.h, 0);
    if at.Some? {
      assert SlotInUse(m, at.value);
      ReleaseKeepsInv(AsWorld(m), at.value, op.a.unmap, op.a.unref);
      forall q | 0 <= q < SLOTS
        ensures SlotInUse(Step(m, op), q)
      {
        assert SlotInUse(m, q);
      }
    }
  }

  lemma StepKeepsInv(m: Memory, op: Op)
    requires MemoryInv(m) && Room(m, 1) && (op.AllocateOp? ==> FreshId(m.sys))
    ensures MemoryInv(Step(m, op))
    ensures m.nextHandle <= Step(m, op).nextHandle <= m.nextHandle + 1
  {
    match op
    case AllocateOp(_, _, _, _) => AllocateKeepsInv(m, op);
    case FreeOp(_, _) => FreeKeepsInv(m, op);
    case OtherHandle =>
      assert forall q :: 0 <= q < SLOTS && SlotInUse(m, q) ==> SlotInUse(Step(m, op), q);
  }

  lemma {:induction false} RunKeepsInv(m: Memory, ops: seq<Op>)
    requires MemoryInv(m) && Room(m, |ops|) && MemoryFresh(m, ops)
    ensures MemoryInv(Run(m, ops))
    decreases ops
  {
    if ops != [] {
      StepKeepsInv(m, ops[0]);
      RunKeepsInv(Step(m, ops[0]), ops[1..]);
    }
  }

  // ---- what applications rely on ------------------------------------------------------------------

  /** In every run, two live exported memories with different handles never share
      an address: a pointer got by mapping one, at any offset inside it, is never
      inside the other. */
  lemma ExportedMemoriesNeverAlias(m: Memory, ops: seq<Op>, h: u64, k: u64, offset: u64, other: u64)
    requires StartsEmpty(m) && Room(m, |ops|) && MemoryFresh(m, ops) && h != k
    requires Find(Run(m, ops), h, 0).Some? && Find(Run(m, ops), k, 0).Some?
    requires offset < Run(m, ops).blobs[Find(Run(m, ops), h, 0).value].mappedSize
    requires other < Run(m, ops).blobs[Find(Run(m, ops), k, 0).value].mappedSize
    ensures MapMemory(Run(m, ops), h, offset).Mapped? && MapMemory(Run(m, ops), k, other).Mapped?
    ensures MapMemory(Run(m, ops), h, offset) != MapMemory(Run(m, ops), k, other)
  {
    StartsInOrder(m);
    RunKeepsInv(m, ops);
    NeverAlias(Run(m, ops), h, k, offset, other);
  }

  lemma NeverAlias(m: Memory, h: u64, k: u64, offset: u64, other: u64)
    requires MemoryInv(m) && h != k && Find(m, h, 0).Some? && Find(m, k, 0).Some?
    requires offset < m.blobs[Find(m, h, 0).value].mappedSize && other < m.blobs[Find(m, k, 0).value].mappedSize
    ensures MapMemory(m, h, offset).Mapped? && MapMemory(m, k, other).Mapped?
    ensures MapMemory(m, h, offset) != MapMemory(m, k, other)
  {
    var r, q := Find(m, h, 0).value, Find(m, k, 0).value;
    assert SlotInUse(m, r) && SlotInUse(m, q);
    RecordsNeverAlias(AsWorld(m), r, q);
    hide MemoryInv, Inv;
    MapsInside(m, h, offset);
    MapsInside(m, k, other);
  }

  lemma MapsInside(m: Memory, h: u64, offset: u64)
    requires |m.used| == |m.handles| == |m.blobs| && Find(m, h, 0).Some?
    requires var b := m.blobs[Find(m, h, 0).value];
      b.mappedAddr != 0 && offset < b.mappedSize && b.mappedAddr + b.mappedSize < U64
    ensures MapMemory(m, h, offset) == Mapped(m.blobs[Find(m, h, 0).value].mappedAddr + offset)
  {
    SmallMod(m.blobs[Find(m, h, 0).value].mappedAddr + offset, U64);
  }

  /** When an allocation is exported: host-visible with a free slot, allocated on
      the host, and blob, mapping and attachment all succeed. */
  predicate IsExported(m: Memory, ctx: ContextRecord, sz: u64, exportable: bool, a: Answers) {
    && exportable && sz > 0 && FreeSlot(m.used, 0).Some? && a.submitted
    && (var made := BlobCreate(m.sys, PageAlign(sz), BLOB_MEM_HOST3D, BLOB_FLAG_USE_MAPPABLE, m.nextHandle, ZERO_BLOB, a.create);
        var out := BlobMap(made.sys, made.record, a.mapBlob, a.mapInfo, a.undoMap);
        made.rc == 0 && out.rc == 0 && ContextResource(out.sys, ctx, out.record.resourceId, a.attach) == 0)
  }

  /** Of the three steps of an export it is enough that they return 0: a mapping
      that succeeds has an address. */
  lemma ExportsIff(s: System, ctx: ContextRecord, size: u64, h: u64, a: Answers)
    requires SysOk(s) && FreshId(s)
    ensures var made := BlobCreate(s, size, BLOB_MEM_HOST3D, BLOB_FLAG_USE_MAPPABLE, h, ZERO_BLOB, a.create);
      var out := BlobMap(made.sys, made.record, a.mapBlob, a.mapInfo, a.undoMap);
      Export(s, ctx, size, h, a).2 <==>
        made.rc == 0 && out.rc == 0 && ContextResource(out.sys, ctx, out.record.resourceId, a.attach) == 0
  {
    var made := BlobCreate(s, size, BLOB_MEM_HOST3D, BLOB_FLAG_USE_MAPPABLE, h, ZERO_BLOB, a.create);
    if made.rc == 0 {
      var i, slot := CreatedBlob(s, size, BLOB_MEM_HOST3D, BLOB_FLAG_USE_MAPPABLE, h, ZERO_BLOB, a.create);
      MapCall(made.sys, made.record, a.mapBlob, a.mapInfo, a.undoMap);
    }
    hide BlobCreate, BlobMap, Release, ContextResource;
  }

  /** What an allocation returns is new; it is found afterwards if and only if it
      was exported, and is then at least as large as asked for; nothing about
      other memories changes. */
  lemma AllocateResult(m: Memory, ctx: ContextRecord, sz: u64, exportable: bool, a: Answers)
    requires MemoryInv(m) && Room(m, 1) && FreshId(m.sys)
    ensures var (m', h) := Allocate(m, ctx, sz, exportable, a);
      && Find(m, h, 0) == None
      && |m'.used| == |m'.handles| == |m'.blobs|
      && (Find(m', h, 0).Some? <==> IsExported(m, ctx, sz, exportable, a))
      && (Find(m', h, 0).Some? ==> m'.blobs[Find(m', h, 0).value].mappedSize >= sz)
      && (forall k: u64 :: k != h ==> Find(m', k, 0) == Find(m, k, 0))
      && (forall k: u64 :: k != h && Find(m, k, 0).Some? ==>
            m'.blobs[Find(m, k, 0).value] == m.blobs[Find(m, k, 0).value])
  {
    hide Inv, Export, PageAlign, BlobCreate, BlobMap, ContextResource;
    var (m', h) := Allocate(m, ctx, sz, exportable, a);
    AllocateKeepsInv(m, AllocateOp(ctx, sz, exportable, a));
    forall r | 0 <= r < SLOTS && m.used[r]
      ensures m.handles[r] != h
    {
      assert SlotInUse(m, r);
    }
    forall k: u64 | k != h
      ensures Find(m', k, 0) == Find(m, k, 0)
      ensures Find(m, k, 0).Some? ==> m'.blobs[Find(m, k, 0).value] == m.blobs[Find(m, k, 0).value]
    {
      SameFind(m, m', k, 0);
    }
    if exportable && sz > 0 && FreeSlot(m.used, 0).Some? && a.submitted {
      var r := FreeSlot(m.used, 0).value;
      PageAlignExact(sz);
      SysOfInv(m);
      ExportsIff(m.sys, ctx, PageAlign(sz), h, a);
      ClearRecord(AsWorld(m), r);
      ExportKeepsInv(World(m.sys, m.blobs[r := ZERO_BLOB], []), r, ctx, PageAlign(sz), h, a);
      if Export(m.sys, ctx, PageAlign(sz), h, a).2 {
        assert m'.used[r] && m'.handles[r] == h;
      } else {
        assert m'.used == m.used;
      }
    }
  }

  lemma SysOfInv(m: Memory)
    requires MemoryInv(m)
    ensures SysOk(m.sys)
  {
  }

  lemma {:induction false} SameFind(m: Memory, m': Memory, k: u64, from: nat)
    requires from <= |m.used| == |m.handles| == |m'.used| == |m'.handles|
    requires forall r :: from <= r < |m.used| ==> (m.used[r] && m.handles[r] == k <==> m'.used[r] && m'.handles[r] == k)
    ensures Find(m', k, from) == Find(m, k, from)
    decreases |m.used| - from
  {
    if from < |m.used| && !(m.used[from] && m.handles[from] == k) { SameFind(m, m', k, from + 1); }
  }

  /** A freed handle is given out and not found. */
  ghost predicate Freed(m: Memory, h: u64) {
    |m.used| == |m.handles| && h < m.nextHandle && Find(m, h, 0) == None
  }

  lemma FreeFrees(m: Memory, h: u64, a: Answers)
    requires MemoryInv(m) && h < m.nextHandle
    ensures Freed(Free(m, h, a), h)
  {
    var at := Find(m, h, 0);
    if at.Some? {
      var m' := Free(m, h, a);
      assert forall r :: 0 <= r < SLOTS && m.used[r] && m.handles[r] == h ==> r == at.value;
      assert forall r :: 0 <= r < SLOTS && m'.used[r] ==> m.used[r] && r != at.value;
    }
  }

  /** A freed memory stays freed in every run: mapping it yields the staging
      buffer, and no allocation returns its handle. */
  lemma {:induction false} FreedStaysFreed(m: Memory, h: u64, ops: seq<Op>, offset: u64)
    requires MemoryInv(m) && Room(m, |ops|) && MemoryFresh(m, ops) && Freed(m, h)
    ensures Freed(Run(m, ops), h) && Run(m, ops).nextHandle != h
    ensures MapMemory(Run(m, ops), h, offset) == Staging(offset % STAGING_SIZE)
    decreases ops
  {
    if ops == [] {
      StagingOffset(offset);
    } else {
      StepKeepsInv(m, ops[0]);
      StillFreed(m, h, ops[0]);
      FreedStaysFreed(Step(m, ops[0]), h, ops[1..], offset);
    }
  }

  lemma StillFreed(m: Memory, h: u64, op: Op)
    requires MemoryInv(m) && Room(m, 1) && (op.AllocateOp? ==> FreshId(m.sys)) && Freed(m, h)
    ensures Freed(Step(m, op), h)
  {
    match op
    case AllocateOp(ctx, sz, exportable, a) => AllocateResult(m, ctx, sz, exportable, a);
    case FreeOp(k, a) =>
      assert forall r :: 0 <= r < SLOTS && Step(m, op).used[r] ==> m.used[r];
    case OtherHandle => SameFind(m, Step(m, op), h, 0);
  }

  lemma StagingOffset(offset: u64)
    ensures And(offset, STAGING_SIZE - 1) == offset % STAGING_SIZE
  {
    hide And, Pow2;
    Pow2Values();
    Pow2Add(12, 16);
    AndMask(offset, 28);
  }

  // ---- which pointers coincide ------------------------------------------------------------------

  /** A run's memories: the handles allocated and not yet freed, and those of
      them that were exported. */
  datatype Ledger = Ledger(m: Memory, given: set<u64>, exported: set<u64>)

  ghost function Account(l: Ledger, op: Op): Ledger
    requires |l.m.used| == |l.m.handles| == |l.m.blobs|
  {
    match op
    case AllocateOp(ctx, sz, exportable, a) =>
      var h := l.m.nextHandle;
      Ledger(Step(l.m, op), l.given + {h}, if IsExported(l.m, ctx, sz, exportable, a) then l.exported + {h} else l.exported)
    case FreeOp(h, _) => Ledger(Step(l.m, op), l.given - {h}, l.exported - {h})
    case OtherHandle => l.(m := Step(l.m, op))
  }

  ghost function AccountRun(l: Ledger, ops: seq<Op>): (l': Ledger)
    requires |l.m.used| == |l.m.handles| == |l.m.blobs|
    ensures l'.m == Run(l.m, ops)
    decreases ops
  {
    if ops == [] then l else AccountRun(Account(l, ops[0]), ops[1..])
  }

  /** The table holds exactly the exported memories not yet freed. */
  ghost predicate LedgerInv(l: Ledger) {
    && MemoryInv(l.m) && l.exported <= l.given
    && (forall h: u64 :: Find(l.m, h, 0).Some? <==> h in l.exported)
    && (forall h :: h in l.given ==> h < l.m.nextHandle)
  }

  lemma AccountKeepsInv(l: Ledger, op: Op)
    requires LedgerInv(l) && Room(l.m, 1) && (op.AllocateOp? ==> FreshId(l.m.sys))
    ensures LedgerInv(Account(l, op))
  {
    hide MemoryInv, IsExported;
    StepKeepsInv(l.m, op);
    LedgerSizes(l.m);
    match op
    case AllocateOp(ctx, sz, exportable, a) =>
      AllocateResult(l.m, ctx, sz, exportable, a);
      NextAfterAllocate(l.m, op);
    case FreeOp(h, a) => FreeKeepsOthers(l.m, h, a);
    case OtherHandle =>
      forall k: u64
        ensures Find(Step(l.m, op), k, 0) == Find(l.m, k, 0)
      {
        SameFind(l.m, Step(l.m, op), k, 0);
      }
  }

  lemma LedgerSizes(m: Memory)
    requires MemoryInv(m)
    ensures |m.used| == |m.handles| == |m.blobs| == SLOTS
  {
  }

  lemma NextAfterAllocate(m: Memory, op: Op)
    requires |m.used| == |m.handles| == |m.blobs| && op.AllocateOp? && Room(m, 1)
    ensures Step(m, op).nextHandle == m.nextHandle + 1
  {
  }

  lemma FreeKeepsOthers(m: Memory, h: u64, a: Answers)
    requires MemoryInv(m)
    ensures |Free(m, h, a).used| == |Free(m, h, a).handles| && Free(m, h, a).nextHandle == m.nextHandle
    ensures Find(Free(m, h, a), h, 0) == None
    ensures forall k: u64 :: k != h ==> Find(Free(m, h, a), k, 0) == Find(m, k, 0)
  {
    var at, m' := Find(m, h, 0), Free(m, h, a);
    if at.Some? {
      assert forall r :: 0 <= r < SLOTS && m.used[r] && m.handles[r] == h ==> r == at.value;
      assert forall r :: 0 <= r < SLOTS && m'.used[r] ==> m.used[r] && r != at.value;
    }
    forall k: u64 | k != h
      ensures Find(m', k, 0) == Find(m, k, 0)
    {
      SameFind(m, m', k, 0);
    }
  }

  lemma {:induction false} AccountRunKeepsInv(l: Ledger, ops: seq<Op>)
    requires LedgerInv(l) && Room(l.m, |ops|) && MemoryFresh(l.m, ops)
    ensures LedgerInv(AccountRun(l, ops))
    decreases ops
  {
    if ops != [] {
      AccountKeepsInv(l, ops[0]);
      NextGrows(l.m, ops[0]);
      AccountRunKeepsInv(Account(l, ops[0]), ops[1..]);
    }
  }

  lemma NextGrows(m: Memory, op: Op)
    requires |m.used| == |m.handles| == |m.blobs| && Room(m, 1)
    ensures Step(m, op).nextHandle <= m.nextHandle + 1
  {
  }

  /** In every run, for any two live memories and offsets inside what is mapped:
      their pointers are the same place if and only if neither memory was
      exported and the offsets agree modulo the size of the staging buffer. */
  lemma PointersCoincideIff(m: Memory, ops: seq<Op>, h: u64, k: u64, offset: u64, other: u64)
    requires StartsEmpty(m) && Room(m, |ops|) && MemoryFresh(m, ops)
    requires var l := AccountRun(Ledger(m, {}, {}), ops);
      h in l.given && k in l.given && h != k && InRange(l.m, h, offset) && InRange(l.m, k, other)
    ensures var l := AccountRun(Ledger(m, {}, {}), ops);
      MapMemory(l.m, h, offset) == MapMemory(l.m, k, other) <==>
        h !in l.exported && k !in l.exported && offset % STAGING_SIZE == other % STAGING_SIZE
  {
    StartsInOrder(m);
    AccountRunKeepsInv(Ledger(m, {}, {}), ops);
    var now := AccountRun(Ledger(m, {}, {}), ops).m;
    StagingOffset(offset);
    StagingOffset(other);
    hide MapMemory, And;
    if Find(now, h, 0).Some? && Find(now, k, 0).Some? {
      NeverAlias(now, h, k, offset, other);
    }
    WhereMapped(now, h, offset);
    WhereMapped(now, k, other);
  }

  /** An offset inside the mapping, when there is one. */
  ghost predicate InRange(m: Memory, h: u64, offset: u64)
    requires |m.used| == |m.handles| == |m.blobs|
  {
    Find(m, h, 0).Some? ==> offset < m.blobs[Find(m, h, 0).value].mappedSize
  }

  lemma WhereMapped(m: Memory, h: u64, offset: u64)
    requires MemoryInv(m)
    ensures MapMemory(m, h, offset).Mapped? <==> Find(m, h, 0).Some?
    ensures Find(m, h, 0).None? ==> MapMemory(m, h, offset) == Staging(offset % STAGING_SIZE)
  {
    StagingOffset(offset);
    if Find(m, h, 0).Some? { assert SlotInUse(m, Find(m, h, 0).value); }
  }

  /** Two allocations of device-local memory. */
  function TwoLocal(ctx: ContextRecord, sz: u64, a: Answers): seq<Op> {
    [AllocateOp(ctx, sz, false, a), AllocateOp(ctx, sz, false, a)]
  }

  /** Mapped, they are one buffer: what is written through one pointer is read
      through the other, at every offset. */
  lemma TwoLocalMemoriesAlias(m: Memory, ctx: ContextRecord, sz: u64, a: Answers, offset: u64)
    requires StartsEmpty(m) && m.nextHandle + 2 < U64
    ensures var l := AccountRun(Ledger(m, {}, {}), TwoLocal(ctx, sz, a));
      var h, k := m.nextHandle, m.nextHandle + 1;
      && MemoryFresh(m, TwoLocal(ctx, sz, a)) && l.given == {h, k} && l.exported == {}
      && MapMemory(l.m, h, offset) == MapMemory(l.m, k, offset) == Staging(offset % STAGING_SIZE)
  {
    var ops := TwoLocal(ctx, sz, a);
    var op := ops[0];
    var m1 := m.(nextHandle := m.nextHandle + 1);
    var m2 := m1.(nextHandle := m1.nextHandle + 1);
    var l := Ledger(m, {}, {});
    LocalStep(l, op);
    LocalStep(Ledger(m1, {m.nextHandle}, {}), op);
    BelowIsFresh(m.sys);
    NothingFound(m2, m.nextHandle);
    NothingFound(m2, m1.nextHandle);
    StagingOffset(offset);
    FreshTwice(m, op, m1, m2);
    hide Account, Step, Inv, And, MemoryFresh, FreshId, NewToHost, IdsBelow;
    assert ops[1..] == [op] && [op][1..] == [];
    assert AccountRun(l, ops) == AccountRun(Account(l, op), [op])
        == AccountRun(Account(Account(l, op), op), []);
  }

  lemma FreshTwice(m: Memory, op: Op, m1: Memory, m2: Memory)
    requires |m.used| == |m.handles| == |m.blobs|
    requires |m1.used| == |m1.handles| == |m1.blobs| && |m2.used| == |m2.handles| == |m2.blobs|
    requires FreshId(m.sys) && m1 == Step(m, op) && m2 == Step(m1, op) && m1.sys == m.sys
    ensures MemoryFresh(m, [op, op])
  {
    hide Step, FreshId;
    assert [op, op][1..] == [op] && [op][1..] == [];
    assert MemoryFresh(m2, []) && MemoryFresh(m1, [op]);
  }

  lemma LocalStep(l: Ledger, op: Op)
    requires |l.m.used| == |l.m.handles| == |l.m.blobs|
    requires op.AllocateOp? && !op.exportable && l.m.nextHandle + 1 < U64
    ensures Step(l.m, op) == l.m.(nextHandle := l.m.nextHandle + 1)
    ensures Account(l, op) == Ledger(Step(l.m, op), l.given + {l.m.nextHandle}, l.exported)
  {
  }

  lemma NothingFound(m: Memory, h: u64)
    requires |m.used| == |m.handles| && forall r :: 0 <= r < |m.used| ==> !m.used[r]
    ensures Find(m, h, 0) == None
  {
  }

  // ---- until the id counter wraps -----------------------------------------------------------------

  lemma ExportStaysBelow(s: System, ctx: ContextRecord, size: u64, h: u64, a: Answers)
    requires IdsBelow(s) && s.dev.nextRes + 1 < U32
    ensures var s' := Export(s, ctx, size, h, a).0; IdsBelow(s') && s'.dev.nextRes <= s.dev.nextRes + 1
  {
    hide IdsBelow, BlobCreate, BlobMap, Release, ContextResource;
    var made := BlobCreate(s, size, BLOB_MEM_HOST3D, BLOB_FLAG_USE_MAPPABLE, h, ZERO_BLOB, a.create);
    CreateStaysBelow(s, size, BLOB_MEM_HOST3D, BLOB_FLAG_USE_MAPPABLE, h, ZERO_BLOB, a.create);
    MapStaysBelow(made.sys, made.record, a.mapBlob, a.mapInfo, a.undoMap);
    var out := if made.rc != 0 then made else BlobMap(made.sys, made.record, a.mapBlob, a.mapInfo, a.undoMap);
    ReleaseStaysBelow(out.sys, out.record, a.unmap, a.unref);
  }

  lemma StepStaysBelow(m: Memory, op: Op)
    requires |m.used| == |m.handles| == |m.blobs| && IdsBelow(m.sys) && m.sys.dev.nextRes + 1 < U32
    ensures IdsBelow(Step(m, op).sys) && Step(m, op).sys.dev.nextRes <= m.sys.dev.nextRes + 1
  {
    hide IdsBelow, Export, Release, PageAlign;
    match op
    case AllocateOp(ctx, sz, exportable, a) => ExportStaysBelow(m.sys, ctx, PageAlign(sz), m.nextHandle, a);
    case FreeOp(h, a) =>
      if Find(m, h, 0).Some? { ReleaseStaysBelow(m.sys, m.blobs[Find(m, h, 0).value], a.unmap, a.unref); }
    case OtherHandle =>
  }

  /** Until the 32-bit counter wraps every id is fresh. */
  lemma {:induction false} ShortMemoryRunsAreFresh(m: Memory, ops: seq<Op>)
    requires |m.used| == |m.handles| == |m.blobs| && IdsBelow(m.sys) && m.sys.dev.nextRes + |ops| < U32
    ensures MemoryFresh(m, ops)
    decreases ops
  {
    hide IdsBelow;
    if ops != [] {
      BelowIsFresh(m.sys);
      StepStaysBelow(m, ops[0]);
      ShortMemoryRunsAreFresh(Step(m, ops[0]), ops[1..]);
    }
  }
}
