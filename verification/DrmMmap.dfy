/** The fd facade over the DRM translator. */
module DrmMmap {

  // MAP hands out opaque page-aligned offsets from a registry, and mmap resolves
  // them back to addresses.

  import opened Bits
  import opened Errno
  import opened Rounding
  import opened Wrappers
  import opened GpuSystem
  import opened BlobLifecycle
  import opened DrmHandles

  const MMAP_BASE: nat := 0x1_0000_0000
  const MAX_MMAPS: nat := 256

  datatype Entry = Entry(offset: u64, size: u64, handle: u32, ptr: u64)
  const ZERO_ENTRY := Entry(0, 0, 0, 0)

  datatype File = File(drm: Drm, mmaps: seq<Entry>, nextOffset: u64)

  /** mmap_lookup_handle */
  function EntryOf(es: seq<Entry>, h: u32, from: nat): (r: Option<nat>)
    requires from <= |es|
    ensures r.Some? ==> from <= r.value < |es| && es[r.value].handle == h && es[r.value].ptr != 0
    ensures r.None? ==> forall k :: from <= k < |es| ==> !(es[k].handle == h && es[k].ptr != 0)
    decreases |es| - from
  {
    if from == |es| then None
    else if es[from].handle == h && es[from].ptr != 0 then Some(from)
    else EntryOf(es, h, from + 1)
  }

  /** mmap_alloc */
  function FreeEntry(es: seq<Entry>, from: nat): (r: Option<nat>)
    requires from <= |es|
    ensures r.Some? ==> from <= r.value < |es| && es[r.value].handle == 0
    ensures r.None? ==> forall k :: from <= k < |es| ==> es[k].handle != 0
    decreases |es| - from
  {
    if from == |es| then None
    else if es[from].handle == 0 then Some(from)
    else FreeEntry(es, from + 1)
  }

  /** mmap_remove_handle */
  function RemoveHandle(es: seq<Entry>, h: u32): seq<Entry> {
    seq(|es|, i requires 0 <= i < |es| => if es[i].handle == h then ZERO_ENTRY else es[i])
  }

  /** The end of the MAP ioctl: a registry entry for the mapped object. */
  function AddEntry(f: File, h: u32, infoSize: u32, ptr: u64): (File, u64, int) {
    match FreeEntry(f.mmaps, 0)
    case None => (f, 0, ENOMEM)
    case Some(e) =>
      var size := PageAlign(infoSize);
      var next := PageAlign((f.nextOffset + (if size != 0 then size else PAGE)) % U64);
      (f.(mmaps := f.mmaps[e := Entry(f.nextOffset, size, h, ptr)], nextOffset := next), f.nextOffset, 0)
  }

  /** The MAP ioctl: the offset and the return code. */
  function FileMap(f: File, h: u32, answer: int, mapInfo: u32, undoAnswer: int): (File, u64, int)
    requires |f.drm.handles| == MAX_HANDLES && f.drm.next <= MAX_HANDLES
  {
    match EntryOf(f.mmaps, h, 0)
    case Some(e) => (f, f.mmaps[e].offset, 0)
    case None =>
      var at := Lookup(f.drm, h);
      if at.None? || !f.drm.handles[at.value].isBlob then (f, 0, ENOENT)
      else
        var infoSize := f.drm.handles[at.value].size % U32;
        var (drm, ptr, rc) := MapBo(f.drm, h, answer, mapInfo, undoAnswer);
        var f1 := f.(drm := drm);
        if rc != 0 then (f1, 0, rc) else AddEntry(f1, h, infoSize, ptr)
  }

  /** The GEM_CLOSE ioctl. */
  function FileClose(f: File, h: u32, unmapAnswer: int, unrefAnswer: int): (File, int)
    requires |f.drm.handles| == MAX_HANDLES && f.drm.next <= MAX_HANDLES
  {
    var (drm, rc) := CloseBo(f.drm, h, unmapAnswer, unrefAnswer);
    if rc != 0 then (f.(drm := drm), rc)
    else (f.(drm := drm, mmaps := RemoveHandle(f.mmaps, h)), 0)
  }

  /** What mmap does with an offset: the entry the scan stops at. */
  predicate InEntry(e: Entry, offset: u64) {
    e.handle != 0 && e.ptr != 0 && e.offset <= offset && offset < (e.offset + e.size) % U64
  }

  function EntryAt(es: seq<Entry>, offset: u64, from: nat): (r: Option<nat>)
    requires from <= |es|
    ensures r.Some? ==> from <= r.value < |es| && InEntry(es[r.value], offset)
    ensures r.None? ==> forall k :: from <= k < |es| ==> !InEntry(es[k], offset)
    decreases |es| - from
  {
    if from == |es| then None
    else if InEntry(es[from], offset) then Some(from)
    else EntryAt(es, offset, from + 1)
  }

  /** uk_drm_virtgpu_file_mmap: an address, or an error. */
  function FileMmap(f: File, offset: u64, len: u64): (u64, int) {
    if len == 0 then (0, EINVAL)
    else if And(offset, PAGE - 1) != 0 then (0, EINVAL)
    else
      match EntryAt(f.mmaps, offset, 0)
      case None => (0, ENOENT)
      case Some(k) =>
        var e := f.mmaps[k];
        var delta := offset - e.offset;
        if len > (e.size - delta) % U64 then (0, EINVAL)
        else ((e.ptr + delta) % U64, 0)
  }

  /** MAP and GEM_CLOSE are recognised by their whole request codes. The translator
      below tells a create and a map by the low eight bits alone, so that a map can
      also get through with another code, and makes no entry then; a close cannot. */
  datatype FileOp =
    | Ioctl(op: DrmOp)       // any other request, passed through
    | MapIoctl(h: u32, answer: int, mapInfo: u32, undoAnswer: int)
    | CloseIoctl(h: u32, unmapAnswer: int, unrefAnswer: int)

  /** The state of a run: the file, and the handles MAP ever gave an offset. */
  datatype Session = Session(file: File, mapped: set<u32>)

  function FileStep(s: Session, op: FileOp): Session
    requires |s.file.drm.handles| == MAX_HANDLES && s.file.drm.next <= MAX_HANDLES
  {
    match op
    case Ioctl(drmOp) => if drmOp.CloseOp? then s else s.(file := s.file.(drm := DrmStep(s.file.drm, drmOp)))
    case MapIoctl(h, answer, mapInfo, undoAnswer) =>
      var (file, _, rc) := FileMap(s.file, h, answer, mapInfo, undoAnswer);
      Session(file, if rc == 0 then s.mapped + {h} else s.mapped)
    case CloseIoctl(h, unmapAnswer, unrefAnswer) => s.(file := FileClose(s.file, h, unmapAnswer, unrefAnswer).0)
  }

  // ---- arithmetic ---------------------------------------------------------------

  /** The room an entry takes up in the space of offsets. */
  function Span(e: Entry): nat { if e.size != 0 then e.size else PAGE }

  // ---- the invariant -------------------------------------------------------------

  /** A used entry names a live, mapped object, holds its address, and covers
      its size cut to 32 bits and rounded to pages. */
  ghost predicate EntryOk(f: File, e: Entry) {
    if e.handle == 0 then e == ZERO_ENTRY
    else
      && 0 < e.handle <= f.drm.next <= |f.drm.handles|
      && (var bo := f.drm.handles[e.handle - 1];
          bo.handle == e.handle && bo.mapped == e.ptr != 0 && e.size == RoundedUp(bo.size % U32, PAGE))
      && e.offset % PAGE == 0 && e.size % PAGE == 0 && e.size <= U32
      && MMAP_BASE <= e.offset && e.offset + Span(e) <= f.nextOffset
  }

  ghost predicate Apart(a: Entry, b: Entry) {
    a.handle != b.handle && (a.offset + Span(a) <= b.offset || b.offset + Span(b) <= a.offset)
  }

  ghost predicate EntriesOk(f: File) {
    && |f.mmaps| == MAX_MMAPS
    && (forall i :: 0 <= i < MAX_MMAPS ==> EntryOk(f, f.mmaps[i]))
    && (forall i, j :: 0 <= i < j < MAX_MMAPS && f.mmaps[i].handle != 0 && f.mmaps[j].handle != 0
          ==> Apart(f.mmaps[i], f.mmaps[j]))
  }

  /** Offsets are handed out at most once a handle, so at most 256 times: the
      64-bit counter cannot run out. */
  ghost predicate CounterOk(s: Session) {
    && s.file.nextOffset % PAGE == 0
    && MMAP_BASE <= s.file.nextOffset <= MMAP_BASE + |s.mapped| * U32
    && (forall h :: h in s.mapped ==> 0 < h <= s.file.drm.next)
    && (forall h :: h in s.mapped ==> Closed(s.file.drm, h) || EntryOf(s.file.mmaps, h, 0).Some?)
  }

  ghost predicate FileInv(s: Session) {
    DrmInv(s.file.drm) && EntriesOk(s.file) && CounterOk(s)
  }

  ghost predicate FileInitial(s: Session) {
    && DrmInitial(s.file.drm) && s.file.mmaps == seq(MAX_MMAPS, _ => ZERO_ENTRY)
    && s.file.nextOffset == MMAP_BASE && s.mapped == {}
  }

  lemma FileInitialInv(s: Session)
    requires FileInitial(s)
    ensures FileInv(s)
  {
    DrmInitialInv(s.file.drm);
  }

  lemma {:induction false} SmallSet(s: set<u32>, n: nat)
    requires forall h :: h in s ==> 0 < h <= n
    ensures |s| <= n
    decreases n
  {
    if n == 0 {
      assert s == {};
    } else {
      SmallSet(s - {n}, n - 1);
      if n in s { assert s == (s - {n}) + {n}; } else { assert s - {n} == s; }
    }
  }

  /** The handles of a full registry are as many as its entries. */
  lemma {:induction false} DistinctHandles(es: seq<Entry>) returns (hs: set<u32>)
    requires forall i :: 0 <= i < |es| ==> es[i].handle != 0
    requires forall i, j :: 0 <= i < j < |es| ==> es[i].handle != es[j].handle
    ensures |hs| == |es|
    ensures forall h :: h in hs <==> exists i :: 0 <= i < |es| && es[i].handle == h
    decreases |es|
  {
    if es == [] {
      hs := {};
    } else {
      var last := |es| - 1;
      hs := DistinctHandles(es[..last]);
      assert forall i :: 0 <= i < last ==> es[..last][i] == es[i];
      assert es[last].handle !in hs;
      hs := hs + {es[last].handle};
    }
  }

  /** There is always room for an object that has no entry yet: MAP never fails
      for want of one. */
  lemma RoomForEntry(f: File, h: u32)
    requires EntriesOk(f) && f.drm.next <= MAX_HANDLES && 0 < h <= f.drm.next
    requires EntryOf(f.mmaps, h, 0).None?
    ensures FreeEntry(f.mmaps, 0).Some?
  {
    if FreeEntry(f.mmaps, 0).None? {
      forall i | 0 <= i < MAX_MMAPS
        ensures 0 < f.mmaps[i].handle <= MAX_HANDLES && f.mmaps[i].handle != h
      {
        assert EntryOk(f, f.mmaps[i]);
      }
      forall i, j | 0 <= i < j < MAX_MMAPS
        ensures f.mmaps[i].handle != f.mmaps[j].handle
      {
        assert Apart(f.mmaps[i], f.mmaps[j]);
      }
      var hs := DistinctHandles(f.mmaps);
      AllTaken(hs, h, MAX_HANDLES);
    }
  }

  /** n numbers between 1 and n are all of them. */
  lemma AllTaken(hs: set<u32>, h: u32, n: nat)
    requires |hs| == n && 0 < h <= n && forall k :: k in hs ==> 0 < k <= n
    ensures h in hs
  {
    if h !in hs { SmallSetWithout(hs, h, n); }
  }

  lemma {:induction false} SmallSetWithout(s: set<u32>, h: u32, n: nat)
    requires 0 < h <= n && forall k :: k in s ==> 0 < k <= n && k != h
    ensures |s| <= n - 1
    decreases n
  {
    if h == n {
      SmallSet(s, n - 1);
    } else {
      SmallSetWithout(s - {n}, h, n - 1);
      if n in s { assert s == (s - {n}) + {n}; } else { assert s - {n} == s; }
    }
  }

  // ---- preservation --------------------------------------------------------------

  /** A change below that leaves every named object as it is keeps the registry. */
  lemma EntriesFollow(f: File, f': File)
    requires EntriesOk(f) && f'.mmaps == f.mmaps && f'.nextOffset == f.nextOffset
    requires |f'.drm.handles| == |f.drm.handles| && f.drm.next <= f'.drm.next <= |f.drm.handles|
    requires forall e :: 0 <= e < MAX_MMAPS && f.mmaps[e].handle != 0 && f.mmaps[e].handle <= |f.drm.handles| ==>
      SameObject(f.drm.handles[f.mmaps[e].handle - 1], f'.drm.handles[f.mmaps[e].handle - 1])
    ensures EntriesOk(f')
  {
    forall i | 0 <= i < MAX_MMAPS
      ensures EntryOk(f', f'.mmaps[i])
    {
      assert EntryOk(f, f.mmaps[i]);
    }
  }

  predicate SameObject(a: Bo, b: Bo) { a.handle == b.handle && a.mapped == b.mapped && a.size == b.size }

  lemma CreateKeepsFile(s: Session, op: DrmOp)
    requires FileInv(s) && op.CreateOp? && FreshId(s.file.drm.sys)
    ensures FileInv(FileStep(s, Ioctl(op)))
  {
    var d, d' := s.file.drm, DrmStep(s.file.drm, op);
    CreateKeepsDrm(d, op);
    assert forall i :: 0 <= i < MAX_HANDLES && i != d.next ==> d'.handles[i] == d.handles[i];
    forall e | 0 <= e < MAX_MMAPS && s.file.mmaps[e].handle != 0
      ensures SameObject(d.handles[s.file.mmaps[e].handle - 1], d'.handles[s.file.mmaps[e].handle - 1])
    {
      assert EntryOk(s.file, s.file.mmaps[e]);
    }
    EntriesFollow(s.file, FileStep(s, Ioctl(op)).file);
  }

  /** MAP of an object below changes only that object, which had no mapping. */
  lemma MapBelow(d: Drm, h: u32, answer: int, mapInfo: u32, undoAnswer: int)
    requires DrmInv(d)
    ensures var (d', ptr, rc) := MapBo(d, h, answer, mapInfo, undoAnswer);
      && DrmInv(d') && d'.next == d.next && |d'.handles| == |d.handles| && d'.sys.dev.cfg == d.sys.dev.cfg
      && (forall i :: 0 <= i < MAX_HANDLES && i != h - 1 ==> d'.handles[i] == d.handles[i])
      && (forall i :: 0 <= i < MAX_HANDLES && d.handles[i].mapped != 0 ==> d'.handles[i] == d.handles[i])
      && (rc == 0 ==> Lookup(d, h).Some? && d'.handles[h - 1].mapped == ptr != 0
                      && d'.handles[h - 1].handle == h && d'.handles[h - 1].size == d.handles[h - 1].size)
      && (rc != 0 ==> forall i :: 0 <= i < MAX_HANDLES ==> SameObject(d.handles[i], d'.handles[i]))
  {
    MapKeepsDrm(d, MapOp(h, answer, mapInfo, undoAnswer));
    var at := Lookup(d, h);
    if at.Some? {
      assert BoOk(d, at.value);
      if d.handles[at.value].mapped == 0 { MapAddress(d, at.value, answer, mapInfo, undoAnswer); }
    }
  }

  lemma MapAddress(d: Drm, i: nat, answer: int, mapInfo: u32, undoAnswer: int)
    requires DrmInv(d) && i < MAX_HANDLES && d.handles[i].handle != 0
    ensures var out := BlobMap(d.sys, d.handles[i].blob, answer, mapInfo, undoAnswer);
      && out.sys.dev.cfg == d.sys.dev.cfg
      && (out.rc == 0 ==> out.record.mappedAddr != 0)
  {
    assert BoOk(d, i) && RecordOk(d.sys.dev, AsWorld(d).records[i]);
    MapCall(d.sys, d.handles[i].blob, answer, mapInfo, undoAnswer);
  }

  /** A map that gets past the registry: it can only give an object without an
      entry an address. */
  lemma PassedMapKeepsFile(s: Session, op: DrmOp)
    requires FileInv(s) && op.MapOp?
    ensures FileInv(FileStep(s, Ioctl(op)))
  {
    var s' := FileStep(s, Ioctl(op));
    MapBelow(s.file.drm, op.h, op.answer, op.mapInfo, op.undoAnswer);
    forall e | 0 <= e < MAX_MMAPS && s.file.mmaps[e].handle != 0
      ensures SameObject(s.file.drm.handles[s.file.mmaps[e].handle - 1], s'.file.drm.handles[s.file.mmaps[e].handle - 1])
    {
      assert EntryOk(s.file, s.file.mmaps[e]);
    }
    hide DrmInv;
    EntriesFollow(s.file, s'.file);
    forall h | h in s.mapped && Closed(s.file.drm, h)
      ensures Closed(s'.file.drm, h)
    {
      assert Lookup(s.file.drm, h).None?;
    }
  }

  /** The counter has handed out at most 256 times 2^32 bytes: room for one more. */
  lemma CounterRoom(s: Session)
    requires CounterOk(s) && s.file.drm.next <= MAX_HANDLES
    ensures |s.mapped| <= MAX_HANDLES
    ensures s.file.nextOffset <= MMAP_BASE + MAX_HANDLES * U32
  {
    SmallSet(s.mapped, MAX_HANDLES);
  }

  /** A new entry, behind all others, for an object that has none. */
  lemma NewEntry(f: File, f': File, e: nat, h: u32)
    requires EntriesOk(f) && e < MAX_MMAPS && f.mmaps[e].handle == 0
    requires f'.drm.next == f.drm.next && |f'.drm.handles| == |f.drm.handles| == MAX_HANDLES >= f.drm.next
    requires 0 < h <= f.drm.next && EntryOf(f.mmaps, h, 0).None?
    requires forall i :: 0 <= i < MAX_HANDLES && i != h - 1 ==> SameObject(f.drm.handles[i], f'.drm.handles[i])
    requires MMAP_BASE <= f.nextOffset && f.nextOffset % PAGE == 0
    requires |f'.mmaps| == |f.mmaps| && f'.mmaps == f.mmaps[e := f'.mmaps[e]] && IsNewEntry(f, f', f'.mmaps[e], h)
    ensures EntriesOk(f')
  {
    NewEntryOk(f, f', f'.mmaps[e], h);
    forall i | 0 <= i < MAX_MMAPS
      ensures EntryOk(f', f'.mmaps[i])
    {
      assert EntryOk(f, f.mmaps[i]);
      if i != e { OldEntryOk(f, f', f.mmaps[i], h); }
    }
    NewEntryApart(f, e, f'.mmaps[e]);
    hide EntryOk, RoundedUp, Apart;
  }

  lemma NewEntryOk(f: File, f': File, entry: Entry, h: u32)
    requires 0 < h <= f'.drm.next <= |f'.drm.handles| && IsNewEntry(f, f', entry, h)
    requires MMAP_BASE <= f.nextOffset && f.nextOffset % PAGE == 0
    ensures EntryOk(f', entry)
  {
    hide RoundedUp;
    RoundUp(f'.drm.handles[h - 1].size % U32, PAGE);
    SizeInRange(f'.drm.handles[h - 1].size % U32);
  }

  /** Entries of other objects do not notice. */
  lemma OldEntryOk(f: File, f': File, entry: Entry, h: u32)
    requires EntryOk(f, entry) && entry.handle != h && f.nextOffset <= f'.nextOffset
    requires f'.drm.next == f.drm.next && |f'.drm.handles| == |f.drm.handles| == MAX_HANDLES
    requires forall i :: 0 <= i < MAX_HANDLES && i != h - 1 ==> SameObject(f.drm.handles[i], f'.drm.handles[i])
    ensures EntryOk(f', entry)
  {
    hide RoundedUp;
  }

  /** The entry MAP writes for object h, and the counter moved past it. */
  ghost predicate IsNewEntry(f: File, f': File, entry: Entry, h: u32)
    requires 0 < h <= |f'.drm.handles|
  {
    var bo := f'.drm.handles[h - 1];
    && bo.handle == h && bo.mapped != 0
    && entry == Entry(f.nextOffset, entry.size, h, bo.mapped) && entry.size == RoundedUp(bo.size % U32, PAGE)
    && f'.nextOffset == f.nextOffset + Span(entry)
  }

  /** The size of a new entry and the next offset behind it, without the masks. */
  lemma NewOffsets(offset: u64, infoSize: u32)
    requires offset <= MMAP_BASE + MAX_HANDLES * U32 && offset % PAGE == 0
    ensures var size := PageAlign(infoSize);
      && size == RoundedUp(infoSize, PAGE) && size <= U32
      && PageAlign((offset + (if size != 0 then size else PAGE)) % U64) == offset + (if size != 0 then size else PAGE)
  {
    hide PageAlign, RoundedUp;
    PageAlignExact(infoSize);
    SizeInRange(infoSize);
    RoundUp(infoSize, PAGE);
    PageMultiple(offset, if PageAlign(infoSize) != 0 then PageAlign(infoSize) else PAGE);
    PageStays(offset + (if PageAlign(infoSize) != 0 then PageAlign(infoSize) else PAGE));
  }

  lemma SizeInRange(infoSize: u32)
    ensures RoundedUp(infoSize, PAGE) <= U32
  {
    RoundUp(infoSize, PAGE);
    NoSmallerMultiple(RoundedUp(infoSize, PAGE), U32, infoSize);
  }

  lemma PageStays(x: nat)
    requires x % PAGE == 0 && x + PAGE < U64
    ensures PageAlign(x % U64) == x
  {
    SmallMod(x, U64);
    PageAlignExact(x);
    NoMultipleBetween(PageAlign(x), x);
  }

  lemma NoMultipleBetween(a: nat, b: nat)
    requires a % PAGE == 0 && b % PAGE == 0 && b <= a < b + PAGE
    ensures a == b
  {}

  lemma NewEntryApart(f: File, e: nat, entry: Entry)
    requires EntriesOk(f) && e < MAX_MMAPS && f.mmaps[e].handle == 0
    requires entry.offset == f.nextOffset && entry.handle != 0 && entry.ptr != 0
    requires EntryOf(f.mmaps, entry.handle, 0).None?
    ensures var es := f.mmaps[e := entry];
      forall i, j :: 0 <= i < j < MAX_MMAPS && es[i].handle != 0 && es[j].handle != 0 ==> Apart(es[i], es[j])
  {
    var es := f.mmaps[e := entry];
    forall i, j | 0 <= i < j < MAX_MMAPS && es[i].handle != 0 && es[j].handle != 0
      ensures Apart(es[i], es[j])
    {
      assert EntryOk(f, f.mmaps[i]) && EntryOk(f, f.mmaps[j]);
      if i != e && j != e { assert Apart(f.mmaps[i], f.mmaps[j]); }
    }
  }

  lemma PageMultiple(x: nat, y: nat)
    requires x % PAGE == 0 && y % PAGE == 0
    ensures (x + y) % PAGE == 0
  {}

  /** Which entry a handle has after one is added. */
  lemma EntryOfAfterAdd(es: seq<Entry>, e: nat, entry: Entry, h: u32)
    requires e < |es| && es[e].handle == 0 && entry.ptr != 0 && entry.handle != 0 && h != 0
    ensures EntryOf(es[e := entry], h, 0).Some? <==> EntryOf(es, h, 0).Some? || h == entry.handle
  {
    var es' := es[e := entry];
    var was := EntryOf(es, h, 0);
    if was.Some? { assert es'[was.value] == es[was.value]; }
    assert es'[e] == entry;
  }

  lemma MapKeepsFile(s: Session, op: FileOp)
    requires FileInv(s) && op.MapIoctl?
    ensures FileInv(FileStep(s, op))
  {
    var f, h := s.file, op.h;
    if EntryOf(f.mmaps, h, 0).Some? {
      var e := f.mmaps[EntryOf(f.mmaps, h, 0).value];
      assert EntryOk(f, e);
      CounterGrows(s, FileStep(s, op), h);
    } else {
      MapBelow(f.drm, h, op.answer, op.mapInfo, op.undoAnswer);
      var (drm, ptr, rc) := MapBo(f.drm, h, op.answer, op.mapInfo, op.undoAnswer);
      if rc != 0 {
        EntriesFollow(f, FileStep(s, op).file);
        ClosedFollows(s, FileStep(s, op));
      } else {
        MapAddsEntry(s, op);
      }
    }
  }

  lemma CounterGrows(s: Session, s': Session, h: u32)
    requires CounterOk(s) && s'.file == s.file && s'.mapped == s.mapped + {h}
    requires 0 < h <= s.file.drm.next && EntryOf(s.file.mmaps, h, 0).Some?
    ensures CounterOk(s')
  {
    if h in s.mapped { assert s'.mapped == s.mapped; }
  }

  /** Empty slots stay empty when every object stays the same. */
  lemma ClosedFollows(s: Session, s': Session)
    requires FileInv(s) && DrmInv(s'.file.drm) && s'.mapped == s.mapped && s'.file.drm.next == s.file.drm.next
    requires s'.file.mmaps == s.file.mmaps && s'.file.nextOffset == s.file.nextOffset
    requires forall i :: 0 <= i < MAX_HANDLES ==> SameObject(s.file.drm.handles[i], s'.file.drm.handles[i])
    ensures CounterOk(s')
  {
    forall h | h in s.mapped
      ensures Closed(s'.file.drm, h) || EntryOf(s'.file.mmaps, h, 0).Some?
    {
      if Closed(s.file.drm, h) { assert BoOk(s'.file.drm, h - 1); }
    }
  }

  /** The file with a new entry, and the counter moved past it. */
  function WithEntry(f: File, drm: Drm, e: nat, entry: Entry): File
    requires e < |f.mmaps| && f.nextOffset + Span(entry) < U64
  {
    File(drm, f.mmaps[e := entry], f.nextOffset + Span(entry))
  }

  /** A MAP call that makes a new entry, written out. */
  lemma MapShape(s: Session, op: FileOp, e: nat)
    requires op.MapIoctl? && |s.file.drm.handles| == MAX_HANDLES && s.file.drm.next <= MAX_HANDLES
    requires EntryOf(s.file.mmaps, op.h, 0).None? && FreeEntry(s.file.mmaps, 0) == Some(e)
    requires Lookup(s.file.drm, op.h).Some? && s.file.drm.handles[op.h - 1].isBlob
    requires MapBo(s.file.drm, op.h, op.answer, op.mapInfo, op.undoAnswer).2 == 0
    requires s.file.nextOffset <= MMAP_BASE + MAX_HANDLES * U32 && s.file.nextOffset % PAGE == 0
    ensures var f := s.file;
      var (drm, ptr, _) := MapBo(f.drm, op.h, op.answer, op.mapInfo, op.undoAnswer);
      var size := RoundedUp(f.drm.handles[op.h - 1].size % U32, PAGE);
      && size <= U32 && f.nextOffset + U32 < U64
      && FileStep(s, op) == Session(WithEntry(f, drm, e, Entry(f.nextOffset, size, op.h, ptr)), s.mapped + {op.h})
      && FileMap(f, op.h, op.answer, op.mapInfo, op.undoAnswer).2 == 0
  {
    var (drm, ptr, _) := MapBo(s.file.drm, op.h, op.answer, op.mapInfo, op.undoAnswer);
    AddEntryShape(s.file.(drm := drm), op.h, s.file.drm.handles[op.h - 1].size % U32, ptr, e);
    assert FileMap(s.file, op.h, op.answer, op.mapInfo, op.undoAnswer)
        == AddEntry(s.file.(drm := drm), op.h, s.file.drm.handles[op.h - 1].size % U32, ptr);
  }

  lemma AddEntryShape(f: File, h: u32, infoSize: u32, ptr: u64, e: nat)
    requires FreeEntry(f.mmaps, 0) == Some(e)
    requires f.nextOffset <= MMAP_BASE + MAX_HANDLES * U32 && f.nextOffset % PAGE == 0
    ensures var size := RoundedUp(infoSize, PAGE);
      && size <= U32
      && AddEntry(f, h, infoSize, ptr) == (WithEntry(f, f.drm, e, Entry(f.nextOffset, size, h, ptr)), f.nextOffset, 0)
  {
    NewOffsets(f.nextOffset, infoSize);
  }

  lemma MapAddsEntry(s: Session, op: FileOp)
    requires FileInv(s) && op.MapIoctl? && EntryOf(s.file.mmaps, op.h, 0).None?
    requires MapBo(s.file.drm, op.h, op.answer, op.mapInfo, op.undoAnswer).2 == 0
    ensures FileInv(FileStep(s, op)) && FileMap(s.file, op.h, op.answer, op.mapInfo, op.undoAnswer).2 == 0
  {
    var f, h := s.file, op.h;
    MapBelow(f.drm, h, op.answer, op.mapInfo, op.undoAnswer);
    assert BoOk(f.drm, h - 1);
    RoomForEntry(f, h);
    CounterRoom(s);
    var e := FreeEntry(f.mmaps, 0).value;
    MapShape(s, op, e);
    var (drm, ptr, _) := MapBo(f.drm, h, op.answer, op.mapInfo, op.undoAnswer);
    EntryAdded(s, drm, e, h, ptr);
  }

  lemma EntryAdded(s: Session, drm: Drm, e: nat, h: u32, ptr: u64)
    requires FileInv(s) && e < MAX_MMAPS && s.file.mmaps[e].handle == 0
    requires DrmInv(drm) && drm.next == s.file.drm.next && 0 < h <= drm.next && EntryOf(s.file.mmaps, h, 0).None?
    requires s.file.drm.handles[h - 1] != ZERO_BO
    requires forall i :: 0 <= i < MAX_HANDLES && i != h - 1 ==> drm.handles[i] == s.file.drm.handles[i]
    requires drm.handles[h - 1].handle == h && drm.handles[h - 1].mapped == ptr != 0
    requires drm.handles[h - 1].size == s.file.drm.handles[h - 1].size
    requires var size := RoundedUp(s.file.drm.handles[h - 1].size % U32, PAGE);
      size <= U32 && s.file.nextOffset + U32 < U64
    ensures var entry := Entry(s.file.nextOffset, RoundedUp(s.file.drm.handles[h - 1].size % U32, PAGE), h, ptr);
      FileInv(Session(WithEntry(s.file, drm, e, entry), s.mapped + {h}))
  {
    RoundUp(s.file.drm.handles[h - 1].size % U32, PAGE);
    var entry := Entry(s.file.nextOffset, RoundedUp(s.file.drm.handles[h - 1].size % U32, PAGE), h, ptr);
    hide RoundedUp, BoOk;
    AddedEntry(s.file, drm, e, entry);
    AddedCounter(s, drm, e, entry);
  }

  lemma AddedEntry(f: File, drm: Drm, e: nat, entry: Entry)
    requires EntriesOk(f) && e < MAX_MMAPS && f.mmaps[e].handle == 0 && entry.size <= U32 && f.nextOffset + U32 < U64
    requires |drm.handles| == |f.drm.handles| == MAX_HANDLES && drm.next == f.drm.next <= MAX_HANDLES
    requires 0 < entry.handle <= drm.next && EntryOf(f.mmaps, entry.handle, 0).None?
    requires forall i :: 0 <= i < MAX_HANDLES && i != entry.handle - 1 ==> drm.handles[i] == f.drm.handles[i]
    requires MMAP_BASE <= f.nextOffset && f.nextOffset % PAGE == 0
    requires var bo := drm.handles[entry.handle - 1];
      bo.handle == entry.handle && bo.mapped == entry.ptr != 0
      && entry.offset == f.nextOffset && entry.size == RoundedUp(bo.size % U32, PAGE)
    ensures EntriesOk(WithEntry(f, drm, e, entry))
  {
    NewEntry(f, WithEntry(f, drm, e, entry), e, entry.handle);
  }

  lemma AddedCounter(s: Session, drm: Drm, e: nat, entry: Entry)
    requires CounterOk(s) && e < |s.file.mmaps| && s.file.mmaps[e].handle == 0 && entry.size <= U32 && s.file.nextOffset + U32 < U64
    requires |drm.handles| == |s.file.drm.handles| == MAX_HANDLES && drm.next == s.file.drm.next <= MAX_HANDLES
    requires 0 < entry.handle <= drm.next && EntryOf(s.file.mmaps, entry.handle, 0).None?
    requires s.file.drm.handles[entry.handle - 1] != ZERO_BO && entry.ptr != 0 && entry.size % PAGE == 0
    requires forall i :: 0 <= i < MAX_HANDLES && i != entry.handle - 1 ==> drm.handles[i] == s.file.drm.handles[i]
    ensures CounterOk(Session(WithEntry(s.file, drm, e, entry), s.mapped + {entry.handle}))
  {
    var s' := Session(WithEntry(s.file, drm, e, entry), s.mapped + {entry.handle});
    assert s.file.nextOffset % PAGE == 0;
    PageMultiple(s.file.nextOffset, Span(entry));
    assert s'.file.nextOffset % PAGE == 0 && s'.file.mmaps == s.file.mmaps[e := entry];
    assert s.file.nextOffset <= s'.file.nextOffset <= s.file.nextOffset + U32;
    ClosedKept(s.file.drm, drm, entry.handle);
    assert !Closed(s.file.drm, entry.handle);
    hide CounterOk, EntryOf, WithEntry, Span, Closed;
    CounterAfterAdd(s, s', e, entry.handle);
  }

  lemma ClosedKept(d: Drm, d': Drm, h: u32)
    requires |d'.handles| == |d.handles| == MAX_HANDLES && d'.next == d.next
    requires 0 < h <= MAX_HANDLES && d.handles[h - 1] != ZERO_BO
    requires forall i :: 0 <= i < MAX_HANDLES && i != h - 1 ==> d'.handles[i] == d.handles[i]
    ensures forall k: u32 :: Closed(d, k) ==> Closed(d', k)
  {
  }

  lemma CounterAfterAdd(s: Session, s': Session, e: nat, h: u32)
    requires CounterOk(s) && EntryOf(s.file.mmaps, h, 0).None? && e < |s.file.mmaps|
    requires s.file.mmaps[e].handle == 0 && 0 < h <= s.file.drm.next == s'.file.drm.next && !Closed(s.file.drm, h)
    requires s'.mapped == s.mapped + {h}
    requires |s'.file.mmaps| == |s.file.mmaps| && s'.file.mmaps == s.file.mmaps[e := s'.file.mmaps[e]]
    requires s'.file.mmaps[e].handle == h && s'.file.mmaps[e].ptr != 0
    requires s'.file.nextOffset % PAGE == 0 && s.file.nextOffset <= s'.file.nextOffset <= s.file.nextOffset + U32
    requires forall k :: k in s.mapped && Closed(s.file.drm, k) ==> Closed(s'.file.drm, k)
    ensures CounterOk(s')
  {
    forall k | k in s'.mapped
      ensures Closed(s'.file.drm, k) || EntryOf(s'.file.mmaps, k, 0).Some?
    {
      EntryOfAfterAdd(s.file.mmaps, e, s'.file.mmaps[e], k);
    }
    assert |s'.mapped| == |s.mapped| + 1;
  }

  lemma CloseKeepsFile(s: Session, op: FileOp)
    requires FileInv(s) && op.CloseIoctl?
    ensures FileInv(FileStep(s, op))
  {
    var d, h := s.file.drm, op.h;
    CloseCloses(d, h, op.unmapAnswer, op.unrefAnswer);
    if Lookup(d, h).Some? {
      ReleaseKeepsDrm(d, h - 1, op.unmapAnswer, op.unrefAnswer);
      AfterClose(s, CloseBo(d, h, op.unmapAnswer, op.unrefAnswer).0, h);
    }
  }

  lemma AfterClose(s: Session, drm: Drm, h: u32)
    requires EntriesOk(s.file) && CounterOk(s) && 0 < h <= s.file.drm.next == drm.next <= MAX_HANDLES
    requires |drm.handles| == |s.file.drm.handles| == MAX_HANDLES
    requires drm.handles == s.file.drm.handles[h - 1 := ZERO_BO]
    ensures var s' := s.(file := s.file.(drm := drm, mmaps := RemoveHandle(s.file.mmaps, h)));
      EntriesOk(s'.file) && CounterOk(s')
  {
    var f, f' := s.file, s.file.(drm := drm, mmaps := RemoveHandle(s.file.mmaps, h));
    forall i | 0 <= i < MAX_MMAPS
      ensures EntryOk(f', f'.mmaps[i])
      ensures f'.mmaps[i] == f.mmaps[i] || f'.mmaps[i] == ZERO_ENTRY
    {
      assert EntryOk(f, f.mmaps[i]);
    }
    forall k | k in s.mapped
      ensures Closed(drm, k) || EntryOf(f'.mmaps, k, 0).Some?
    {
      var was := EntryOf(f.mmaps, k, 0);
      if k != h && was.Some? { assert f'.mmaps[was.value] == f.mmaps[was.value]; }
    }
  }

  lemma FileStepKeepsInv(s: Session, op: FileOp)
    requires FileInv(s) && (TakesNewId(op) ==> FreshId(s.file.drm.sys))
    ensures FileInv(FileStep(s, op))
  {
    match op
    case Ioctl(drmOp) =>
      if drmOp.CreateOp? { CreateKeepsFile(s, drmOp); }
      if drmOp.MapOp? { PassedMapKeepsFile(s, drmOp); }
    case MapIoctl(h, a, m, u) =>
      MapKeepsFile(s, op);
      MapBelow(s.file.drm, h, a, m, u);
    case CloseIoctl(h, a, b) =>
      CloseKeepsFile(s, op);
      StepCounter(s.file.drm, CloseOp(h, a, b));
  }

  // ---- every run -----------------------------------------------------------------

  function FileRun(s: Session, ops: seq<FileOp>): Session
    requires |s.file.drm.handles| == MAX_HANDLES && s.file.drm.next <= MAX_HANDLES
    decreases ops
  {
    if ops == [] then s
    else
      var s1 := FileStep(s, ops[0]);
      FileRun(s1, ops[1..])
  }

  predicate TakesNewId(op: FileOp) { op.Ioctl? && op.op.CreateOp? }

  /** Every create of the run finds a fresh resource id in the device below. */
  ghost predicate FileFresh(s: Session, ops: seq<FileOp>)
    requires |s.file.drm.handles| == MAX_HANDLES && s.file.drm.next <= MAX_HANDLES
    decreases ops
  {
    ops == [] ||
    ((TakesNewId(ops[0]) ==> FreshId(s.file.drm.sys))
     && var s1 := FileStep(s, ops[0]);
        FileFresh(s1, ops[1..]))
  }

  /** What a file call does to the object table below. */
  lemma FileStepBelow(s: Session, op: FileOp)
    requires |s.file.drm.handles| == MAX_HANDLES && s.file.drm.next <= MAX_HANDLES
    ensures FileStep(s, op).file.drm == s.file.drm
            || exists drmOp :: FileStep(s, op).file.drm == DrmStep(s.file.drm, drmOp)
    ensures |FileStep(s, op).file.drm.handles| == MAX_HANDLES && FileStep(s, op).file.drm.next <= MAX_HANDLES
  {
    hide PageAlign;
    if op.MapIoctl? {
      assert FileStep(s, op).file.drm == s.file.drm
             || FileStep(s, op).file.drm == DrmStep(s.file.drm, MapOp(op.h, op.answer, op.mapInfo, op.undoAnswer));
    } else if op.CloseIoctl? {
      assert FileStep(s, op).file.drm == DrmStep(s.file.drm, CloseOp(op.h, op.unmapAnswer, op.unrefAnswer));
    } else if !op.op.CloseOp? {
      assert FileStep(s, op).file.drm == DrmStep(s.file.drm, op.op);
    }
  }

  /** Until the 32-bit counter wraps every id is fresh. */
  lemma {:induction false} ShortFileRunsAreFresh(s: Session, ops: seq<FileOp>)
    requires |s.file.drm.handles| == MAX_HANDLES && s.file.drm.next <= MAX_HANDLES
    requires IdsBelow(s.file.drm.sys) && s.file.drm.sys.dev.nextRes + |ops| < U32
    ensures FileFresh(s, ops)
    decreases ops
  {
    hide IdsBelow, DrmStep;
    if ops != [] {
      BelowIsFresh(s.file.drm.sys);
      FileStepBelow(s, ops[0]);
      var d' := FileStep(s, ops[0]).file.drm;
      if d' != s.file.drm {
        var drmOp :| d' == DrmStep(s.file.drm, drmOp);
        DrmStepStaysBelow(s.file.drm, drmOp);
      }
      ShortFileRunsAreFresh(FileStep(s, ops[0]), ops[1..]);
    }
  }

  lemma {:induction false} FileRunKeepsInv(s: Session, ops: seq<FileOp>)
    requires FileInv(s) && FileFresh(s, ops)
    ensures FileInv(FileRun(s, ops))
    decreases ops
  {
    if ops != [] {
      FileStepKeepsInv(s, ops[0]);
      FileRunKeepsInv(FileStep(s, ops[0]), ops[1..]);
    }
  }

  /** In every run, entries are page-aligned, pairwise disjoint, at most one a
      handle, below the counter, and the counter never gets near 2^64. */
  lemma RegistryInOrder(s: Session, ops: seq<FileOp>, i: nat, j: nat)
    requires FileInitial(s) && FileFresh(s, ops)
    requires i < j < MAX_MMAPS
    ensures var f := FileRun(s, ops).file;
      && |f.mmaps| == MAX_MMAPS && f.nextOffset <= MMAP_BASE + MAX_HANDLES * U32
      && (f.mmaps[i].handle != 0 ==> f.mmaps[i].offset % PAGE == 0 && f.mmaps[i].offset + f.mmaps[i].size <= f.nextOffset)
      && (f.mmaps[i].handle != 0 && f.mmaps[j].handle != 0 ==> Apart(f.mmaps[i], f.mmaps[j]))
  {
    FileInitialInv(s);
    FileRunKeepsInv(s, ops);
    CounterRoom(FileRun(s, ops));
    assert EntryOk(FileRun(s, ops).file, FileRun(s, ops).file.mmaps[i]);
  }

  /** In every run MAP succeeds whenever mapping the object itself does: the
      registry always has an entry left. */
  lemma MapNeverRunsOutOfEntries(s: Session, ops: seq<FileOp>, h: u32, answer: int, mapInfo: u32, undoAnswer: int)
    requires FileInitial(s) && FileFresh(s, ops)
    ensures var f := FileRun(s, ops).file;
      && |f.drm.handles| == MAX_HANDLES && f.drm.next <= MAX_HANDLES
      && (FileMap(f, h, answer, mapInfo, undoAnswer).2 == 0 <==>
            EntryOf(f.mmaps, h, 0).Some? || MapBo(f.drm, h, answer, mapInfo, undoAnswer).2 == 0)
  {
    FileInitialInv(s);
    FileRunKeepsInv(s, ops);
    var now := FileRun(s, ops);
    MapBelow(now.file.drm, h, answer, mapInfo, undoAnswer);
    if EntryOf(now.file.mmaps, h, 0).None? && MapBo(now.file.drm, h, answer, mapInfo, undoAnswer).2 == 0 {
      MapAddsEntry(now, MapIoctl(h, answer, mapInfo, undoAnswer));
    }
  }

  /** Entry k covers the len bytes from this offset on. */
  ghost predicate Covers(e: Entry, offset: nat, len: nat) {
    e.handle != 0 && e.offset <= offset && offset + len <= e.offset + e.size
  }

  /** mmap succeeds exactly when some entry covers the whole request, and then
      gives that entry's address moved by the distance into it. */
  ghost predicate ResolvesExactly(f: File, offset: u64, len: u64) {
    && (FileMmap(f, offset, len).1 == 0 <==>
          offset % PAGE == 0 && len > 0 && exists k :: 0 <= k < |f.mmaps| && Covers(f.mmaps[k], offset, len))
    && (forall k :: 0 <= k < |f.mmaps| && Covers(f.mmaps[k], offset, len) && len > 0 && offset % PAGE == 0 ==>
          FileMmap(f, offset, len).0 == (f.mmaps[k].ptr + (offset - f.mmaps[k].offset)) % U64)
  }

  lemma MmapResolves(s: Session, ops: seq<FileOp>, offset: u64, len: u64)
    requires FileInitial(s) && FileFresh(s, ops)
    ensures ResolvesExactly(FileRun(s, ops).file, offset, len)
  {
    FileInitialInv(s);
    FileRunKeepsInv(s, ops);
    ResolveIn(FileRun(s, ops), offset, len);
  }

  lemma ResolveIn(s: Session, offset: u64, len: u64)
    requires FileInv(s)
    ensures ResolvesExactly(s.file, offset, len)
  {
    var f := s.file;
    OffsetMask(offset);
    forall k | 0 <= k < MAX_MMAPS && f.mmaps[k].handle != 0
      ensures InEntry(f.mmaps[k], offset) <==> InRange(f.mmaps[k], offset)
      ensures f.mmaps[k].size <= U32
    {
      EntryRange(s, k, offset);
    }
    match EntryAt(f.mmaps, offset, 0)
    case Some(k) =>
      MmapAt(f, offset, len, k);
      OthersMiss(f, k, offset, len);
      hide And, FileInv, EntriesOk, EntryOk, EntryAt, InRange, InEntry, Covers, FileMmap;
    case None =>
      NoneCovers(f, offset, len);
      hide And, FileInv, EntriesOk, EntryOk, EntryAt, InRange, InEntry, Covers;
  }

  predicate InRange(e: Entry, offset: nat) { e.offset <= offset < e.offset + e.size }

  /** The scan's comparison does not wrap. */
  lemma EntryRange(s: Session, k: nat, offset: u64)
    requires FileInv(s) && k < MAX_MMAPS && s.file.mmaps[k].handle != 0
    ensures InEntry(s.file.mmaps[k], offset) <==> InRange(s.file.mmaps[k], offset)
    ensures s.file.mmaps[k].size <= U32
  {
    CounterRoom(s);
    assert EntryOk(s.file, s.file.mmaps[k]);
    SmallMod(s.file.mmaps[k].offset + s.file.mmaps[k].size, U64);
    hide DrmInv, EntriesOk, CounterOk;
  }

  /** What mmap gives when the scan stops at entry k. */
  lemma MmapAt(f: File, offset: u64, len: u64, k: nat)
    requires |f.mmaps| == MAX_MMAPS && And(offset, PAGE - 1) == offset % PAGE
    requires EntryAt(f.mmaps, offset, 0) == Some(k) && k < MAX_MMAPS && f.mmaps[k].handle != 0
    requires InRange(f.mmaps[k], offset) && f.mmaps[k].size <= U32
    ensures FileMmap(f, offset, len).1 == 0 <==> offset % PAGE == 0 && len > 0 && Covers(f.mmaps[k], offset, len)
    ensures offset % PAGE == 0 && len > 0 && Covers(f.mmaps[k], offset, len) ==>
              FileMmap(f, offset, len).0 == (f.mmaps[k].ptr + (offset - f.mmaps[k].offset)) % U64
  {
    var e := f.mmaps[k];
    SmallMod(e.size - (offset - e.offset), U64);
    hide And, EntryAt;
  }

  /** The entry the scan stops at is the only one with the offset in its range. */
  lemma OthersMiss(f: File, k: nat, offset: u64, len: u64)
    requires EntriesOk(f) && k < MAX_MMAPS && f.mmaps[k].handle != 0 && InRange(f.mmaps[k], offset)
    ensures len > 0 ==> forall j :: 0 <= j < MAX_MMAPS && j != k ==> !Covers(f.mmaps[j], offset, len)
  {
    forall j | 0 <= j < MAX_MMAPS && j != k
      ensures len > 0 ==> !Covers(f.mmaps[j], offset, len)
    {
      OnlyOne(f, k, j, offset);
      hide EntriesOk, EntryOk, Apart;
    }
  }

  lemma NoneCovers(f: File, offset: u64, len: u64)
    requires |f.mmaps| == MAX_MMAPS && EntryAt(f.mmaps, offset, 0) == None
    requires forall k :: 0 <= k < MAX_MMAPS && f.mmaps[k].handle != 0 ==>
               (InEntry(f.mmaps[k], offset) <==> InRange(f.mmaps[k], offset))
    ensures len > 0 ==> forall k :: 0 <= k < MAX_MMAPS ==> !Covers(f.mmaps[k], offset, len)
  {
    forall k | 0 <= k < MAX_MMAPS
      ensures len > 0 ==> !Covers(f.mmaps[k], offset, len)
    {
      assert !InEntry(f.mmaps[k], offset);
      hide InEntry;
    }
  }

  lemma OffsetMask(offset: u64)
    ensures And(offset, PAGE - 1) == offset % PAGE
  {
    Pow2Values();
    AndMask(offset, 12);
  }

  lemma OnlyOne(f: File, i: nat, j: nat, offset: nat)
    requires EntriesOk(f) && i < MAX_MMAPS && j < MAX_MMAPS && i != j
    requires f.mmaps[i].handle != 0 && f.mmaps[i].offset <= offset < f.mmaps[i].offset + f.mmaps[i].size
    ensures f.mmaps[j].handle != 0 ==> !(f.mmaps[j].offset <= offset < f.mmaps[j].offset + f.mmaps[j].size)
  {
    if f.mmaps[j].handle != 0 {
      if i < j { assert Apart(f.mmaps[i], f.mmaps[j]); } else { assert Apart(f.mmaps[j], f.mmaps[i]); }
    }
  }

  /** In every run, what mmap returns for an entry stays inside the mapping of the
      entry's own object, below 2^64, for every request the entry covers, if and
      only if the entry is no larger than the object's blob. */
  lemma ResolvedInsideObject(s: Session, ops: seq<FileOp>, k: nat)
    requires FileInitial(s) && FileFresh(s, ops) && k < MAX_MMAPS
    requires |FileRun(s, ops).file.mmaps| == MAX_MMAPS && FileRun(s, ops).file.mmaps[k].handle != 0
    ensures var f := FileRun(s, ops).file;
      var e := f.mmaps[k];
      && 0 < e.handle <= |f.drm.handles|
      && (var bo := f.drm.handles[e.handle - 1];
          && bo.blob.created && bo.blob.mapped && e.ptr == bo.blob.mappedAddr && bo.blob.mappedAddr + bo.blob.size < U64
          && (StaysInside(e, bo.blob) <==> FitsBlob(bo.size, Alignment(f.drm.sys.dev.cfg))))
  {
    FileInitialInv(s);
    FileRunKeepsInv(s, ops);
    var f := FileRun(s, ops).file;
    var e := f.mmaps[k];
    assert EntryOk(f, e) && BoOk(f.drm, e.handle - 1) && RecordOk(f.drm.sys.dev, AsWorld(f.drm).records[e.handle - 1]);
    InsideIffFits(e, f.drm.handles[e.handle - 1], Alignment(f.drm.sys.dev.cfg));
  }

  /** Every request the entry covers resolves to addresses of this blob. */
  ghost predicate StaysInside(e: Entry, b: Blob) {
    forall offset: nat, len: nat {:trigger Covers(e, offset, len)} :: Covers(e, offset, len) ==>
      e.ptr + (offset - e.offset) + len <= b.mappedAddr + b.size
  }

  lemma InsideIffFits(e: Entry, bo: Bo, align: nat)
    requires align > 0 && e.handle != 0 && e.ptr == bo.blob.mappedAddr
    requires e.size == RoundedUp(bo.size % U32, PAGE) && bo.blob.size == RoundedUp(bo.size, align)
    ensures StaysInside(e, bo.blob) <==> FitsBlob(bo.size, align)
  {
    assert Covers(e, e.offset, e.size);
  }

  /** An entry for an object of this size is no larger than its blob. */
  ghost predicate FitsBlob(size: nat, align: nat)
    requires align > 0
  {
    RoundedUp(size % U32, PAGE) <= RoundedUp(size, align)
  }

  /** Entries fit their blobs for every object size exactly when the negotiated
      alignment is at least a page. */
  lemma EntryFitsIffAligned(align: nat)
    requires IsPow2(align)
    ensures (forall size: u64 :: size > 0 ==> FitsBlob(size, align)) <==> align >= PAGE
  {
    if align >= PAGE {
      forall size: u64 | size > 0
        ensures FitsBlob(size, align)
      {
        PageFits(size, align);
      }
    } else {
      SmallMod(1, U32);
      RoundUp(1, align);
      assert RoundedUp(1, PAGE) == PAGE;
      assert !FitsBlob(1, align);
    }
  }

  lemma PageFits(size: u64, align: nat)
    requires size > 0 && IsPow2(align) && align >= PAGE
    ensures FitsBlob(size, align)
  {
    PageDivides(align);
    RoundUp(size, align);
    var big, small := RoundedUp(size, align), RoundedUp(size % U32, PAGE);
    RoundUp(size % U32, PAGE);
    var q := align / PAGE;
    assert big == (big / align) * align;
    MulAssoc(big / align, q, PAGE);
    DivModUnique(big, PAGE, (big / align) * q, 0);
    assert size % U32 <= size <= big;
    NoSmallerMultiple(small, big, size % U32);
  }

  lemma PageDivides(align: nat)
    requires IsPow2(align) && align >= PAGE
    ensures align == (align / PAGE) * PAGE
  {
    var k: nat :| align == Pow2(k);
    Pow2Values();
    if k < 12 { Pow2StrictMonotone(k, 12); }
    Pow2Divides(12, k);
    DivModUnique(align, PAGE, Pow2(k - 12), 0);
  }

  /** The least page multiple covering x is at most any page multiple covering x. */
  lemma NoSmallerMultiple(small: nat, big: nat, x: nat)
    requires small % PAGE == 0 && big % PAGE == 0 && x <= small < x + PAGE && x <= big
    ensures small <= big
  {}

  // ---- a mapping larger than its object, and an object larger than its mapping --------

  /** Create an object of this size and map it. */
  function FirstOps(size: u64): seq<FileOp> {
    [Ioctl(CreateOp(BLOB_MEM_HOST3D, BLOB_FLAG_USE_MAPPABLE, size, 0)), MapIoctl(1, 0, 0, 0)]
  }

  /** A fresh file on a device with blobs whose region has room for the object. */
  ghost predicate RoomFor(s: Session, size: u64) {
    var cfg := s.file.drm.sys.dev.cfg;
    FileInitial(s) && cfg.resourceBlob && cfg.windowBase != 0 && Fits(cfg, size)
  }

  ghost predicate Fits(cfg: Config, size: u64) {
    && size > 0 && Alignment(cfg) > 0 && size + (Alignment(cfg) - 1) < U64
    && RoundedUp(size, Alignment(cfg)) <= cfg.windowSize
  }

  lemma FirstBlob(s: System, blobId: u64, size: u64)
    requires SysOk(s) && FreshId(s) && s.dev.cfg.resourceBlob && s.dev.nextOffset == 0 && !s.dev.resources[0].live
    requires Fits(s.dev.cfg, size)
    ensures var out := BlobCreate(s, size, BLOB_MEM_HOST3D, BLOB_FLAG_USE_MAPPABLE, blobId, ZERO_BLOB, 0);
      && out.rc == 0 && out.sys.dev.cfg == s.dev.cfg
      && out.record.created && !out.record.mapped && out.record.offset == 0
      && out.record.size == RoundedUp(size, Alignment(s.dev.cfg))
      && out.record.flags == BLOB_FLAG_USE_MAPPABLE && out.record.mappedAddr == 0
  {
    RoundUp(size, Alignment(s.dev.cfg));
    AlignedSizeIs(s.dev.cfg, size, Alignment(s.dev.cfg));
    hide AlignedSize, And, Alignment, RoundedUp;
    assert BlobCreate(s, size, BLOB_MEM_HOST3D, BLOB_FLAG_USE_MAPPABLE, blobId, ZERO_BLOB, 0).rc == 0;
    hide BlobCreate;
    var i, slot := CreatedBlob(s, size, BLOB_MEM_HOST3D, BLOB_FLAG_USE_MAPPABLE, blobId, ZERO_BLOB, 0);
  }

  /** Object 1 is the only one, of this size, in a window at the start of the region. */
  ghost predicate FirstObject(d: Drm, size: u64) {
    DrmInv(d) && d.next == 1
    && var bo, cfg := d.handles[0], d.sys.dev.cfg;
       && bo.handle == 1 && bo.isBlob && bo.size == size && bo.blob.created && bo.blob.offset == 0
       && bo.blob.flags == BLOB_FLAG_USE_MAPPABLE && bo.blob.size == RoundedUp(size, Alignment(cfg))
       && cfg.windowBase != 0 && Fits(cfg, size)
  }

  lemma FirstCreated(s: Session, size: u64)
    requires RoomFor(s, size)
    ensures var s1 := FileStep(s, FirstOps(size)[0]);
      && FileInv(s1) && FirstObject(s1.file.drm, size) && s1.file.drm.handles[0].mapped == 0
      && !s1.file.drm.handles[0].blob.mapped && s1.file.drm.sys.dev.cfg == s.file.drm.sys.dev.cfg
      && s1.file.mmaps == s.file.mmaps && s1.file.nextOffset == MMAP_BASE
  {
    FileInitialInv(s);
    BelowIsFresh(s.file.drm.sys);
    FileStepKeepsInv(s, FirstOps(size)[0]);
    FirstBlob(s.file.drm.sys, s.file.drm.nextBlobId, size);
    hide BlobCreate, Inv, CounterOk, EntriesOk, RoundedUp;
  }

  lemma MapsAtBase(s: System, b: Blob)
    requires SysOk(s) && b.created && RecordOk(s.dev, b) && !b.mapped && b.flags == BLOB_FLAG_USE_MAPPABLE
    requires b.offset == 0 && 0 < b.size <= s.dev.cfg.windowSize && s.dev.cfg.windowBase != 0
    ensures var out := BlobMap(s, b, 0, 0, 0);
      out.rc == 0 && out.record.mapped && out.record.mappedAddr == s.dev.cfg.windowBase && out.record.size == b.size
  {
    AndSelf(BLOB_FLAG_USE_MAPPABLE);
    hide And;
    MapCall(s, b, 0, 0, 0);
    MapKeepsFields(s, b, 0, 0, 0);
    hide BlobMap;
  }

  lemma FirstBoMapped(d: Drm, size: u64)
    requires FirstObject(d, size) && d.handles[0].mapped == 0 && !d.handles[0].blob.mapped
    ensures var (d', ptr, rc) := MapBo(d, 1, 0, 0, 0);
      && rc == 0 && ptr == d.sys.dev.cfg.windowBase && |d'.handles| == MAX_HANDLES && d'.handles[0].size == size
      && d'.handles[0].blob.mapped && d'.handles[0].blob.size == RoundedUp(size, Alignment(d.sys.dev.cfg))
  {
    RoundUp(size, Alignment(d.sys.dev.cfg));
    assert RecordOk(d.sys.dev, AsWorld(d).records[0]);
    MapsAtBase(d.sys, d.handles[0].blob);
    hide BlobMap, DrmInv, RoundedUp;
  }

  lemma FirstMapped(s: Session, size: u64)
    requires FileInv(s) && s.file.mmaps == seq(MAX_MMAPS, _ => ZERO_ENTRY) && s.file.nextOffset == MMAP_BASE
    requires FirstObject(s.file.drm, size) && s.file.drm.handles[0].mapped == 0 && !s.file.drm.handles[0].blob.mapped
    ensures var s', cfg := FileStep(s, FirstOps(size)[1]), s.file.drm.sys.dev.cfg;
      && FileInv(s') && s'.file.mmaps[0] == Entry(MMAP_BASE, RoundedUp(size % U32, PAGE), 1, cfg.windowBase)
      && s'.file.drm.handles[0].size == size
      && s'.file.drm.handles[0].blob.mapped && s'.file.drm.handles[0].blob.size == RoundedUp(size, Alignment(cfg))
  {
    var op := FirstOps(size)[1];
    FirstBoMapped(s.file.drm, size);
    hide MapBo, DrmInv, PageAlign, CounterOk, EntriesOk;
    assert EntryOf(s.file.mmaps, 1, 0).None?;
    assert FreeEntry(s.file.mmaps, 0) == Some(0);
    MapShape(s, op, 0);
    MapAddsEntry(s, op);
    hide FileMap, RoundedUp, Alignment;
  }

  /** The run of both: the object is mapped at the start of the region, and entry
      0 is its own. */
  lemma FirstObjectRuns(s: Session, size: u64)
    requires RoomFor(s, size)
    ensures var s', cfg := FileRun(s, FirstOps(size)), s.file.drm.sys.dev.cfg;
      && FileFresh(s, FirstOps(size)) && FileInv(s') && |s'.file.drm.handles| == MAX_HANDLES
      && s'.file.mmaps[0] == Entry(MMAP_BASE, RoundedUp(size % U32, PAGE), 1, cfg.windowBase)
      && s'.file.drm.handles[0].size == size
      && s'.file.drm.handles[0].blob.mapped && s'.file.drm.handles[0].blob.size == RoundedUp(size, Alignment(cfg))
  {
    var op1, op2 := FirstOps(size)[0], FirstOps(size)[1];
    var s1 := FileStep(s, op1);
    FirstCreated(s, size);
    ShortFileRunsAreFresh(s, FirstOps(size));
    FirstMapped(s1, size);
    assert FirstOps(size)[1..] == [op2] && [op2][1..] == [];
    hide FileStep, FileInv, FirstObject, RoundedUp, FileFresh;
    assert FileRun(s, FirstOps(size)) == FileRun(s1, [op2]) == FileRun(FileStep(s1, op2), []) == FileStep(s1, op2);
  }

  /** A file on a device with blobs, byte alignment and a region. */
  ghost predicate ByteAligned(s: Session) {
    var cfg := s.file.drm.sys.dev.cfg;
    FileInitial(s) && cfg.resourceBlob && cfg.blobAlignment == 1 && cfg.windowBase != 0 && cfg.windowSize > 0
  }

  /** With byte alignment an application can mmap a page of an object whose blob
      is a single byte. */
  lemma OneByteMapsPage(s: Session)
    requires ByteAligned(s)
    ensures var f := FileRun(s, FirstOps(1)).file;
      && FileFresh(s, FirstOps(1))
      && FileMmap(f, MMAP_BASE, PAGE) == (s.file.drm.sys.dev.cfg.windowBase, 0)
      && |f.drm.handles| == MAX_HANDLES && f.drm.handles[0].blob.mapped && f.drm.handles[0].blob.size == 1
  {
    RoomForOne(s);
    hide *;
    FirstByte(s, 1);
  }

  lemma FirstByte(s: Session, size: u64)
    requires RoomFor(s, size) && Alignment(s.file.drm.sys.dev.cfg) == 1 && size == 1
    ensures var f := FileRun(s, FirstOps(size)).file;
      && FileFresh(s, FirstOps(size))
      && FileMmap(f, MMAP_BASE, PAGE) == (s.file.drm.sys.dev.cfg.windowBase, 0)
      && |f.drm.handles| == MAX_HANDLES && f.drm.handles[0].blob.mapped && f.drm.handles[0].blob.size == 1
  {
    SmallMod(size, U32);
    OneByteRounds();
    var s' := FileRun(s, FirstOps(size));
    hide *;
    FirstObjectRuns(s, size);
    FirstEntryResolves(s', s.file.drm.sys.dev.cfg.windowBase);
  }

  lemma OneByteFits(cfg: Config)
    requires cfg.blobAlignment == 1 && cfg.windowSize > 0
    ensures Fits(cfg, 1) && Alignment(cfg) == 1
  {
    assert Alignment(cfg) == 1;
    hide Alignment, RoundedUp;
    RoundUp(1, 1);
  }

  lemma OneByteRounds()
    ensures RoundedUp(1, 1) == 1 && RoundedUp(1, PAGE) == PAGE
  {
    hide RoundedUp;
    RoundUp(1, 1);
    RoundUp(1, PAGE);
  }

  lemma RoomForOne(s: Session)
    requires ByteAligned(s)
    ensures RoomFor(s, 1) && Alignment(s.file.drm.sys.dev.cfg) == 1
  {
    hide FileInitial, Fits;
    OneByteFits(s.file.drm.sys.dev.cfg);
  }

  lemma FirstEntryResolves(s: Session, ptr: u64)
    requires FileInv(s) && s.file.mmaps[0] == Entry(MMAP_BASE, PAGE, 1, ptr)
    ensures FileMmap(s.file, MMAP_BASE, PAGE) == (ptr, 0)
  {
    ResolveIn(s, MMAP_BASE, PAGE);
    hide FileMmap, FileInv;
    assert Covers(s.file.mmaps[0], MMAP_BASE, PAGE);
    SmallMod(ptr, U64);
  }

  /** The object's size is cut to 32 bits on the way to the registry: after a MAP
      the whole object can be mmapped if and only if it is below 4 GiB. */
  lemma WholeObjectMapsIffSmall(s: Session, ops: seq<FileOp>, k: nat)
    requires FileInitial(s) && FileFresh(s, ops) && k < MAX_MMAPS
    requires |FileRun(s, ops).file.mmaps| == MAX_MMAPS && FileRun(s, ops).file.mmaps[k].handle != 0
    ensures var f := FileRun(s, ops).file;
      var e := f.mmaps[k];
      && 0 < e.handle <= |f.drm.handles|
      && (FileMmap(f, e.offset, f.drm.handles[e.handle - 1].size).1 == 0 <==> f.drm.handles[e.handle - 1].size < U32)
  {
    FileInitialInv(s);
    FileRunKeepsInv(s, ops);
    WholeObject(FileRun(s, ops), k);
  }

  lemma WholeObject(s: Session, k: nat)
    requires FileInv(s) && k < MAX_MMAPS && s.file.mmaps[k].handle != 0
    ensures var f, e := s.file, s.file.mmaps[k];
      && 0 < e.handle <= |f.drm.handles|
      && (FileMmap(f, e.offset, f.drm.handles[e.handle - 1].size).1 == 0 <==> f.drm.handles[e.handle - 1].size < U32)
  {
    var f, e := s.file, s.file.mmaps[k];
    assert EntryOk(f, e) && BoOk(f.drm, e.handle - 1);
    var size := f.drm.handles[e.handle - 1].size;
    SizeCut(size);
    ResolveIn(s, e.offset, size);
    hide FileMmap, DrmInv, CounterOk, BoOk, RoundedUp;
    if size < U32 {
      assert Covers(e, e.offset, size);
    } else {
      forall j | 0 <= j < MAX_MMAPS
        ensures !Covers(f.mmaps[j], e.offset, size)
      {
        if j != k && f.mmaps[j].handle != 0 { EntriesApart(f, j, k, size); }
      }
    }
  }

  /** On every fresh device whose region holds it, an object of exactly 4 GiB is
      mapped and has an entry, and yet cannot be mmapped as a whole. */
  lemma FourGigabytesDoNotMap(s: Session)
    requires FileInitial(s) && s.file.drm.sys.dev.cfg.resourceBlob
    requires s.file.drm.sys.dev.cfg.windowBase != 0 && s.file.drm.sys.dev.cfg.windowSize >= U32
    ensures var f := FileRun(s, FirstOps(U32)).file;
      && FileFresh(s, FirstOps(U32))
      && |f.mmaps| == MAX_MMAPS && f.mmaps[0].handle == 1 && f.mmaps[0].offset == MMAP_BASE
      && |f.drm.handles| == MAX_HANDLES && f.drm.handles[0].size == U32
      && f.drm.handles[0].blob.mapped && f.drm.handles[0].blob.size == U32
      && FileMmap(f, MMAP_BASE, U32).1 != 0
  {
    FileInitialInv(s);
    RoundsToItself(Alignment(s.file.drm.sys.dev.cfg));
    FirstObjectRuns(s, U32);
    WholeObject(FileRun(s, FirstOps(U32)), 0);
  }

  lemma RoundsToItself(align: nat)
    requires IsPow2(align) && align < U32
    ensures RoundedUp(U32, align) == U32
  {
    var k: nat :| align == Pow2(k);
    Pow2Values();
    Pow2Monotone(if k < 32 then k else 32, k);
    Pow2Divides(k, 32);
    DivModUnique(U32, align, Pow2(32 - k), 0);
    RoundUp(U32, align);
    ModInjective(U32, RoundedUp(U32, align), align);
  }

  /** The rounded size of the low 32 bits covers the whole size exactly when
      nothing was cut. */
  lemma SizeCut(size: u64)
    requires size > 0
    ensures size <= RoundedUp(size % U32, PAGE) <==> size < U32
  {
    RoundUp(size % U32, PAGE);
    SizeInRange(size % U32);
    if size < U32 { SmallMod(size, U32); }
    if size == U32 { assert size % U32 == 0; }
  }

  lemma EntriesApart(f: File, j: nat, k: nat, size: nat)
    requires EntriesOk(f) && j < MAX_MMAPS && k < MAX_MMAPS && j != k && size > 0
    requires f.mmaps[j].handle != 0 && f.mmaps[k].handle != 0
    ensures !Covers(f.mmaps[j], f.mmaps[k].offset, size)
  {
    assert EntryOk(f, f.mmaps[j]) && EntryOk(f, f.mmaps[k]);
    if j < k { assert Apart(f.mmaps[j], f.mmaps[k]); } else { assert Apart(f.mmaps[k], f.mmaps[j]); }
  }

  // ---- after close ------------------------------------------------------------------

  /** No entry covers this offset, and none handed out from now on will. */
  ghost predicate Gone(f: File, offset: nat) {
    offset < f.nextOffset
    && forall k :: 0 <= k < |f.mmaps| && f.mmaps[k].handle != 0 ==>
         !(f.mmaps[k].offset <= offset < f.mmaps[k].offset + Span(f.mmaps[k]))
  }

  /** Closing a handle takes its whole range out of use. */
  lemma CloseFreesRange(s: Session, h: u32, unmapAnswer: int, unrefAnswer: int, k: nat, offset: nat)
    requires FileInv(s) && k < MAX_MMAPS && h != 0 && s.file.mmaps[k].handle == h
    requires s.file.mmaps[k].offset <= offset < s.file.mmaps[k].offset + Span(s.file.mmaps[k])
    ensures FileClose(s.file, h, unmapAnswer, unrefAnswer).1 == 0
    ensures Gone(FileClose(s.file, h, unmapAnswer, unrefAnswer).0, offset)
  {
    assert EntryOk(s.file, s.file.mmaps[k]) && BoOk(s.file.drm, h - 1);
    CloseCloses(s.file.drm, h, unmapAnswer, unrefAnswer);
    RangeRemoved(s.file, CloseBo(s.file.drm, h, unmapAnswer, unrefAnswer).0, h, k, offset);
  }

  lemma RangeRemoved(f: File, drm: Drm, h: u32, k: nat, offset: nat)
    requires EntriesOk(f) && k < MAX_MMAPS && h != 0 && f.mmaps[k].handle == h
    requires f.mmaps[k].offset <= offset < f.mmaps[k].offset + Span(f.mmaps[k])
    ensures Gone(f.(drm := drm, mmaps := RemoveHandle(f.mmaps, h)), offset)
  {
    assert EntryOk(f, f.mmaps[k]);
    forall j | 0 <= j < MAX_MMAPS && f.mmaps[j].handle != 0 && f.mmaps[j].handle != h
      ensures !(f.mmaps[j].offset <= offset < f.mmaps[j].offset + Span(f.mmaps[j]))
    {
      if j < k { assert Apart(f.mmaps[j], f.mmaps[k]); }
      if k < j { assert Apart(f.mmaps[k], f.mmaps[j]); }
    }
  }

  lemma GoneStays(s: Session, op: FileOp, offset: nat)
    requires FileInv(s) && Gone(s.file, offset)
    ensures Gone(FileStep(s, op).file, offset)
  {
    if op.MapIoctl? {
      var rc := MapBo(s.file.drm, op.h, op.answer, op.mapInfo, op.undoAnswer).2;
      if EntryOf(s.file.mmaps, op.h, 0).None? && rc == 0 { GoneAfterMap(s, op, offset); }
    }
  }

  lemma GoneAfterMap(s: Session, op: FileOp, offset: nat)
    requires FileInv(s) && op.MapIoctl? && EntryOf(s.file.mmaps, op.h, 0).None? && Gone(s.file, offset)
    requires MapBo(s.file.drm, op.h, op.answer, op.mapInfo, op.undoAnswer).2 == 0
    ensures Gone(FileStep(s, op).file, offset)
  {
    MapBelow(s.file.drm, op.h, op.answer, op.mapInfo, op.undoAnswer);
    assert BoOk(s.file.drm, op.h - 1);
    RoomForEntry(s.file, op.h);
    CounterRoom(s);
    MapShape(s, op, FreeEntry(s.file.mmaps, 0).value);
  }

  /** An offset that was given out and then closed never resolves again, in any
      run that follows, and is never given out again. */
  lemma {:induction false} ClosedOffsetNeverResolves(s: Session, ops: seq<FileOp>, offset: u64, len: u64)
    requires FileInv(s) && FileFresh(s, ops) && Gone(s.file, offset)
    ensures FileMmap(FileRun(s, ops).file, offset, len).1 != 0 && Gone(FileRun(s, ops).file, offset)
    decreases ops
  {
    if ops == [] {
      ResolveIn(s, offset, len);
    } else {
      GoneStays(s, ops[0], offset);
      FileStepKeepsInv(s, ops[0]);
      ClosedOffsetNeverResolves(FileStep(s, ops[0]), ops[1..], offset, len);
    }
  }
}
