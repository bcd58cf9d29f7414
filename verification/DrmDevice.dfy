/** struct uk_drm_virtgpu_dev and struct uk_drm_virtgpu_file, whose tables the
    ioctls update in place, proved against the functions of DrmHandles and
    DrmMmap. */
module DrmDevice {
  import opened Bits
  import opened Errno
  import opened Rounding
  import opened Wrappers
  import opened GpuSystem
  import opened GpuDevice
  import opened DrmHandles
  import opened DrmMmap

  class Device {
    const gpu: Gpu
    const handles: array<Bo>
    var next: u32
    var nextBlobId: u64

    ghost predicate Valid()
      reads this
    {
      gpu.Valid() && handles.Length == MAX_HANDLES && next <= MAX_HANDLES
    }

    ghost function State(): Drm
      reads this, handles, gpu, gpu.resources, gpu.contexts
    {
      Drm(handles[..], next, nextBlobId, gpu.State())
    }

    constructor (gpu: Gpu)
      requires gpu.Valid()
      ensures Valid() && this.gpu == gpu && fresh(handles)
      ensures State() == Drm(seq(MAX_HANDLES, _ => ZERO_BO), 0, 1, gpu.State())
    {
      this.gpu := gpu;
      handles := new Bo[MAX_HANDLES](_ => ZERO_BO);
      next, nextBlobId := 0, 1;
    }

    method LookupBo(h: u32) returns (at: Option<nat>)
      requires Valid()
      ensures at == Lookup(State(), h)
    {
      if h == 0 || h > next { return None; }
      if handles[h - 1].handle != h { return None; }
      return Some(h - 1);
    }

    /** uk_drm_virtgpu_resource_create_blob */
    method CreateObject(mem: u32, flags: u32, size: u64, answer: int) returns (h: u32, rc: int)
      requires Valid()
      modifies this, handles, gpu, gpu.resources
      ensures Valid() && (State(), h, rc) == CreateBo(old(State()), mem, flags, size, answer)
    {
      if size == 0 { return 0, EINVAL; }
      if next >= MAX_HANDLES { return 0, ENOMEM; }
      var i := next;
      next := next + 1;
      handles[i] := ZERO_BO.(handle := i + 1);
      var blob;
      blob, rc := gpu.CreateBlob(size, mem, flags, nextBlobId, ZERO_BLOB, answer);
      nextBlobId := (nextBlobId + 1) % U64;
      if rc != 0 {
        handles[i] := ZERO_BO.(blob := blob);
        next := next - 1;
        assert handles[..] == old(handles[..])[i := handles[i]];
        return 0, rc;
      }
      handles[i] := Bo(i + 1, blob.resourceId, size, true, mem, flags, 0, blob);
      assert handles[..] == old(handles[..])[i := handles[i]];
      return i + 1, 0;
    }

    /** uk_drm_virtgpu_map */
    method MapObject(h: u32, answer: int, mapInfo: u32, undoAnswer: int) returns (ptr: u64, rc: int)
      requires Valid()
      modifies handles, gpu`host, gpu.resources
      ensures (State(), ptr, rc) == MapBo(old(State()), h, answer, mapInfo, undoAnswer)
    {
      var at := LookupBo(h);
      if at == None || !handles[at.value].isBlob { return 0, ENOENT; }
      var i := at.value;
      if handles[i].mapped == 0 {
        var bo, blob := handles[i], handles[i].blob;
        blob, rc := gpu.MapBlob(blob, answer, mapInfo, undoAnswer);
        handles[i] := bo.(blob := blob);
        if rc != 0 { return 0, rc; }
        handles[i] := bo.(blob := blob, mapped := blob.mappedAddr);
        assert handles[..] == old(handles[..])[i := handles[i]];
      }
      return handles[i].mapped, 0;
    }

    /** bo_release */
    method Release(i: nat, unmapAnswer: int, unrefAnswer: int)
      requires Valid() && i < MAX_HANDLES
      modifies handles, gpu`host, gpu.resources
      ensures State() == ReleaseBo(old(State()), i, unmapAnswer, unrefAnswer)
    {
      var blob := handles[i].blob;
      if !handles[i].isBlob || !blob.created { return; }
      var ignored;
      if blob.mapped { blob, ignored := gpu.UnmapBlob(blob, unmapAnswer); }
      blob, ignored := gpu.DestroyBlob(blob, unrefAnswer);
      handles[i] := ZERO_BO;
    }

    /** uk_drm_virtgpu_gem_close */
    method CloseObject(h: u32, unmapAnswer: int, unrefAnswer: int) returns (rc: int)
      requires Valid()
      modifies handles, gpu`host, gpu.resources
      ensures (State(), rc) == CloseBo(old(State()), h, unmapAnswer, unrefAnswer)
    {
      var at := LookupBo(h);
      if at == None || !handles[at.value].isBlob { return ENOENT; }
      Release(at.value, unmapAnswer, unrefAnswer);
      return 0;
    }

    /** The sweep of uk_drm_virtgpu_close. */
    method CloseAll(answers: nat -> (int, int))
      requires Valid()
      modifies handles, gpu`host, gpu.resources
      ensures State() == Sweep(old(State()), 0, answers)
    {
      var i := 0;
      while i < next
        invariant i <= next && next == old(next) && nextBlobId == old(nextBlobId) && Valid()
        invariant State().next == next && Sweep(old(State()), 0, answers) == Sweep(State(), i, answers)
      {
        Release(i, answers(i).0, answers(i).1);
        i := i + 1;
      }
    }
  }

  class RenderFile {
    const dev: Device
    const mmaps: array<Entry>
    var nextOffset: u64

    ghost predicate Valid()
      reads this, dev
    {
      dev.Valid() && mmaps.Length == MAX_MMAPS
    }

    ghost function State(): File
      reads this, mmaps, dev, dev.handles, dev.gpu, dev.gpu.resources, dev.gpu.contexts
    {
      File(dev.State(), mmaps[..], nextOffset)
    }

    constructor (dev: Device)
      requires dev.Valid()
      ensures Valid() && this.dev == dev && fresh(mmaps)
      ensures State() == File(dev.State(), seq(MAX_MMAPS, _ => ZERO_ENTRY), MMAP_BASE)
    {
      this.dev := dev;
      mmaps := new Entry[MAX_MMAPS](_ => ZERO_ENTRY);
      nextOffset := MMAP_BASE;
    }

    method LookupHandle(h: u32) returns (at: Option<nat>)
      requires Valid()
      ensures at == EntryOf(mmaps[..], h, 0)
    {
      for i := 0 to MAX_MMAPS
        invariant EntryOf(mmaps[..], h, 0) == EntryOf(mmaps[..], h, i)
      {
        if mmaps[i].handle == h && mmaps[i].ptr != 0 { return Some(i); }
      }
      return None;
    }

    method FindFree() returns (at: Option<nat>)
      requires Valid()
      ensures at == FreeEntry(mmaps[..], 0)
    {
      for i := 0 to MAX_MMAPS
        invariant FreeEntry(mmaps[..], 0) == FreeEntry(mmaps[..], i)
      {
        if mmaps[i].handle == 0 { return Some(i); }
      }
      return None;
    }

    /** The MAP case of uk_drm_virtgpu_file_ioctl. */
    method MapOffset(h: u32, answer: int, mapInfo: u32, undoAnswer: int) returns (offset: u64, rc: int)
      requires Valid()
      modifies this, mmaps, dev.handles, dev.gpu`host, dev.gpu.resources
      ensures Valid() && (State(), offset, rc) == FileMap(old(State()), h, answer, mapInfo, undoAnswer)
    {
      var at := LookupHandle(h);
      if at.Some? { return mmaps[at.value].offset, 0; }
      var bo := dev.LookupBo(h);
      if bo == None || !dev.handles[bo.value].isBlob { return 0, ENOENT; }
      var infoSize := dev.handles[bo.value].size % U32;
      var ptr;
      ptr, rc := dev.MapObject(h, answer, mapInfo, undoAnswer);
      if rc != 0 { return 0, rc; }
      at := FindFree();
      if at == None { return 0, ENOMEM; }
      var size := PageAlign(infoSize);
      offset := nextOffset;
      mmaps[at.value] := Entry(offset, size, h, ptr);
      nextOffset := PageAlign((nextOffset + (if size != 0 then size else PAGE)) % U64);
    }

    /** mmap_remove_handle */
    method Forget(h: u32)
      requires Valid()
      modifies mmaps
      ensures mmaps[..] == RemoveHandle(old(mmaps[..]), h)
    {
      for i := 0 to MAX_MMAPS
        invariant forall k :: 0 <= k < i ==> mmaps[k] == RemoveHandle(old(mmaps[..]), h)[k]
        invariant forall k :: i <= k < MAX_MMAPS ==> mmaps[k] == old(mmaps[k])
      {
        if mmaps[i].handle == h { mmaps[i] := ZERO_ENTRY; }
      }
    }

    /** The GEM_CLOSE case of uk_drm_virtgpu_file_ioctl. */
    method Close(h: u32, unmapAnswer: int, unrefAnswer: int) returns (rc: int)
      requires Valid()
      modifies mmaps, dev.handles, dev.gpu`host, dev.gpu.resources
      ensures (State(), rc) == FileClose(old(State()), h, unmapAnswer, unrefAnswer)
    {
      rc := dev.CloseObject(h, unmapAnswer, unrefAnswer);
      if rc == 0 { Forget(h); }
    }

    /** uk_drm_virtgpu_file_mmap */
    method Resolve(offset: u64, len: u64) returns (addr: u64, rc: int)
      requires Valid()
      ensures (addr, rc) == FileMmap(State(), offset, len)
    {
      if len == 0 { return 0, EINVAL; }
      if And(offset, PAGE - 1) != 0 { return 0, EINVAL; }
      for i := 0 to MAX_MMAPS
        invariant EntryAt(mmaps[..], offset, 0) == EntryAt(mmaps[..], offset, i)
      {
        var e := mmaps[i];
        if e.handle != 0 && e.ptr != 0 && !(offset < e.offset || offset >= (e.offset + e.size) % U64) {
          var delta := offset - e.offset;
          if len > (e.size - delta) % U64 { return 0, EINVAL; }
          return (e.ptr + delta) % U64, 0;
        }
      }
      return 0, ENOENT;
    }
  }
}
