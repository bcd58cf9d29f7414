/** The g_hv_mem table and the handle counter as the dispatch keeps them, over the
    device whose blobs the exported memories use; each stub is proved to do what
    the functions of HostMemory say. */
module HostMemoryDevice {
  import opened Bits
  import opened Rounding
  import opened Wrappers
  import opened GpuSystem
  import opened GpuDevice
  import opened BlobLifecycle
  import opened HostMemory
  import BufferSizes

  class MemoryTable {
    const used: array<bool>
    const handles: array<u64>
    const blobs: array<Blob>
    var nextHandle: u64
    const gpu: Gpu

    ghost predicate Valid() {
      && used.Length == handles.Length == blobs.Length == SLOTS
      && gpu.Valid()
    }

    ghost function View(): Memory
      reads this, used, handles, blobs, gpu, gpu.resources, gpu.contexts
    {
      Memory(used[..], handles[..], blobs[..], nextHandle, gpu.State())
    }

    constructor (gpu: Gpu)
      requires gpu.Valid()
      ensures Valid() && this.gpu == gpu && fresh(used) && fresh(handles) && fresh(blobs)
      ensures used[..] == seq(SLOTS, _ => false) && blobs[..] == seq(SLOTS, _ => ZERO_BLOB)
      ensures nextHandle == BufferSizes.FIRST_DYNAMIC
    {
      used := new bool[SLOTS](_ => false);
      handles := new u64[SLOTS](_ => 0);
      blobs := new Blob[SLOTS](_ => ZERO_BLOB);
      nextHandle := BufferSizes.FIRST_DYNAMIC;
      this.gpu := gpu;
    }

    /** uk_hv_mem_find */
    method FindMemory(h: u64) returns (at: Option<nat>)
      requires Valid()
      ensures at == Find(View(), h, 0)
    {
      for i := 0 to SLOTS
        invariant Find(View(), h, i) == Find(View(), h, 0)
      {
        if used[i] && handles[i] == h { return Some(i); }
      }
      return None;
    }

    method FindFree() returns (at: Option<nat>)
      requires Valid()
      ensures at == FreeSlot(used[..], 0)
    {
      for i := 0 to SLOTS
        invariant FreeSlot(used[..], i) == FreeSlot(used[..], 0)
      {
        if !used[i] { return Some(i); }
      }
      return None;
    }

    /** The calls both stubs make to get rid of a blob. */
    method ReleaseBlob(b: Blob, a: Answers) returns (b': Blob)
      requires Valid()
      modifies gpu`host, gpu.resources
      ensures var out := Release(old(gpu.State()), b, a.unmap, a.unref); gpu.State() == out.sys && b' == out.record
    {
      b' := b;
      var ignored;
      if b'.mapped { b', ignored := gpu.UnmapBlob(b', a.unmap); }
      if b'.created { b', ignored := gpu.DestroyBlob(b', a.unref); }
    }

    /** Blob, mapping and attachment of stub_vkAllocateMemory */
    method ExportMemory(ctx: ContextRecord, size: u64, h: u64, a: Answers) returns (b: Blob, ok: bool)
      requires Valid()
      modifies gpu`nextRes, gpu`nextOffset, gpu`host, gpu.resources
      ensures (gpu.State(), b, ok) == Export(old(gpu.State()), ctx, size, h, a)
    {
      var rc;
      b, rc := gpu.CreateBlob(size, BLOB_MEM_HOST3D, BLOB_FLAG_USE_MAPPABLE, h, ZERO_BLOB, a.create);
      if rc == 0 { b, rc := gpu.MapBlob(b, a.mapBlob, a.mapInfo, a.undoMap); }
      if rc == 0 && b.mappedAddr != 0 {
        rc := gpu.AttachDetach(ctx, b.resourceId, a.attach);
        if rc == 0 { return b, true; }
      }
      b := ReleaseBlob(b, a);
      return ZERO_BLOB, false;
    }

    /** stub_vkAllocateMemory */
    method AllocateMemory(ctx: ContextRecord, sz: u64, exportable: bool, a: Answers) returns (h: u64)
      requires Valid()
      modifies this, used, handles, blobs, gpu`nextRes, gpu`nextOffset, gpu`host, gpu.resources
      ensures (View(), h) == Allocate(old(View()), ctx, sz, exportable, a)
    {
      h := nextHandle;
      nextHandle := (nextHandle + 1) % U64;
      if !exportable || sz == 0 { return; }
      var at := FindFree();
      if at == None { return; }
      var r := at.value;
      blobs[r] := ZERO_BLOB;
      assert blobs[..] == old(blobs[..])[r := ZERO_BLOB];
      if !a.submitted { return; }
      var b, ok := ExportMemory(ctx, PageAlign(sz), h, a);
      blobs[r] := b;
      assert blobs[..] == old(blobs[..])[r := b];
      if ok {
        handles[r] := h;
        used[r] := true;
        assert used[..] == old(used[..])[r := true] && handles[..] == old(handles[..])[r := h];
      }
    }

    /** stub_vkFreeMemory */
    method FreeMemory(h: u64, a: Answers)
      requires Valid()
      modifies used, blobs, gpu`host, gpu.resources
      ensures View() == Free(old(View()), h, a)
    {
      var at := FindMemory(h);
      if at == None { return; }
      var r := at.value;
      var b := ReleaseBlob(blobs[r], a);
      blobs[r] := b;
      used[r] := false;
      assert blobs[..] == old(blobs[..])[r := b] && used[..] == old(used[..])[r := false];
    }

    /** stub_vkMapMemory */
    method Map(h: u64, offset: u64) returns (p: Pointer)
      requires Valid()
      ensures p == MapMemory(View(), h, offset)
    {
      var at := FindMemory(h);
      if at.Some? && blobs[at.value].mappedAddr != 0 {
        return Mapped((blobs[at.value].mappedAddr + offset) % U64);
      }
      return Staging(And(offset, STAGING_SIZE - 1));
    }
  }
}
