/** The ladders on the device object, label by label. */
module RingDevice {
  import opened Bits
  import opened Errno
  import opened GpuSystem
  import opened GpuDevice
  import opened RingLifecycle

  /** From blob_create on, in both creates: the labels err_unmap and err_blob
      undo what was acquired. */
  method Acquire(gpu: Gpu, ctx: ContextRecord, size: u64, blobId: u64, a: Answers) returns (blob: Blob, rc: int)
    requires gpu.Valid()
    modifies gpu`nextRes, gpu`nextOffset, gpu`host, gpu.resources
    ensures Outcome(gpu.State(), blob, rc) == AcquireBlob(old(gpu.State()), ctx, size, blobId, a)
  {
    hide BlobCreate, BlobMap, BlobUnmap, BlobDestroy, ContextResource;
    blob, rc := gpu.CreateBlob(size, BLOB_MEM_HOST3D, BLOB_FLAG_USE_MAPPABLE, blobId, ZERO_BLOB, a.blobCreate);
    if rc != 0 { return ZERO_BLOB, rc; }
    var ignored;
    blob, rc := gpu.MapBlob(blob, a.mapBlob, a.mapInfo, a.undoMap);
    if rc == 0 {
      if blob.mappedAddr == 0 || blob.mappedSize < size {
        rc := ENOTSUP;
      } else {
        rc := gpu.AttachDetach(ctx, blob.resourceId, a.attach);
        if rc == 0 { return; }
      }
      blob, ignored := gpu.UnmapBlob(blob, a.unmap);
    }
    blob, ignored := gpu.DestroyBlob(blob, a.unref);
    return ZERO_BLOB, rc;
  }

  /** uk_venus_ring_create */
  method Create(gpu: Gpu, ring: RingRecord, size: u64, blobId: u64, a: Answers) returns (ring': RingRecord, rc: int)
    requires gpu.Valid()
    modifies gpu, gpu.resources, gpu.contexts
    ensures Outcome(gpu.State(), ring', rc) == RingCreate(old(gpu.State()), ring, size, blobId, a)
  {
    hide AcquireBlob, ContextCreate, ContextDestroy;
    if size == 0 { return ring, EINVAL; }
    if ring.ready || ring.ctx.created || ring.blob.created { return ring, EINVAL; }
    if !HasRingFeatures(gpu.cfg) { return ring, ENOTSUP; }
    var ctx, blob, ignored;
    ctx, rc := gpu.CreateContext(VENUS_CAPSET, NO_CONTEXT, a.contextCreate);
    if rc != 0 { return ZERO_RING, rc; }
    blob, rc := Acquire(gpu, ctx, size, blobId, a);
    if rc == 0 { return RingRecord(ctx, false, blob, blob.mappedAddr, size, true), 0; }
    ctx, ignored := gpu.DestroyContext(ctx, a.contextDestroy);
    return ZERO_RING, rc;
  }

  /** uk_venus_ring_create_on_ctx */
  method CreateOnContext(gpu: Gpu, ring: RingRecord, ctx: ContextRecord, size: u64, a: Answers)
    returns (ring': RingRecord, rc: int)
    requires gpu.Valid()
    modifies gpu`nextRes, gpu`nextOffset, gpu`host, gpu.resources
    ensures Outcome(gpu.State(), ring', rc) == RingCreateOnContext(old(gpu.State()), ring, ctx, size, a)
  {
    hide AcquireBlob;
    if size == 0 { return ring, EINVAL; }
    if ring.ready || ring.blob.created { return ring, EINVAL; }
    if !HasRingFeatures(gpu.cfg) { return ring, ENOTSUP; }
    var blob;
    blob, rc := Acquire(gpu, ctx, size, 0, a);
    if rc != 0 { return ZERO_RING, rc; }
    return RingRecord(ctx, true, blob, blob.mappedAddr, size, true), 0;
  }

  /** uk_venus_ring_destroy */
  method Destroy(gpu: Gpu, ring: RingRecord, a: Answers) returns (ring': RingRecord)
    requires gpu.Valid()
    modifies gpu`host, gpu.resources, gpu.contexts
    ensures ring' == ZERO_RING && gpu.State() == RingDestroy(old(gpu.State()), ring, a)
  {
    hide BlobUnmap, BlobDestroy, ContextResource, ContextDestroy;
    var ignored, ctx;
    if ring.ctx.created && ring.blob.created {
      ignored := gpu.AttachDetach(ring.ctx, ring.blob.resourceId, a.detach);
    }
    var blob := ring.blob;
    if blob.mapped { blob, ignored := gpu.UnmapBlob(blob, a.unmap); }
    if blob.created { blob, ignored := gpu.DestroyBlob(blob, a.unref); }
    if ring.ctx.created && !ring.borrowedCtx { ctx, ignored := gpu.DestroyContext(ring.ctx, a.contextDestroy); }
    return ZERO_RING;
  }
}
