/** struct uk_virtio_gpu_dev: the slot arrays and counters the driver updates in
    place. Every call is proved to do what the table functions in GpuSystem say;
    `answer` parameters are the host's replies to the commands a call sends. */
module GpuDevice {
  import opened Bits
  import opened Errno
  import opened Wrappers
  import opened GpuSystem

  class Gpu {
    const cfg: Config
    const resources: array<Slot>
    const contexts: array<Context>
    var nextRes: u32
    var nextCtx: u32
    var nextOffset: u64
    ghost var host: Host

    ghost predicate Valid() {
      resources.Length == MAX_RESOURCES && contexts.Length == MAX_CONTEXTS
    }

    ghost function State(): System
      reads this, resources, contexts
    {
      System(Device(cfg, resources[..], contexts[..], nextRes, nextCtx, nextOffset), host)
    }

    /** The device after probing (vgpu_add_dev). */
    constructor (cfg: Config)
      ensures Valid() && fresh(resources) && fresh(contexts)
      ensures State() == System(Device(cfg, seq(MAX_RESOURCES, _ => ZERO_SLOT), seq(MAX_CONTEXTS, _ => ZERO_CONTEXT), 1, 1, 0),
                                Host(map[], {}))
    {
      this.cfg := cfg;
      resources := new Slot[MAX_RESOURCES](_ => ZERO_SLOT);
      contexts := new Context[MAX_CONTEXTS](_ => ZERO_CONTEXT);
      nextRes, nextCtx, nextOffset := 1, 1, 0;
      host := Host(map[], {});
    }

    /** find_res */
    method FindResource(id: u32) returns (at: Option<nat>)
      requires Valid()
      ensures at == FindRes(resources[..], id)
    {
      if id == 0 { return None; }
      for i := 0 to MAX_RESOURCES
        invariant FindFrom(resources[..], id, 0) == FindFrom(resources[..], id, i)
      {
        if resources[i].live && resources[i].id == id { return Some(i); }
      }
      return None;
    }

    /** alloc_res: the first free slot, zeroed, gets the next id. */
    method AllocResource() returns (at: Option<nat>)
      requires Valid()
      modifies this`nextRes, resources
      ensures at == FreeFrom(old(resources[..]), 0)
      ensures at == None ==> State() == old(State())
      ensures at.Some? ==>
        && nextRes == (old(nextRes) + 1) % U32
        && resources[..] == old(resources[..])[at.value := ZERO_SLOT.(id := old(nextRes), live := true)]
    {
      for i := 0 to MAX_RESOURCES
        invariant State() == old(State())
        invariant FreeFrom(resources[..], 0) == FreeFrom(resources[..], i)
      {
        if !resources[i].live {
          resources[i] := ZERO_SLOT.(id := nextRes, live := true);
          nextRes := (nextRes + 1) % U32;
          return Some(i);
        }
      }
      return None;
    }

    /** uk_virtio_gpu_gl_blob_create_with_ctx */
    method CreateBlob(size: u64, mem: u32, flags: u32, blobId: u64, blob: Blob, answer: int) returns (blob': Blob, rc: int)
      requires Valid()
      modifies this`nextRes, this`nextOffset, this`host, resources
      ensures Outcome(State(), blob', rc) == BlobCreate(old(State()), size, mem, flags, blobId, blob, answer)
    {
      blob' := blob;
      if size == 0 || blob.created { return blob, EINVAL; }
      if !cfg.resourceBlob { return blob, ENOTSUP; }
      if mem != BLOB_MEM_GUEST && mem != BLOB_MEM_HOST3D && mem != BLOB_MEM_HOST3D_GUEST { return blob, EINVAL; }
      var aligned := AlignedSize(cfg, size);
      if aligned == None { return blob, EOVERFLOW; }
      var at := AllocResource();
      if at == None { return blob, ENOMEM; }
      var i := at.value;
      var id := resources[i].id;
      if answer != 0 {
        resources[i] := ZERO_SLOT;
        return blob, answer;
      }
      host := host.(resources := host.resources[id := None]);
      var offset := nextOffset;
      resources[i] := Slot(id, true, true, true, false, aligned.value, mem, flags, 0, blobId, offset);
      if offset + aligned.value >= U64 {
        resources[i] := ZERO_SLOT;
        return blob, EOVERFLOW;
      }
      nextOffset := offset + aligned.value;
      return Blob(id, mem, flags, 0, blobId, aligned.value, offset, 0, 0, true, false), 0;
    }

    /** uk_virtio_gpu_gl_blob_unmap */
    method UnmapBlob(blob: Blob, answer: int) returns (blob': Blob, rc: int)
      requires Valid()
      modifies this`host, resources
      ensures Outcome(State(), blob', rc) == BlobUnmap(old(State()), blob, answer)
    {
      var at := FindResource(blob.resourceId);
      if at == None { return blob, EINVAL; }
      var i := at.value;
      if !resources[i].isBlob || !resources[i].mapped { return blob, EINVAL; }
      if answer != 0 { return blob, answer; }
      host := host.(resources := host.resources[blob.resourceId := None]);
      resources[i] := resources[i].(mapped := false);
      return blob.(mapped := false, mappedAddr := 0, mappedSize := 0), 0;
    }

    /** uk_virtio_gpu_gl_blob_map */
    method MapBlob(blob: Blob, answer: int, mapInfo: u32, undoAnswer: int) returns (blob': Blob, rc: int)
      requires Valid()
      modifies this`host, resources
      ensures Outcome(State(), blob', rc) == BlobMap(old(State()), blob, answer, mapInfo, undoAnswer)
    {
      var at := FindResource(blob.resourceId);
      if at == None { return blob, EINVAL; }
      var i := at.value;
      if !resources[i].isBlob || resources[i].mapped || !blob.created { return blob, EINVAL; }
      if !Mappable(blob.flags) { return blob, EINVAL; }
      if answer != 0 { return blob, answer; }
      host := host.(resources := host.resources[blob.resourceId := Some(resources[i].offset)]);
      resources[i] := resources[i].(mapInfo := mapInfo);
      resources[i] := resources[i].(mapped := true);
      blob' := blob.(mapInfo := mapInfo, offset := resources[i].offset, mappedSize := blob.size);
      if cfg.windowBase != 0 && (resources[i].offset + blob.size) % U64 <= cfg.windowSize {
        return blob'.(mappedAddr := (cfg.windowBase + resources[i].offset) % U64, mapped := true), 0;
      }
      blob' := blob'.(mapped := true);
      assert resources[..] == old(resources[..])[i := old(resources[..])[i].(mapped := true, mapInfo := mapInfo)];
      var ignored;
      blob', ignored := UnmapBlob(blob', undoAnswer);
      return blob', ENOTSUP;
    }

    /** uk_virtio_gpu_gl_resource_unref */
    method UnrefResource(id: u32, answer: int) returns (rc: int)
      requires Valid()
      modifies this`host, resources
      ensures (State(), rc) == Unref(old(State()), id, answer)
    {
      var at := FindResource(id);
      if at == None { return EINVAL; }
      if answer != 0 { return answer; }
      host := host.(resources := host.resources - {id});
      resources[at.value] := ZERO_SLOT;
      return 0;
    }

    /** uk_virtio_gpu_gl_blob_destroy */
    method DestroyBlob(blob: Blob, answer: int) returns (blob': Blob, rc: int)
      requires Valid()
      modifies this`host, resources
      ensures Outcome(State(), blob', rc) == BlobDestroy(old(State()), blob, answer)
    {
      if !blob.created || blob.mapped { return blob, EINVAL; }
      rc := UnrefResource(blob.resourceId, answer);
      if rc != 0 { return blob, EINVAL; }
      return ZERO_BLOB, 0;
    }

    method FindContext(id: u32) returns (at: Option<nat>)
      requires Valid()
      ensures at == FindCtx(contexts[..], id)
    {
      if id == 0 { return None; }
      for i := 0 to MAX_CONTEXTS
        invariant FindCtxFrom(contexts[..], id, 0) == FindCtxFrom(contexts[..], id, i)
      {
        if contexts[i].live && contexts[i].id == id { return Some(i); }
      }
      return None;
    }

    method AllocContext() returns (at: Option<nat>)
      requires Valid()
      modifies this`nextCtx, contexts
      ensures at == FreeCtxFrom(old(contexts[..]), 0)
      ensures at == None ==> State() == old(State())
      ensures at.Some? ==>
        && nextCtx == (old(nextCtx) + 1) % U32
        && contexts[..] == old(contexts[..])[at.value := Context(old(nextCtx), 0, true)]
    {
      for i := 0 to MAX_CONTEXTS
        invariant State() == old(State())
        invariant FreeCtxFrom(contexts[..], 0) == FreeCtxFrom(contexts[..], i)
      {
        if !contexts[i].live {
          contexts[i] := Context(nextCtx, 0, true);
          nextCtx := (nextCtx + 1) % U32;
          return Some(i);
        }
      }
      return None;
    }

    /** uk_virtio_gpu_gl_context_create */
    method CreateContext(capset: u32, ctx: ContextRecord, answer: int) returns (ctx': ContextRecord, rc: int)
      requires Valid()
      modifies this`nextCtx, this`host, contexts
      ensures Outcome(State(), ctx', rc) == ContextCreate(old(State()), capset, ctx, answer)
    {
      if capset == 0 { return ctx, EINVAL; }
      if !cfg.virgl { return ctx, ENOTSUP; }
      if cfg.contextInit && capset !in cfg.capsets { return ctx, EINVAL; }
      var at := AllocContext();
      if at == None { return ctx, ENOMEM; }
      var i := at.value;
      contexts[i] := contexts[i].(capset := capset);
      if answer != 0 {
        contexts[i] := ZERO_CONTEXT;
        return ctx, answer;
      }
      host := host.(contexts := host.contexts + {contexts[i].id});
      return ContextRecord(contexts[i].id, capset, true), 0;
    }

    /** uk_virtio_gpu_gl_context_destroy */
    method DestroyContext(ctx: ContextRecord, answer: int) returns (ctx': ContextRecord, rc: int)
      requires Valid()
      modifies this`host, contexts
      ensures Outcome(State(), ctx', rc) == ContextDestroy(old(State()), ctx, answer)
    {
      var at := FindContext(ctx.id);
      if at == None { return ctx, EINVAL; }
      if answer != 0 { return ctx, answer; }
      host := host.(contexts := host.contexts - {contexts[at.value].id});
      contexts[at.value] := ZERO_CONTEXT;
      return ctx.(created := false), 0;
    }

    /** ctx_resource, for attach and detach */
    method AttachDetach(ctx: ContextRecord, id: u32, answer: int) returns (rc: int)
      requires Valid()
      ensures rc == ContextResource(State(), ctx, id, answer)
    {
      var c := FindContext(ctx.id);
      var r := FindResource(id);
      if c == None || r == None { return EINVAL; }
      return answer;
    }
  }
}
