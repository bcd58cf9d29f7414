# Verified model of the VirtIO-GPU / Venus / Vulkan guest stack

A Dafny 4.11 model of the guest side of a paravirtualised GPU: the Venus
command ring, the VirtIO-GPU driver's resource tables and host-visible
windows, the DRM translator and its mmap registry, the Vulkan dispatch with
its command batching and tables, and the generated Venus encoders. Check it
with `dafny verify dfyconfig.toml`.

## How it is built

Each stateful component appears three times: as functions on values, which
state what one call does with the branches, constants and integer widths of the
C code; as lemmas on runs of those functions, which are the results; and as a
class with the original's fields and loops whose methods are proved to do
exactly what the functions say.

| Component | Functions and results | Objects |
|---|---|---|
| 32-bit and 64-bit arithmetic, masks, rounding, byte order | `Bits.dfy`, `Rounding.dfy`, `LittleEndian.dfy` | |
| Venus command ring | `RingProtocol.dfy` | `VenusRing.dfy` |
| Blobs, resources, contexts | `GpuSystem.dfy`, `BlobLifecycle.dfy`, `Transfer3d.dfy` | `GpuDevice.dfy` |
| Ring create and destroy ladders | `RingLifecycle.dfy`, `RingRuns.dfy` | `RingDevice.dfy` |
| DRM handles, mmap registry | `DrmHandles.dfy`, `DrmMmap.dfy` | `DrmDevice.dfy` |
| Encoder, command batching, ring mode | `VenusEncoder.dfy`, `Dispatch.dfy`, `RingDispatch.dfy` | `VenusEncoder.dfy`, `DispatchDevice.dfy` |
| Exported memories, buffer sizes | `HostMemory.dfy`, `BufferSizes.dfy` | `HostMemoryDevice.dfy`, `BufferSizes.dfy` |
| pNext chains | `WireChain.dfy`, `MemoryAllocateInfo.dfy`, `BufferCreateInfo.dfy`, `DescriptorSetLayout.dfy` | `WireChain.dfy`, `ReplyDecoder.dfy` |
| virgl stream, memory properties | `VirglStream.dfy`, `MemoryProperties.dfy` | the same |

The host is a second table driven by the same commands. It answers each command
with 0 or an error and executes it exactly when it answers 0; its answers are
parameters of the calls and arbitrary. Over the ring the host advances the head
by any amount up to the published tail, between any two steps of the guest.
Bitwise operators are defined on naturals, digit by digit, and proved equal to
the remainders and roundings the code uses them for.

Resource, context and memory ids come from counters that wrap. A run is asked
only that each create finds a counter that is neither zero nor in use
(`FreshRun` and its versions in the layers above); `NextIdGood` says that this is
exactly when ids stay unique, and `ShortRunsAreFresh` that it holds for as long
as a counter has not wrapped.

## What the code does beyond its comments

These are proved as stated; the code was kept as it is.

- `uk_virtio_gpu_gl_blob_create_with_ctx` can fail with EOVERFLOW after the host
  has made the resource, which the guest then forgets. This is the only way a
  run of blob calls leaves a host resource without a guest slot
  (`BlobLifecycle.NoOrphansIffNoneLost`); two blobs of 2^63 bytes do it on any
  fresh device (`BlobLifecycle.SecondHalfIsLost`).
- `resource_size_bytes` records a size modulo 2^64; exact if and only if the true
  size fits (`Transfer3d.RecordedSizeExact`, `Transfer3d.RecordedSizeCanWrap`).
- `validate_xfer_3d` equals the unbounded-integer condition in every case,
  defaulted strides included (`Transfer3d.AcceptsIffSound`).
- An mmap entry stays inside its object's blob for every object size if and only
  if the negotiated alignment is at least a page (`DrmMmap.EntryFitsIffAligned`);
  with byte alignment a page can be mapped of a blob of one byte
  (`DrmMmap.OneByteMapsPage`).
- MAP hands the registry the object's size cut to 32 bits: the whole object can
  be mmapped if and only if it is smaller than 4 GiB
  (`DrmMmap.WholeObjectMapsIffSmall`); one of exactly 4 GiB cannot, on any fresh
  device whose region holds it (`DrmMmap.FourGigabytesDoNotMap`).
- The mmap registry can never be full and its counter never comes near 2^64: at
  most 256 handles ever exist (`DrmMmap.MapNeverRunsOutOfEntries`).
- A Begin inside an open window discards what the window had recorded; with
  commands of the intended size nothing else is ever lost (`Dispatch.SizedRuns`,
  `Dispatch.NestedBeginDrops`).
- A buffer of size 0, or above 2^64 - 4096, reports the 64 MiB fallback
  (`BufferSizes.RecentBufferReported`); vkGetBufferMemoryRequirements2 always
  reports it (`BufferSizes.Requirements2AlwaysFallsBack`).
- Pointers into two live memories coincide if and only if neither was exported
  and their offsets agree modulo the staging buffer's size
  (`HostMemory.PointersCoincideIff`); two device-local allocations are one buffer
  (`HostMemory.TwoLocalMemoriesAlias`).
- `uk_venus_query_memory_properties` promises that on failure the caller keeps
  its default. A host that reports more than 16 heaps makes it fail after the
  memory types have been written (`MemoryProperties.TooManyHeapsOverwritesResult`);
  of the replies that can arrive, no others do (`MemoryProperties.FullReplyOutcomes`).
- In ring mode the dispatch ignores the ring's refusals and the encoder's
  overflow flag: a command is dropped exactly if it does not fit the ring at its
  turn (`RingDispatch.RingCarries`), so one longer than the ring always is
  (`RingDispatch.OversizeIsDropped`, `RingDispatch.LongCommandIsDropped`), and of
  one too long for the encode buffer the host reads a truncated beginning
  (`RingDispatch.TruncatedCommandEntersRing`).
- A ring create can lose its blob to the host in the late branch of blob create;
  with a host that accepts releases rings leave nothing else behind
  (`RingLifecycle.FailedRingCreate`, `RingRuns.NothingLeftBehindIff`).

## Model

| member | source | states |
|---|---|---|
| `Bits.LargestPow2` | libs/libukvulkan_venus/venus_init.c:422-432 | for every non-zero 32-bit n the result is a power of two, at most n, and no larger power of two is |
| `RingProtocol.AvailIsFree` | libs/libukvulkan_venus/venus_init.c:571-574 | the free space computed from three 32-bit words is the buffer size less the unbounded backlog |
| `RingProtocol.CopyIndexIsCell` | libs/libukvulkan_venus/venus_init.c:575-584 | each byte of a write, split or not, goes to the cell of its unbounded index modulo the buffer size |
| `RingProtocol.ConsumedIsPrefixOfAccepted` | libs/libukvulkan_venus/venus_init.c:558-614 | in every interleaving of writes, flushes and host reads the bytes consumed are a prefix of the bytes accepted, never past the published tail, and the backlog fits the buffer |
| `RingProtocol.UnconsumedNeverOverwritten` | libs/libukvulkan_venus/venus_init.c:567-586 | no step of any run changes the cell of a byte that is accepted and not yet consumed |
| `RingProtocol.WriteAcceptedIffFits` | libs/libukvulkan_venus/venus_init.c:567-574 | a write is accepted if and only if it is non-empty and fits what the host has consumed so far |
| `RingProtocol.WholeWrite` | libs/libukvulkan_venus/venus_init.c:558-588 | the byte-by-byte write, undisturbed, is the whole write: data in its cells, all other cells and the shared words unchanged |
| `RingProtocol.FlushThenConsumeDeliversAll` | libs/libukvulkan_venus/venus_init.c:598-614 | after a flush the host can read everything accepted and nothing less |
| `RingProtocol.EqualWordsMeanDrained` | libs/libukvulkan_venus/venus_init.c:652-676 | in every run the 32-bit head and private tail are equal if and only if every accepted byte has been consumed |
| `RingProtocol.DrainedStaysDrained` | libs/libukvulkan_venus/venus_init.c:652-676 | while the guest only polls, no host step undoes a drained ring |
| `RingProtocol.WaitMeansConsumed` | libs/libukvulkan_venus/venus_init.c:652-676 | when any load of the shared head by a wait equals the private tail, at whatever point of the host's steps it happens, everything accepted since register has been consumed by then, and still is afterwards |
| `VenusRing.DataAreaSize` | libs/libukvulkan_venus/venus_init.c:467-480 | the data area is the largest power of two in the room cut to 32 bits, and fits the whole room; zero if and only if the cut room is zero |
| `VenusRing.SpaceCheck` | libs/libukvulkan_venus/venus_init.c:571-576 | with the backlog in bounds the 32-bit subtraction does not wrap, the masked offset is inside the buffer, and offset plus length cannot wrap |
| `VenusRing.WriteFits` | libs/libukvulkan_venus/venus_init.c:567-576 | a write that passes the space check fits the buffer and starts inside it, even for a head the host has moved anywhere when the data is no longer than the buffer |
| `VenusRing.CmdWriteRefinesProtocol` | libs/libukvulkan_venus/venus_init.c:558-588 | a successful write call ends in exactly the ring the protocol's write events produce |
| `VenusRing.CommandRing.Register` | libs/libukvulkan_venus/venus_init.c:451-510 | the exact code; on success the protocol's initial state with a data area inside the blob and the ring's id recorded; on a refusal nothing is registered; the control words are zeroed as soon as the arguments pass, whatever the host answers |
| `VenusRing.CommandRing.Unregister` | libs/libukvulkan_venus/venus_init.c:515-545 | returns 0 whatever the host answers, and ring id, size, mask and tail are cleared |
| `VenusRing.CommandRing.LoadHead` | libs/libukvulkan_venus/venus_init.c:434-442 | the shared head, or 0 outside protocol mode |
| `VenusRing.CommandRing.CmdWrite` | libs/libukvulkan_venus/venus_init.c:558-588 | the exact return code; on success the bytes in their cells, the private tail advanced modulo 2^32 and every other byte of the blob unchanged; on refusal nothing changed |
| `VenusRing.CommandRing.CmdFlush` | libs/libukvulkan_venus/venus_init.c:598-638 | the shared tail becomes the private tail even when the notification fails, whose answer is returned; every other byte of the blob, the private tail and the registration are unchanged |
| `VenusRing.CommandRing.CmdWait` | libs/libukvulkan_venus/venus_init.c:652-676 | 0 only at the first poll that sees the private tail; a finite bound uses at most bound + 1 polls and times out only after that many misses |
| `Transfer3d.AcceptsIffSound` | libs/libukvirtio_gpu/virtio_gpu_real.c:739-771 | the 64-bit check accepts a transfer if and only if, in unbounded integers, its strides hold its rows and layers and its last byte lies below the resource size |
| `Transfer3d.AcceptedBytesInside` | libs/libukvirtio_gpu/virtio_gpu_real.c:739-771 | every (layer, row, byte) of an accepted transfer is at or after its offset and below the resource size |
| `Transfer3d.AcceptedBytesDistinct` | libs/libukvirtio_gpu/virtio_gpu_real.c:753-763 | different positions of an accepted transfer are different bytes |
| `Transfer3d.AcceptedProductDidNotWrap` | libs/libukvirtio_gpu/virtio_gpu_real.c:762-763 | the unchecked product has not wrapped for any accepted transfer |
| `Transfer3d.RecordedSizeExact` | libs/libukvirtio_gpu/virtio_gpu_real.c:196-200 | the recorded size is the true size if and only if that fits 64 bits |
| `Transfer3d.RecordedSizeCanWrap` | libs/libukvirtio_gpu/virtio_gpu_real.c:196-200 | a concrete resource recorded with size 0 |
| `GpuDevice.Gpu.FindResource` | libs/libukvirtio_gpu/virtio_gpu_real.c:207-216 | the scan returns the first live slot with the id |
| `GpuDevice.Gpu.CreateBlob` | libs/libukvirtio_gpu/virtio_gpu_real.c:1046-1118 | the new tables, counters, record and code of every branch, the late overflow branch included |
| `GpuDevice.Gpu.MapBlob` | libs/libukvirtio_gpu/virtio_gpu_real.c:1129-1174 | the same for map, with the undo of a mapping outside the region |
| `GpuDevice.Gpu.UnmapBlob` | libs/libukvirtio_gpu/virtio_gpu_real.c:1176-1201 | the same for unmap |
| `GpuDevice.Gpu.DestroyBlob` | libs/libukvirtio_gpu/virtio_gpu_real.c:1203-1212 | the same for destroy, refused while mapped |
| `GpuDevice.Gpu.CreateContext` | libs/libukvirtio_gpu/virtio_gpu_real.c:894-934 | the new context table, counter, record and code of every branch |
| `GpuDevice.Gpu.DestroyContext` | libs/libukvirtio_gpu/virtio_gpu_real.c:936-955 | the context leaves both tables exactly when the host accepts |
| `GpuDevice.Gpu.AttachDetach` | libs/libukvirtio_gpu/virtio_gpu_real.c:957-984 | EINVAL unless context and resource are live, else the host's answer; no table changes |
| `BlobLifecycle.NegotiatedIsPow2` | libs/libukvirtio_gpu/virtio_gpu_real.c:1281-1290 | whatever the device reports, the alignment in force is a power of two |
| `BlobLifecycle.AlignedSizeIsLeastMultiple` | libs/libukvirtio_gpu/virtio_gpu_real.c:1066-1077 | the size after masking is the least multiple of the alignment that covers the request; refused exactly when it would wrap |
| `BlobLifecycle.FindUnique` | libs/libukvirtio_gpu/virtio_gpu_real.c:207-216 | with the invariant the scan finds the one slot that holds an id |
| `BlobLifecycle.NextIdGood` | libs/libukvirtio_gpu/virtio_gpu_real.c:218-230 | handing out the next id keeps ids non-zero and unique if and only if the 32-bit counter is neither zero nor the id of a live resource |
| `BlobLifecycle.ShortRunsAreFresh` | libs/libukvirtio_gpu/virtio_gpu_real.c:218-230 | every create of a run finds a fresh id as long as the 32-bit counter does not wrap |
| `BlobLifecycle.CreatedBlob` | libs/libukvirtio_gpu/virtio_gpu_real.c:1079-1117 | a successful create takes a fresh id, the least aligned size and the window right behind all earlier ones |
| `BlobLifecycle.FailedCreate` | libs/libukvirtio_gpu/virtio_gpu_real.c:1079-1117 | a failed create changes no slot and no record; the host keeps the resource in exactly one case |
| `BlobLifecycle.MapCall` | libs/libukvirtio_gpu/virtio_gpu_real.c:1129-1174 | success if and only if unmapped, mappable, accepted and inside the region; then the address is region base plus offset without wrap; else all sides agree |
| `BlobLifecycle.UnmapCall` | libs/libukvirtio_gpu/virtio_gpu_real.c:1176-1201 | record, slot and host lose the mapping together or not at all |
| `BlobLifecycle.DestroyCall` | libs/libukvirtio_gpu/virtio_gpu_real.c:1203-1212 | success if and only if unmapped and accepted; then slot, host entry and record are gone, else nothing changed |
| `BlobLifecycle.RunKeepsInv` | libs/libukvirtio_gpu/virtio_gpu_real.c:207-230 | records, slots, windows and host table stay in order over every run of creates, maps, unmaps and destroys with any answers, as long as creates find fresh ids |
| `BlobLifecycle.RecordsSlotsHostAgree` | libs/libukvirtio_gpu/virtio_gpu_real.c:1046-1212 | in every run a created record has a live slot and a live host resource, and all three agree on mapped and on the offset |
| `BlobLifecycle.WindowsNeverOverlap` | libs/libukvirtio_gpu/virtio_gpu_real.c:1100-1117 | in every run of any length, windows of any two blobs ever created are disjoint and below 2^64, offsets and sizes are multiples of the alignment, and each size is the least multiple that covers its request |
| `BlobLifecycle.MappingsNeverAlias` | libs/libukvirtio_gpu/virtio_gpu_real.c:1155-1165 | two mapped blobs never share an address, and each mapping lies inside the host-visible region |
| `BlobLifecycle.LiveChange` | libs/libukvirtio_gpu/virtio_gpu_real.c:1079-1212 | exactly which id each call makes live or releases |
| `BlobLifecycle.FailedCallKeepsLive` | libs/libukvirtio_gpu/virtio_gpu_real.c:1079-1212 | a failed call makes no resource live and loses none |
| `BlobLifecycle.NoOrphansIffNoneLost` | libs/libukvirtio_gpu/virtio_gpu_real.c:1100-1112 | at the end of a run every host resource has a guest slot if and only if no create overflowed the window counter after the host's OK |
| `BlobLifecycle.SecondHalfIsLost` | libs/libukvirtio_gpu/virtio_gpu_real.c:1100-1112 | on every fresh device with blobs two accepted creates of 2^63 bytes leave the host with a resource no guest slot names |
| `RingLifecycle.FailedRingCreate` | libs/libukvulkan_venus/venus_init.c:249-339 | a create that fails at any stage, with a host that accepts releases, leaves the tables of guest and host as they were and the ring zero or untouched; the host has one resource more if and only if the create got as far as the blob, the host made it, and the size runs past the 64-bit window counter |
| `RingLifecycle.FailedRingCreateOnContext` | libs/libukvulkan_venus/venus_init.c:173-247 | the same with a borrowed context, which no outcome touches |
| `RingLifecycle.CreateThenDestroy` | libs/libukvulkan_venus/venus_init.c:249-358 | create followed by destroy restores the tables of both sides |
| `RingLifecycle.CreateOnContextThenDestroy` | libs/libukvulkan_venus/venus_init.c:173-247 | the same for a ring on a borrowed context, which stays live |
| `RingLifecycle.ContextCreateCall` | libs/libukvirtio_gpu/virtio_gpu_real.c:894-934 | a context create keeps context ids unique and both sides in agreement, and makes exactly its id live if the host accepts |
| `RingLifecycle.ContextDestroyCall` | libs/libukvirtio_gpu/virtio_gpu_real.c:936-955 | a context destroy keeps them too, and takes exactly its id away if the host accepts |
| `RingRuns.RingsInitialOk` | libs/libukvulkan_venus/venus_init.c:249-358 | a freshly probed device with ring records that are zero satisfies the invariant of the runs |
| `RingRuns.RingRunKeepsOk` | libs/libukvulkan_venus/venus_init.c:173-358 | over every run of creates, creates on a borrowed context and destroys, with any answers, the resource and context tables of both sides stay in order, each ring is zero or stands, and no two share a blob or own one context |
| `RingRuns.NothingLeftBehindIff` | libs/libukvulkan_venus/venus_init.c:173-358 | with a host that accepts releases, whatever else lives on the device, a run adds to either side exactly the blobs and contexts of the rings that stand at its end, if and only if no create of the run lost its blob to the window counter |
| `RingRuns.ShortRingRunsAreFresh` | libs/libukvulkan_venus/venus_init.c:173-358 | the ids a run takes are fresh as long as neither 32-bit counter wraps |
| `RingDevice.Acquire` | libs/libukvulkan_venus/venus_init.c:200-247 | the shared stages on the device: tables, record and code of every branch, with the undo of each |
| `RingDevice.Create` | libs/libukvulkan_venus/venus_init.c:249-339 | the ladder on the device |
| `RingDevice.CreateOnContext` | libs/libukvulkan_venus/venus_init.c:173-247 | the ladder on a borrowed context |
| `RingDevice.Destroy` | libs/libukvulkan_venus/venus_init.c:341-358 | blob and own context are released, and the record is zeroed whatever the host answers |
| `DrmHandles.DrmRunKeepsInv` | libs/libukvirtgpu_drm/drm_virtgpu.c:23-58 | the object table and the blob layer below stay in agreement over every run |
| `DrmHandles.ShortDrmRunsAreFresh` | libs/libukvirtio_gpu/virtio_gpu_real.c:218-230 | every create of a run over the object table finds a fresh resource id as long as that counter does not wrap |
| `DrmHandles.LiveHandles` | libs/libukvirtgpu_drm/drm_virtgpu.c:23-46 | in every run a handle is found if and only if its slot holds an object; it is the index plus one, at most the counter, and its resource is live |
| `DrmHandles.CreateKeepsDrm` | libs/libukvirtgpu_drm/drm_virtgpu.c:167-204 | a failed create leaves the object table and the counter as they were |
| `DrmHandles.CloseCloses` | libs/libukvirtgpu_drm/drm_virtgpu.c:273-289 | close succeeds if and only if the handle is found, and then closes it whatever the host answers |
| `DrmHandles.ClosedStaysClosed` | libs/libukvirtgpu_drm/drm_virtgpu.c:23-46 | a closed handle is never found again and no later create returns it |
| `DrmHandles.ReleaseEffect` | libs/libukvirtgpu_drm/drm_virtgpu.c:48-60 | releasing an object takes exactly its resource off both tables if the host accepts the commands that takes, and changes no resource otherwise |
| `DrmHandles.SweepReleasesAccepted` | libs/libukvirtgpu_drm/drm_virtgpu.c:368-383 | for any answers, device close takes off both tables exactly the resources of the live objects whose release the host accepts |
| `DrmHandles.SweepReleasesAll` | libs/libukvirtgpu_drm/drm_virtgpu.c:368-383 | with a host that accepts, device close releases every object still live and nothing else |
| `DrmDevice.Device.CreateObject` | libs/libukvirtgpu_drm/drm_virtgpu.c:167-204 | new table, handle and code of every branch, rollback included |
| `DrmDevice.Device.MapObject` | libs/libukvirtgpu_drm/drm_virtgpu.c:237-262 | the cached or new address of the object's mapping |
| `DrmDevice.Device.CloseObject` | libs/libukvirtgpu_drm/drm_virtgpu.c:273-289 | lookup, release, and the code |
| `DrmDevice.Device.CloseAll` | libs/libukvirtgpu_drm/drm_virtgpu.c:368-383 | the sweep over all handles given out |
| `DrmMmap.FileRunKeepsInv` | libs/libukvirtgpu_drm/drm_virtgpu_fdio.c:80-136 | registry, object table and blob layer agree over every run of create, MAP, GEM_CLOSE, and maps that reach the translator under another request code |
| `DrmMmap.ShortFileRunsAreFresh` | libs/libukvirtio_gpu/virtio_gpu_real.c:218-230 | the same for runs of create, MAP and GEM_CLOSE |
| `DrmMmap.RegistryInOrder` | libs/libukvirtgpu_drm/drm_virtgpu_fdio.c:24-54 | entries are page-aligned, pairwise disjoint, at most one a handle, below the counter, which stays far from 2^64 |
| `DrmMmap.MapNeverRunsOutOfEntries` | libs/libukvirtgpu_drm/drm_virtgpu_fdio.c:86-125 | MAP succeeds if and only if the handle has an entry or mapping the object succeeds |
| `DrmMmap.MmapResolves` | libs/libukvirtgpu_drm/drm_virtgpu_fdio.c:138-164 | mmap succeeds if and only if one entry covers the aligned, non-empty request, and then gives that entry's address moved by the distance |
| `DrmMmap.ResolvedInsideObject` | libs/libukvirtgpu_drm/drm_virtgpu_fdio.c:138-164 | in every run the results of an entry stay inside its own object's mapping, for every request the entry covers, if and only if the entry is no larger than the object's blob |
| `DrmMmap.EntryFitsIffAligned` | libs/libukvirtgpu_drm/drm_virtgpu_fdio.c:99-121 | entries fit their blobs for all object sizes if and only if the alignment is at least a page |
| `DrmMmap.OneByteMapsPage` | libs/libukvirtgpu_drm/drm_virtgpu_fdio.c:99-121 | a run with byte alignment after which a page is mapped of an object whose blob is one byte |
| `DrmMmap.WholeObjectMapsIffSmall` | libs/libukvirtgpu_drm/drm_virtgpu_fdio.c:99-121 | after MAP the whole object can be mmapped if and only if its size is below 2^32 |
| `DrmMmap.FourGigabytesDoNotMap` | libs/libukvirtgpu_drm/drm_virtgpu_fdio.c:99-121 | a run, on every fresh device whose region holds it, that creates and maps an object of 2^32 bytes, after which entry 0 is its own and mmap of the whole object fails |
| `DrmMmap.CloseFreesRange` | libs/libukvirtgpu_drm/drm_virtgpu_fdio.c:127-133 | close takes the handle's whole range out of use |
| `DrmMmap.ClosedOffsetNeverResolves` | libs/libukvirtgpu_drm/drm_virtgpu_fdio.c:86-164 | an offset of a closed handle never resolves again and is never handed out again |
| `DrmDevice.RenderFile.MapOffset` | libs/libukvirtgpu_drm/drm_virtgpu_fdio.c:86-125 | the MAP ioctl's new registry, offset and code |
| `DrmDevice.RenderFile.Close` | libs/libukvirtgpu_drm/drm_virtgpu_fdio.c:127-133 | the GEM_CLOSE ioctl's new registry and code |
| `DrmDevice.RenderFile.Resolve` | libs/libukvirtgpu_drm/drm_virtgpu_fdio.c:138-164 | the scan's address or error |
| `VenusEncoder.PutAllExact` | libs/libukvulkan_venus/venus_cs.c:57-100 | a sequence of writes is appended whole if and only if it fits and nothing overflowed before; otherwise the encoder overflows and keeps what it held in front |
| `VenusEncoder.StringRoundTrip` | libs/libukvulkan_venus/venus_cs.c:102-117 | a string reads back as itself, takes a multiple of four bytes, and null differs from empty |
| `VenusEncoder.Encoder.EncodeBytes` | libs/libukvulkan_venus/venus_cs.c:57-71 | one write: appended, or overflow, or ignored after overflow |
| `VenusEncoder.Encoder.EncodeUint32` | libs/libukvulkan_venus/venus_cs.c:78-88 | the fast path is the general write of four little-endian bytes |
| `VenusEncoder.Encoder.EncodeUint64` | libs/libukvulkan_venus/venus_cs.c:90-100 | the same for eight bytes |
| `VenusEncoder.Encoder.EncodeCString` | libs/libukvulkan_venus/venus_cs.c:102-117 | length, bytes, terminator and padding as three writes |
| `Dispatch.DeliveredWholeOnceInOrder` | libs/libvulkan/uk_vulkan_dispatch.c:204-298 | in every run each payload is a non-empty sequence of whole commands; each command is delivered once, pending or lost, never two of these; one overtakes another only if it is immediate and the other batched |
| `Dispatch.NothingPendingAfterEnd` | libs/libvulkan/uk_vulkan_dispatch.c:1648-1670 | End leaves the batch empty, even when End's own command triggers the split |
| `Dispatch.NothingLostIff` | libs/libvulkan/uk_vulkan_dispatch.c:204-298 | a run loses a command if and only if some Begin finds commands in an open batch or some command does not fit where it is put |
| `Dispatch.SizedRuns` | libs/libvulkan/uk_vulkan_dispatch.c:254-266 | with commands up to the buffer size less 64 KiB: no overflow, pending bytes below the threshold, every payload below the threshold plus its last command, losses exactly at nested Begins |
| `Dispatch.EveryCommandDelivered` | libs/libvulkan/uk_vulkan_dispatch.c:1622-1670 | with such commands and closed windows that do not nest every command is in exactly one payload |
| `Dispatch.NestedBeginDrops` | libs/libvulkan/uk_vulkan_dispatch.c:1637-1640 | a second Begin drops what the first recorded |
| `RingDispatch.SinglesRun` | libs/libvulkan/uk_vulkan_dispatch.c:204-298 | in ring mode what goes out as SUBMIT_3D is a run of the dispatch without a ring over the calls that do not reach the ring |
| `RingDispatch.RunWrites` | libs/libvulkan/uk_vulkan_dispatch.c:204-241 | the ring is given exactly the commands of open windows, in program order, each as the encode buffer holds it |
| `RingDispatch.RingCarries` | libs/libvulkan/uk_vulkan_dispatch.c:204-241 | for every interleaving of the guest's steps with the host's, the ring accepts exactly the commands that fit what the host has consumed when each is checked, the host reads a prefix of their bytes back to back, and nothing is dropped if and only if each fits; certain when all together are no longer than the ring |
| `RingDispatch.OversizeIsDropped` | libs/libvulkan/uk_vulkan_dispatch.c:225-228 | in every run and every interleaving a command whose encoding is longer than the ring is never accepted, whatever the host has consumed |
| `RingDispatch.LongCommandIsDropped` | libs/libvulkan/uk_vulkan_dispatch.c:225-228 | a run of a Begin and a longer command after which, in every interleaving, the ring has accepted the Begin alone |
| `RingDispatch.AcceptedIsPublished` | libs/libvulkan/uk_vulkan_dispatch.c:1648-1666 | after End in ring mode, and after every vkQueueSubmit once the ring is up, all that was accepted is published |
| `RingDispatch.WholeIffFits` | libs/libvulkan/uk_vulkan_dispatch.c:225-228 | a command reaches the ring whole if and only if it fits the encode buffer |
| `RingDispatch.TruncatedCommandEntersRing` | libs/libvulkan/uk_vulkan_dispatch.c:225-228 | a run in which the ring accepts the first part of a command that overflowed the encode buffer |
| `DispatchDevice.VulkanDispatch.SubmitEncoder` | libs/libukvulkan_venus/venus_init.c:132-153 | -75 for an overflowed encoder and -22 for an empty one, which submit nothing; else the bytes are handed over and the transport's answer returned |
| `DispatchDevice.VulkanDispatch.Encode` | libs/libvulkan/uk_vulkan_dispatch.c:204-266 | copying the encoder out and back around a command does what the model's step says, in ring, batch and single mode |
| `DispatchDevice.VulkanDispatch.EncodeImmediate` | libs/libvulkan/uk_vulkan_dispatch.c:281-298 | the batch is not touched |
| `DispatchDevice.VulkanDispatch.TryRing` | libs/libvulkan/uk_vulkan_dispatch.c:371-400 | the ring is tried once, and only if asked for |
| `DispatchDevice.VulkanDispatch.BeginCommandBuffer` | libs/libvulkan/uk_vulkan_dispatch.c:1622-1646 | ring attempt, reset or flag, and Begin's own command |
| `DispatchDevice.VulkanDispatch.EndCommandBuffer` | libs/libvulkan/uk_vulkan_dispatch.c:1648-1670 | End's own command, flush and flag of the mode |
| `DispatchDevice.VulkanDispatch.QueueSubmits` | libs/libvulkan/uk_vulkan_dispatch.c:1808-1832 | one command for each submit, and a flush of the ring once it is up |
| `HostMemory.RunKeepsInv` | libs/libvulkan/uk_vulkan_dispatch.c:1169-1258 | over every run slots in use hold mapped blobs under distinct handles, and the blob layer stays in order |
| `HostMemory.ShortMemoryRunsAreFresh` | libs/libukvirtio_gpu/virtio_gpu_real.c:218-230 | the same for runs of allocations and frees |
| `HostMemory.ExportedMemoriesNeverAlias` | libs/libvulkan/uk_vulkan_dispatch.c:1142-1277 | in every run pointers into two live exported memories are never equal |
| `HostMemory.AllocateResult` | libs/libvulkan/uk_vulkan_dispatch.c:1169-1242 | the handle is new; the memory is found afterwards if and only if it is host-visible with a size and a free slot, was submitted, and create, map and attach succeed; it is then at least as large as asked for; other memories are untouched |
| `HostMemory.FreeFrees` | libs/libvulkan/uk_vulkan_dispatch.c:1244-1258 | free takes the handle out of the table whatever the host answers |
| `HostMemory.FreedStaysFreed` | libs/libvulkan/uk_vulkan_dispatch.c:1244-1277 | a freed handle maps to staging for ever and is never given out again |
| `HostMemory.PointersCoincideIff` | libs/libvulkan/uk_vulkan_dispatch.c:1142-1277 | in every run pointers into two live memories coincide if and only if neither is exported and the offsets agree modulo the staging size |
| `HostMemory.TwoLocalMemoriesAlias` | libs/libvulkan/uk_vulkan_dispatch.c:1260-1277 | a run of two device-local allocations whose mappings are the same place at every offset |
| `HostMemoryDevice.MemoryTable.AllocateMemory` | libs/libvulkan/uk_vulkan_dispatch.c:1169-1242 | the table, device and handle of every branch, with the partial export undone |
| `HostMemoryDevice.MemoryTable.FreeMemory` | libs/libvulkan/uk_vulkan_dispatch.c:1244-1258 | the table and device after a free |
| `HostMemoryDevice.MemoryTable.Map` | libs/libvulkan/uk_vulkan_dispatch.c:1265-1277 | blob address plus offset, or the staging place |
| `Rounding.PageAlignExact` | libs/libvulkan/uk_vulkan_dispatch.c:1301-1301 | the mask rounds up to whole pages exactly below 2^64 - 4095 and gives zero otherwise or for zero |
| `BufferSizes.RecentBufferReported` | libs/libvulkan/uk_vulkan_dispatch.c:1152-1167 | each of the last 1024 buffers reports its rounded size if and only if the request is between 1 and 2^64 - 4096, else the fallback |
| `BufferSizes.OtherBufferFallsBack` | libs/libvulkan/uk_vulkan_dispatch.c:1161-1167 | every other handle reports the fallback, so no size is given to the wrong buffer |
| `BufferSizes.Requirements2AlwaysFallsBack` | libs/libvulkan/uk_vulkan_dispatch.c:1344-1349 | the second entry point never learns a size |
| `BufferSizes.HandlesNeverRepeat` | libs/libvulkan/uk_vulkan_dispatch.c:98-125 | handles given out in a run increase strictly |
| `BufferSizes.TypeBitsAreTypes` | libs/libvulkan/uk_vulkan_dispatch.c:1319-1327 | bit i of the memory type mask is set if and only if i is below the number of types offered: the real ones if known and at most 32, else three |
| `BufferSizes.BufferTable.FindSize` | libs/libvulkan/uk_vulkan_dispatch.c:1161-1167 | the scan returns the first entry's size or 0 |
| `BufferSizes.BufferTable.CreateBuffer` | libs/libvulkan/uk_vulkan_dispatch.c:1284-1307 | handle, slot and counter of a creation |
| `BufferSizes.BufferTable.GetBufferMemoryRequirements` | libs/libvulkan/uk_vulkan_dispatch.c:1329-1342 | size, alignment 256 and type mask |
| `BufferSizes.BufferTable.GetBufferMemoryRequirements2` | libs/libvulkan/uk_vulkan_dispatch.c:1344-1349 | the same for handle 0; the argument is ignored |
| `WireChain.SizeIsWritten` | libs/libukvulkan_venus/generated/vn_protocol_driver_device_memory.h:295-337 | for every chain of any length, with skipped structs anywhere, the size walker returns the number of bytes the encode walker writes |
| `WireChain.SkippedStructsDoNotMatter` | libs/libukvulkan_venus/generated/vn_protocol_driver_device_memory.h:365-409 | size and encoding are those of the chain with the skipped structs removed |
| `WireChain.ChainRoundTrip` | libs/libukvulkan_venus/generated/vn_protocol_driver_device_memory.h:365-409 | a reader of the wire form recovers exactly the known structs in order and stops at the end of the chain |
| `WireChain.SizeOfChain` | libs/libukvulkan_venus/generated/vn_protocol_driver_device_memory.h:295-337 | the skip loop and recursion compute the size function |
| `WireChain.EncodeChain` | libs/libukvulkan_venus/generated/vn_protocol_driver_device_memory.h:365-409 | the skip loop and recursion make exactly the chain's writes |
| `WireChain.SumIsWritten` | libs/libukvulkan_venus/generated/vn_protocol_driver_descriptor_set_layout.h:153-168 | the size loop over an array counts what the encode loop over it writes |
| `WireChain.ItemsReadBack` | libs/libukvulkan_venus/generated/vn_protocol_driver_descriptor_set_layout.h:211-224 | a reader of the elements recovers an array of structs and its length |
| `MemoryAllocateInfo.SizeCountsBytes` | libs/libukvulkan_venus/generated/vn_protocol_driver_device_memory.h:339-429 | the agreement for VkMemoryAllocateInfo and its five extension structs |
| `MemoryAllocateInfo.FarEndSeesKnownStructs` | libs/libukvulkan_venus/generated/vn_protocol_driver_device_memory.h:365-409 | the far end recovers each known struct with all its fields |
| `MemoryAllocateInfo.SizeOf` | libs/libukvulkan_venus/generated/vn_protocol_driver_device_memory.h:339-363 | the computed size is the length of the encoding |
| `BufferCreateInfo.SizeCountsBytes` | libs/libukvulkan_venus/generated/vn_protocol_driver_buffer.h:175-321 | the agreement for VkBufferCreateInfo under every extension gating, sharing mode and array length |
| `BufferCreateInfo.FarEndSeesKnownStructs` | libs/libukvulkan_venus/generated/vn_protocol_driver_buffer.h:254-295 | the far end recovers exactly the structs that are known and not gated off |
| `BufferCreateInfo.CallSizeCountsBytes` | libs/libukvulkan_venus/generated/vn_protocol_driver_buffer.h:771-805 | the agreement for the whole vkCreateBuffer command |
| `BufferCreateInfo.CallRoundTrip` | libs/libukvulkan_venus/generated/vn_protocol_driver_buffer.h:790-805 | the command's bytes decode to the call with every argument, its create-info less what the encoder skips |
| `BufferCreateInfo.SubmitCreateBuffer` | libs/libukvulkan_venus/generated/vn_protocol_driver_buffer.h:1229-1248 | the buffer of the computed size never overflows and is filled exactly; nothing is submitted only if the command is large and malloc fails |
| `DescriptorSetLayout.SizeCountsBytes` | libs/libukvulkan_venus/generated/vn_protocol_driver_descriptor_set_layout.h:119-233 | the agreement with arrays, arrays of arrays and immutable samplers, and independence from skipped structs |
| `DescriptorSetLayout.BindingAgrees` | libs/libukvulkan_venus/generated/vn_protocol_driver_descriptor_set_layout.h:16-48 | the agreement for one binding with or without samplers |
| `DescriptorSetLayout.ListAgrees` | libs/libukvulkan_venus/generated/vn_protocol_driver_structs.h:2028-2052 | the agreement for one list of mutable types |
| `DescriptorSetLayout.FarEndSeesKnownStructs` | libs/libukvulkan_venus/generated/vn_protocol_driver_descriptor_set_layout.h:182-209 | the far end recovers the known structs of the chain with their arrays and nested lists, an empty array as null |
| `DescriptorSetLayout.InfoRoundTrip` | libs/libukvulkan_venus/generated/vn_protocol_driver_descriptor_set_layout.h:182-233 | the bytes of a create-info decode to it, less what the encoder skips, with its chain, arrays, nested arrays and bindings |
| `DescriptorSetLayout.BindingReadsBack` | libs/libukvulkan_venus/generated/vn_protocol_driver_descriptor_set_layout.h:16-48 | a binding with its samplers reads back |
| `DescriptorSetLayout.SizeOf` | libs/libukvulkan_venus/generated/vn_protocol_driver_descriptor_set_layout.h:119-180 | the computed size is the length of the encoding |
| `DescriptorSetLayout.Encode` | libs/libukvulkan_venus/generated/vn_protocol_driver_descriptor_set_layout.h:182-233 | the encoder makes exactly the writes counted |
| `ReplyDecoder.LayoutIsCounted` | libs/libukvulkan_venus/generated/vn_protocol_driver_device_memory.h:706-748 | the reply layout has the length the chain size function returns |
| `ReplyDecoder.AnswerableIffSubsequence` | libs/libukvulkan_venus/generated/vn_protocol_driver_device_memory.h:750-778 | the decoder's assertions hold if and only if the answers are, type by type, a subsequence of the caller's chain |
| `ReplyDecoder.DecodeChain` | libs/libukvulkan_venus/generated/vn_protocol_driver_device_memory.h:750-778 | on every reply that meets the assertions the search ends at the first struct of the type, each answer goes to its own struct, in order, all other structs are untouched, and exactly the counted bytes are consumed |
| `ReplyDecoder.FullAnswerFills` | libs/libukvulkan_venus/generated/vn_protocol_driver_device_memory.h:750-778 | when the host answers the whole chain, decoding means that every known struct gets its own value and every other keeps what it had |
| `ReplyDecoder.DecodeMemoryResourceProperties` | libs/libukvulkan_venus/generated/vn_protocol_driver_device_memory.h:780-797 | the whole reply struct with its chain |
| `ReplyDecoder.DecodeLayoutSupport` | libs/libukvulkan_venus/generated/vn_protocol_driver_descriptor_set_layout.h:389-436 | the same for VkDescriptorSetLayoutSupport |
| `VirglStream.HeaderFields` | libs/libukvirtio_gpu/virgl_encoder.c:31-34 | length, object and command do not overlap in the packed header |
| `VirglStream.ParserRecoversAccepted` | libs/libukvirtio_gpu/virgl_encoder.c:74-133 | after any sequence of calls, overflow or not, walking the header lengths recovers exactly the calls that returned 0, with arguments, in order |
| `VirglStream.AcceptedIff` | libs/libukvirtio_gpu/virgl_encoder.c:36-44 | a call returns 0 if and only if its handles are there, nothing overflowed before and it fits; -22 if and only if a handle is missing |
| `VirglStream.OverflowFreezes` | libs/libukvirtio_gpu/virgl_encoder.c:36-44 | after an overflow no call changes the stream or is accepted |
| `VirglStream.VirglEncoder.EncWords` | libs/libukvirtio_gpu/virgl_encoder.c:36-44 | a chain of word writes with early returns |
| `VirglStream.VirglEncoder.CreateSurface` | libs/libukvirtio_gpu/virgl_encoder.c:74-93 | the call's stream and code |
| `VirglStream.VirglEncoder.SetFramebuffer` | libs/libukvirtio_gpu/virgl_encoder.c:95-108 | the call's stream and code |
| `VirglStream.VirglEncoder.ClearColor` | libs/libukvirtio_gpu/virgl_encoder.c:110-133 | the call's stream and code |
| `MemoryProperties.QueryMemoryProperties` | libs/libukvulkan_venus/venus_init.c:1010-1077 | accepted if and only if the reply is complete, of the right command and its counts are in range; the result depends only on the reply's own bytes; exactly what a late failure leaves behind; nothing outside the 520 bytes changes |
| `MemoryProperties.InvertsWire` | libs/libukvulkan_venus/venus_init.c:884-895 | for every host reply in the packed layout the result holds its counts and each counted type and heap; larger counts are rejected |
| `MemoryProperties.FullReplyOutcomes` | libs/libukvulkan_venus/venus_init.c:884-895 | of the replies of the length always received, exactly those with too many heaps fail after the result has been begun, and leave the counted types and no heaps |
| `MemoryProperties.TooManyHeapsOverwritesResult` | libs/libukvulkan_venus/venus_init.c:884-895 | every host that reports more than 16 heaps makes the call fail with the caller's default overwritten |

## Left out

- The linear `uk_venus_ring_write` / `uk_venus_ring_submit` path: it adds only a bump buffer.
- The order between the ring and SUBMIT_3D in ring mode, which the code does not establish: the two streams are modelled side by side. After a shutdown the ring is not tried again.
- The outcome of SUBMIT_3D on the host: the dispatch ignores it, so a payload counts as sent when it is handed to the transport.
- Virtqueue internals, response-code mapping, PCI probing, the GPU barrier, fences, deadlines and profiling counters: I/O and real time.
- Metrics counters of the driver, which are not kept consistent on failure paths.
- 2D and 3D resource creation beyond the slot tables, and the UUID table.
- The DRM parameter, capset and execbuffer ioctls, and `resource_info` apart from its 32-bit size.
- Fabricated device properties and the no-op Vulkan stubs: constant tables.
- The other generated headers, and partial encoders of reply structs: the same pattern again.
- Null-pointer checks on arguments that are references here, and the assertions of generated code, which become requirements.
- Byte sizes of encodings are unbounded integers; `size_t` does not wrap for data that fits in memory.
- Callers' records passed by pointer are modelled as values passed in and handed back, so two calls on one record never alias.
- The pNext list is a sequence, or arrays walked by index, in list order; a cyclic list is not modelled.
- Generated functions of one chain shape share one walker with the chain's own structs as parameters.
- VenusRing.CommandRing.CmdWrite: data longer than the buffer while the host has moved the head outside the published bytes.
- VenusRing.CommandRing.CmdWait: a wait without bound is cut off when the given loads of the head run out.
- BlobLifecycle.RunKeepsInv: plain resources are released by id and blobs through destroy only, since `resource_unref` does not look at the mapping; and creates that meet a wrapped id counter at zero or at a live id, after which ids are not unique.
- BufferSizes.RecentBufferReported: fewer than 2^31 creations, since the `int` counter overflows then; so too BufferSizes.OtherBufferFallsBack and BufferSizes.Requirements2AlwaysFallsBack.
- Dispatch.DeliveredWholeOnceInOrder: every command encodes to at least one byte, as its type and flags make it.
- ReplyDecoder.DecodeChain: replies that meet the generated assertions and are not cut off; behind an assertion or the end of the reply the code reads variables it has not set.
- BlobLifecycle.MappingsNeverAlias: takes from the PCI layer that the host-visible region ends below 2^64.
- HostMemory.ExportedMemoriesNeverAlias: offsets inside the mapping; vkMapMemory does not check them.
- HostMemory.PointersCoincideIff: the same; the guest's staging buffer and the host-visible window are taken to be different memory.
- HostMemory.RunKeepsInv: the 64-bit handle counter does not wrap.
- HostMemoryDevice.MemoryTable.AllocateMemory: the vkAllocateMemory command it encodes is reduced to whether it was submitted.
