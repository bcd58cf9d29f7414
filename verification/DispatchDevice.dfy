/** The dispatch's globals and stubs as they are: one shared encode buffer, one
    batch encoder copied out and back around each command, and the flags of the
    batch and of the ring. */
module DispatchDevice {
  import opened Bits
  import opened Errno
  import opened VenusEncoder
  import Dispatch
  import opened RingDispatch

  class VulkanDispatch {
    const encBuf: array<u8>
    const batch: Encoder
    var batchEnabled: bool
    var batchRecording: bool
    /** Every SUBMIT_3D payload handed to the transport, oldest first. */
    var sent: seq<seq<u8>>
    const ringWant: bool
    var ringTried: bool
    var ringReady: bool
    var ringRecording: bool
    /** Every call made to the command ring, oldest first. */
    var ringCalls: seq<Call>

    ghost predicate Valid()
      reads this, batch
    {
      && batch.Valid()
      && batch.buf.Length == Dispatch.BUF_SIZE == encBuf.Length
      && batch.buf != encBuf
    }

    ghost function View(): Disp
      requires Valid()
      reads this, batch, batch.buf
    {
      Disp(Dispatch.Disp(batchEnabled, batchRecording, batch.View(), sent),
           Ring(ringWant, ringTried, ringReady, ringRecording, ringCalls))
    }

    /** The state uk_vulkan_dispatch_init leaves. */
    constructor (batchEnabled: bool, ringWant: bool)
      ensures Valid() && fresh(batch) && fresh(batch.buf) && fresh(encBuf)
      ensures View() == Start(batchEnabled, ringWant)
    {
      encBuf := new u8[Dispatch.BUF_SIZE];
      var batchBuf := new u8[Dispatch.BUF_SIZE];
      batch := new Encoder(batchBuf);
      this.batchEnabled, batchRecording, sent := batchEnabled, false, [];
      this.ringWant, ringTried, ringReady, ringRecording, ringCalls := ringWant, false, false, false, [];
    }

    /** uk_venus_submit; `answer` is what the transport returns. */
    method SubmitEncoder(enc: Encoder, answer: int) returns (rc: int)
      requires Valid() && enc.Valid()
      modifies this`sent
      ensures Valid() && sent == Dispatch.Submit(old(sent), enc.View())
      ensures rc == if enc.overflow then EOVERFLOW else if enc.pos == 0 then EINVAL else answer
    {
      if enc.overflow { return EOVERFLOW; }
      if enc.pos == 0 { return EINVAL; }
      sent := sent + [enc.buf[..enc.pos]];
      return answer;
    }

    /** uk_dispatch_batch_accumulate: the local copy becomes the batch. */
    method AccumulateEncoder(enc: Encoder, answer: int)
      requires Valid() && enc.Valid() && enc != batch && enc.buf == batch.buf
      modifies this`sent, batch
      ensures Valid()
      ensures View() == old(View()).(single := Dispatch.Accumulate(old(View()).single, old(enc.View())))
    {
      batch.CopyFrom(enc);
      if batch.pos >= Dispatch.THRESHOLD {
        var _ := SubmitEncoder(batch, answer);
        batch.Reset();
      }
    }

    /** UK_ENC_BEGIN, one encode function, UK_ENC_SUBMIT */
    method Encode(cmd: Dispatch.Command, answer: int)
      requires Valid()
      modifies this`sent, this`ringCalls, batch, batch.buf, encBuf
      ensures Valid() && View() == Ordinary(old(View()), cmd)
    {
      var enc;
      if batchEnabled && batchRecording {
        enc := new Encoder(batch.buf);
        enc.CopyFrom(batch);
      } else {
        enc := new Encoder(encBuf);
      }
      PutAllExact(enc.View(), cmd);
      enc.EncodeAll(cmd);
      assert enc.buf == batch.buf ==> batch.buf[..batch.pos] == enc.buf[..enc.pos][..batch.pos];
      if ringReady && ringRecording {
        ringCalls := ringCalls + [Write(enc.buf[..enc.pos])];
      } else if batchEnabled && batchRecording {
        AccumulateEncoder(enc, answer);
      } else {
        var _ := SubmitEncoder(enc, answer);
      }
    }

    /** UK_ENC_BEGIN_IMMEDIATE, one encode function, UK_ENC_SUBMIT_IMMEDIATE */
    method EncodeImmediate(cmd: Dispatch.Command, answer: int)
      requires Valid()
      modifies this`sent, encBuf
      ensures Valid() && View() == Apply(old(View()), StubImmediate(cmd))
    {
      var enc := new Encoder(encBuf);
      enc.EncodeAll(cmd);
      var _ := SubmitEncoder(enc, answer);
    }

    /** uk_dispatch_ring_lazy_init; `up` says whether the ring could be created
        and registered. */
    method TryRing(up: bool)
      requires Valid()
      modifies this`ringTried, this`ringReady
      ensures Valid() && View() == LazyInit(old(View()), up)
    {
      if !ringWant || ringTried { return; }
      ringTried := true;
      ringReady := up;
    }

    /** stub_vkBeginCommandBuffer */
    method BeginCommandBuffer(cmd: Dispatch.Command, up: bool, answer: int)
      requires Valid()
      modifies this, batch, batch.buf, encBuf
      ensures Valid() && View() == Apply(old(View()), BeginCb(cmd, up))
    {
      TryRing(up);
      if ringReady {
        ringRecording := true;
      } else if batchEnabled {
        batch.Reset();
        batchRecording := true;
      }
      Encode(cmd, answer);
    }

    /** stub_vkEndCommandBuffer */
    method EndCommandBuffer(cmd: Dispatch.Command, answer: int)
      requires Valid()
      modifies this, batch, batch.buf, encBuf
      ensures Valid() && View() == Apply(old(View()), EndCb(cmd))
    {
      Encode(cmd, answer);
      if ringReady && ringRecording {
        ringCalls := ringCalls + [Publish];
        ringRecording := false;
      } else if batchEnabled && batchRecording {
        var _ := SubmitEncoder(batch, answer);
        batchRecording := false;
      }
    }

    /** stub_vkQueueSubmit, one command for each of the submits. */
    method QueueSubmits(cmds: seq<Dispatch.Command>, answer: int)
      requires Valid()
      modifies this, batch, batch.buf, encBuf
      ensures Valid() && View() == Apply(old(View()), QueueSubmit(cmds))
    {
      for i := 0 to |cmds|
        invariant Valid() && OrdinaryAll(View(), cmds[i..]) == OrdinaryAll(old(View()), cmds)
      {
        assert cmds[i..][1..] == cmds[i + 1..];
        Encode(cmds[i], answer);
      }
      assert cmds[|cmds|..] == [];
      if ringReady { ringCalls := ringCalls + [Publish]; }
    }
  }
}
