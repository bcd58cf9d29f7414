/** uk_venus_ring in protocol mode: the object whose fields and shared blob the
    ring calls update, each call proved against the protocol in RingProtocol. */
module VenusRing {
  import opened Bits
  import opened Errno
  import opened LittleEndian
  import opened RingProtocol

  const HEAD_OFFSET: nat := 0
  const TAIL_OFFSET: nat := 64
  const STATUS_OFFSET: nat := 128
  const BUFFER_OFFSET: nat := 192
  const CTRL_SIZE: nat := 192
  const SPIN_FOREVER: u32 := 0xFFFF_FFFF

  /** A start index and the same index cut to 32 bits use the same cells. */
  lemma WrittenFromWord(before: seq<u8>, after: seq<u8>, start: nat, data: seq<u8>)
    requires ValidSize(|before|) && |before| > 0
    ensures Written(before, after, start % U32, data) <==> Written(before, after, start, data)
  {
    var n := |before|;
    forall j: nat
      ensures CellAt(n, start % U32, j) == CellAt(n, start, j)
    {
      SameCells(n, start, j);
    }
    assert forall c: nat :: Covers(n, start % U32, |data|, c) <==> Covers(n, start, |data|, c);
  }

  lemma SameCells(n: nat, start: nat, j: nat)
    requires ValidSize(n) && n > 0
    ensures CellAt(n, start % U32, j) == CellAt(n, start, j)
  {
    var k := SizeFacts(n);
    ModOfMod(start, Pow2(32 - k), n);
    ModAdd(start % U32, j, n);
    ModAdd(start, j, n);
  }

  /** `Written` leaves nothing open: it determines the whole data area. */
  lemma WrittenIsUnique(before: seq<u8>, a1: seq<u8>, a2: seq<u8>, start: nat, data: seq<u8>)
    requires |before| > 0
    requires Written(before, a1, start, data) && Written(before, a2, start, data)
    ensures a1 == a2
  {
    forall c | 0 <= c < |before|
      ensures a1[c] == a2[c]
    {
      if Covers(|before|, start, |data|, c) {
        var j :| 0 <= j < |data| && CellAt(|before|, start, j) == c;
        assert a1[CellAt(|before|, start, j)] == data[j] == a2[CellAt(|before|, start, j)];
      }
    }
  }

  /** A call of CmdWrite that returns 0 does what the protocol's write does: it
      stands for the events of one whole write in a world with the same ring. */
  lemma CmdWriteRefinesProtocol(w: World, data: seq<u8>, after: Ring)
    requires Inv(w) && Enabled(w, Begin(data))
    requires |w.ring.buf| > 0 && Written(w.ring.buf, after.buf, w.ring.curTail, data)
    requires after == Ring(after.buf, w.ring.head, w.ring.tail, (w.ring.curTail + |data|) % U32)
    ensures Run(w, WriteEvents(data)).ring == after
  {
    WholeWrite(w, data);
    WrittenFromWord(w.ring.buf, after.buf, |w.accepted|, data);
    WrittenIsUnique(w.ring.buf, after.buf, Run(w, WriteEvents(data)).ring.buf, |w.accepted|, data);
  }

  /** The size register gives the data area: computed from the room cut to 32
      bits, it still fits the whole room. */
  method DataAreaSize(room: nat) returns (size: u32)
    ensures size == 0 <==> room % U32 == 0
    ensures size != 0 ==> ValidSize(size) && size <= room && IsLargestPow2(size, room % U32)
  {
    size := LargestPow2(room % U32);
    SmallOrEqualMod(room, U32);
  }

  /** With the backlog in bounds the 32-bit space check does not wrap, and
      neither does offset plus length of any write that passes it. */
  lemma SpaceCheck(size: u32, curTail: u32, head: u32)
    requires ValidSize(size) && Sub32(curTail, head) <= size
    ensures size > 0 && Avail(size, curTail, head) == size - Sub32(curTail, head)
    ensures 0 <= Masked(size, curTail) < size
    ensures Masked(size, curTail) + Avail(size, curTail, head) < U32
  {
    var k := SizeFacts(size);
    SmallMod(size - Sub32(curTail, head), U32);
    MaskedInRange(size, curTail);
  }

  /** The blob with its three control words zero and everything else as it was. */
  ghost predicate ControlZeroed(mem: seq<u8>, mem': seq<u8>) {
    && |mem'| == |mem|
    && forall a :: 0 <= a < |mem| ==>
         mem'[a] == if a < HEAD_OFFSET + 4 || TAIL_OFFSET <= a < TAIL_OFFSET + 4 || STATUS_OFFSET <= a < STATUS_OFFSET + 4
                    then 0 else mem[a]
  }

  class CommandRing {
    var base: array?<u8>      // the mapped blob, null before it is mapped
    var ready: bool
    var ctxCreated: bool
    var ringId: u64
    var bufSize: u32
    var bufMask: u32
    var curTail: u32
    var protocolReady: bool

    /** In protocol mode the data area is a power of two behind the control
        words and inside the blob. */
    ghost predicate Valid()
      reads this
    {
      && (protocolReady ==>
            && base != null && ValidSize(bufSize) && bufMask == bufSize - 1
            && BUFFER_OFFSET + bufSize <= base.Length)
      && (base != null ==> base.Length < U64)
    }

    ghost function View(): Ring
      requires Valid() && protocolReady
      reads this, base
    {
      Ring(base[BUFFER_OFFSET..BUFFER_OFFSET + bufSize],
           Word(base[..], HEAD_OFFSET), Word(base[..], TAIL_OFFSET), curTail)
    }

    constructor (base: array?<u8>, ready: bool, ctxCreated: bool)
      requires base != null ==> base.Length < U64
      ensures Valid() && !protocolReady
      ensures this.base == base && this.ready == ready && this.ctxCreated == ctxCreated
    {
      this.base, this.ready, this.ctxCreated := base, ready, ctxCreated;
      ringId, bufSize, bufMask, curTail, protocolReady := 0, 0, 0, 0, false;
    }

    method LoadHead() returns (head: u32)
      requires Valid()
      ensures head == if protocolReady then View().head else 0
    {
      if base == null || !protocolReady { return 0; }
      head := Word(base[..], HEAD_OFFSET);
    }

    /** head = tail = status = 0 */
    method ZeroControl()
      requires base != null && base.Length > CTRL_SIZE
      modifies base
      ensures ControlZeroed(old(base[..]), base[..])
    {
      MemCpy(base, HEAD_OFFSET, LE32(0));
      MemCpy(base, TAIL_OFFSET, LE32(0));
      MemCpy(base, STATUS_OFFSET, LE32(0));
    }

    /** The memcpy calls of a write: one when the data fits before the end of
        the buffer, two when it does not. */
    method CopyIn(offset: nat, data: seq<u8>)
      requires Valid() && protocolReady && |data| <= bufSize && offset < bufSize
      modifies base
      ensures CopiedInto(old(base[..]), base[..], bufSize, offset, data)
    {
      if (offset + |data|) % U32 <= bufSize {
        MemCpy(base, BUFFER_OFFSET + offset, data);
      } else {
        var first := bufSize - offset;
        MemCpy(base, BUFFER_OFFSET + offset, data[..first]);
        MemCpy(base, BUFFER_OFFSET, data[first..]);
      }
    }

    /** What registering asks of the ring before it touches the blob. */
    ghost predicate Registrable()
      reads this
    {
      && ready && ctxCreated && base != null && !protocolReady
      && base.Length > CTRL_SIZE && (base.Length - CTRL_SIZE) % U32 != 0
    }

    /** uk_venus_ring_register. `answer` is the host's to vkCreateRingMESA; the
        control words are zeroed before it is asked. */
    method Register(id: u64, answer: int) returns (rc: int)
      requires Valid()
      modifies this, base
      ensures Valid() && base == old(base) && ready == old(ready) && ctxCreated == old(ctxCreated)
      ensures rc == if old(Registrable()) then answer else EINVAL
      ensures rc == 0 ==> protocolReady && ringId == id && IsLargestPow2(bufSize, (base.Length - CTRL_SIZE) % U32)
      ensures rc == 0 ==> Initial(World(View(), Idle, [], 0, []))
      ensures rc != 0 ==>
        && protocolReady == old(protocolReady) && ringId == old(ringId) && bufSize == old(bufSize)
        && bufMask == old(bufMask) && curTail == old(curTail)
      ensures base != null ==>
        if old(Registrable()) then ControlZeroed(old(base[..]), base[..]) else base[..] == old(base[..])
    {
      if !ready || !ctxCreated || base == null { return EINVAL; }
      if protocolReady { return EINVAL; }
      if base.Length <= CTRL_SIZE { return EINVAL; }
      var size := DataAreaSize(base.Length - CTRL_SIZE);
      if size == 0 { return EINVAL; }
      ZeroControl();
      if answer != 0 { return answer; }
      ringId, bufSize, bufMask, curTail, protocolReady := id, size, size - 1, 0, true;
      return 0;
    }

    /** uk_venus_ring_unregister; the host's answer is ignored. */
    method Unregister() returns (rc: int)
      requires Valid()
      modifies this
      ensures Valid() && rc == 0 && !protocolReady
      ensures base == old(base) && ready == old(ready) && ctxCreated == old(ctxCreated)
      ensures if old(protocolReady) then ringId == 0 && bufSize == bufMask == curTail == 0
              else ringId == old(ringId) && bufSize == old(bufSize) && bufMask == old(bufMask) && curTail == old(curTail)
    {
      if !protocolReady { return 0; }
      protocolReady, ringId, bufSize, bufMask, curTail := false, 0, 0, 0, 0;
      return 0;
    }

    /** uk_venus_ring_cmd_write. The head may hold anything as long as the data
        fits the buffer; a host that advances it only over published bytes keeps
        the backlog in bounds, and then any amount of data may be offered. */
    method CmdWrite(data: seq<u8>) returns (rc: int)
      requires Valid() && |data| < U32
      requires protocolReady ==> Sub32(curTail, View().head) <= bufSize || |data| <= bufSize
      modifies this`curTail, base
      ensures Valid()
      ensures rc == EINVAL <==> !protocolReady || data == []
      ensures rc == ENOSPC <==> protocolReady && data != [] && |data| > Avail(bufSize, old(curTail), old(View()).head)
      ensures rc in {0, EINVAL, ENOSPC}
      ensures rc != 0 ==> curTail == old(curTail) && (base != null ==> base[..] == old(base[..]))
      ensures rc == 0 ==>
        && Written(old(View()).buf, View().buf, old(curTail), data)
        && View() == Ring(View().buf, old(View()).head, old(View()).tail, (old(curTail) + |data|) % U32)
        && (Sub32(old(curTail), View().head) <= bufSize ==> Sub32(curTail, View().head) <= bufSize)
      ensures rc == 0 ==> SameOutside(old(base[..]), base[..], bufSize)
    {
      if !protocolReady || base == null { return EINVAL; }
      if data == [] { return EINVAL; }
      var head := LoadHead();
      var avail := Sub32(bufSize, Sub32(curTail, head));
      if |data| > avail { return ENOSPC; }
      WriteFits(bufSize, curTail, head, |data|);
      hide And, Sub32, Written;
      var offset := And(curTail, bufMask);
      ghost var mem := base[..];
      CopyIn(offset, data);
      CopiedIntoIsWritten(mem, base[..], bufSize, curTail, data);
      curTail := (curTail + |data|) % U32;
      return 0;
    }

    /** uk_venus_ring_cmd_flush: the tail is published whatever the host then
        answers to vkNotifyRingMESA, and no other byte changes. */
    method CmdFlush(answer: int) returns (rc: int)
      requires Valid()
      modifies base
      ensures rc == if protocolReady then answer else EINVAL
      ensures protocolReady ==> View() == old(View()).(tail := curTail)
      ensures protocolReady ==> forall a :: 0 <= a < base.Length && !(TAIL_OFFSET <= a < TAIL_OFFSET + 4) ==>
                base[a] == old(base[a])
      ensures !protocolReady && base != null ==> base[..] == old(base[..])
    {
      if !protocolReady || base == null { return EINVAL; }
      MemCpy(base, TAIL_OFFSET, LE32(curTail));
      WordOfLE32(base[..], TAIL_OFFSET, curTail);
      return answer;
    }

    /** uk_venus_ring_cmd_wait. `heads` are the values its successive loads of
        the shared head return; with a finite bound at most bound + 1 are used.
        Success is reported at the first match, a timeout only after bound + 1
        misses. Spinning forever is cut off when the given loads run out. */
    method CmdWait(heads: seq<u32>, timeoutIters: u32) returns (rc: int, polls: nat, ranOut: bool)
      requires Valid()
      requires timeoutIters != SPIN_FOREVER ==> |heads| > timeoutIters
      ensures !protocolReady <==> rc == EINVAL
      ensures polls <= |heads| && (timeoutIters != SPIN_FOREVER ==> polls <= timeoutIters + 1 && !ranOut)
      ensures rc == 0 && !ranOut ==> polls > 0 && heads[polls - 1] == curTail && curTail !in heads[..polls - 1]
      ensures rc == ETIMEDOUT ==> polls == timeoutIters + 1 && curTail !in heads[..polls]
      ensures ranOut ==> timeoutIters == SPIN_FOREVER && polls == |heads| && curTail !in heads
      ensures rc in {0, EINVAL, ETIMEDOUT}
    {
      rc, polls, ranOut := 0, 0, false;
      if !protocolReady || base == null { return EINVAL, 0, false; }
      var iters := 0;
      while iters < |heads|
        invariant iters <= |heads| && curTail !in heads[..iters]
        invariant timeoutIters != SPIN_FOREVER ==> iters <= timeoutIters
      {
        if heads[iters] == curTail { return 0, iters + 1, false; }
        assert heads[..iters + 1] == heads[..iters] + [heads[iters]];
        if timeoutIters != SPIN_FOREVER && iters >= timeoutIters { return ETIMEDOUT, iters + 1, false; }
        iters := iters + 1;
      }
      assert heads[..iters] == heads;
      return 0, iters, true;
    }
  }

  lemma SmallOrEqualMod(x: nat, m: nat)
    requires m > 0
    ensures x % m <= x
  {
    assert x == (x / m) * m + x % m;
    MulAtLeast(x / m, m);
  }

  /** One or two copies, seen cell by cell: the cells from the offset on hold
      the first bytes, the cells from the start of the buffer the rest. */
  ghost predicate SplitCopied(before: seq<u8>, after: seq<u8>, offset: nat, data: seq<u8>)
    requires offset <= |before|
  {
    && |after| == |before|
    && forall c :: 0 <= c < |before| ==> after[c] == SplitByte(before[c], |before|, offset, data, c)
  }

  function SplitByte(was: u8, size: nat, offset: nat, data: seq<u8>, c: nat): u8
    requires offset <= size
  {
    if offset <= c < offset + |data| then data[c - offset]
    else if c + size < offset + |data| then data[c + size - offset]
    else was
  }

  /** Only the data area of the blob can differ. */
  ghost predicate SameOutside(mem: seq<u8>, mem': seq<u8>, size: nat) {
    && |mem'| == |mem|
    && forall a :: 0 <= a < |mem| && (a < BUFFER_OFFSET || BUFFER_OFFSET + size <= a) ==> mem'[a] == mem[a]
  }

  ghost predicate CopiedInto(mem: seq<u8>, mem': seq<u8>, size: nat, offset: nat, data: seq<u8>)
    requires offset <= size && BUFFER_OFFSET + size <= |mem|
  {
    && SameOutside(mem, mem', size)
    && forall a :: BUFFER_OFFSET <= a < BUFFER_OFFSET + size ==>
         mem'[a] == SplitByte(mem[a], size, offset, data, a - BUFFER_OFFSET)
  }

  lemma CopiedIntoIsWritten(mem: seq<u8>, mem': seq<u8>, size: nat, curTail: u32, data: seq<u8>)
    requires ValidSize(size) && size > 0 && |data| <= size && BUFFER_OFFSET + size <= |mem|
    requires Masked(size, curTail) <= size && CopiedInto(mem, mem', size, Masked(size, curTail), data)
    ensures Written(mem[BUFFER_OFFSET..BUFFER_OFFSET + size], mem'[BUFFER_OFFSET..BUFFER_OFFSET + size], curTail, data)
    ensures Word(mem', HEAD_OFFSET) == Word(mem, HEAD_OFFSET) && Word(mem', TAIL_OFFSET) == Word(mem, TAIL_OFFSET)
  {
    SplitCopyIsWritten(mem[BUFFER_OFFSET..BUFFER_OFFSET + size], mem'[BUFFER_OFFSET..BUFFER_OFFSET + size], curTail, data);
  }

  lemma SplitCopyIsWritten(before: seq<u8>, after: seq<u8>, curTail: u32, data: seq<u8>)
    requires ValidSize(|before|) && |before| > 0 && |data| <= |before|
    requires Masked(|before|, curTail) <= |before|
    requires SplitCopied(before, after, Masked(|before|, curTail), data)
    ensures Written(before, after, curTail, data)
  {
    var n := |before|;
    SmallMod(curTail, U32);
    MaskedIsMod(n, curTail);
    var offset := Masked(n, curTail);
    forall j | 0 <= j < |data|
      ensures CellAt(n, curTail, j) == if offset + j < n then offset + j else offset + j - n
    {
      WrapOnce(curTail, j, n);
    }
    hide Cell, CellAt, And, Masked;
    forall c | 0 <= c < n && (offset <= c < offset + |data| || c + n < offset + |data|)
      ensures Covers(n, curTail, |data|, c)
    {
      var j := if offset <= c then c - offset else c + n - offset;
      assert CellAt(n, curTail, j) == c;
    }
  }

  /** What a write that passes the space check may rely on. */
  lemma WriteFits(size: u32, curTail: u32, head: u32, len: nat)
    requires ValidSize(size) && (Sub32(curTail, head) <= size || len <= size) && len <= Avail(size, curTail, head)
    ensures size > 0 && 0 <= Masked(size, curTail) < size && len <= size
    ensures Sub32(curTail, head) <= size ==> Sub32((curTail + len) % U32, head) <= size
  {
    var k := SizeFacts(size);
    MaskedInRange(size, curTail);
    if Sub32(curTail, head) <= size {
      SpaceCheck(size, curTail, head);
      BacklogGrows(curTail, head, len, size);
    }
  }

  lemma BacklogGrows(tail: u32, head: u32, len: nat, size: u32)
    requires Sub32(tail, head) + len <= size
    ensures Sub32((tail + len) % U32, head) == Sub32(tail, head) + len
  {
    ModAdd(tail + len, 0 - head, U32);
    ModAdd(tail - head, len, U32);
    SmallMod(Sub32(tail, head) + len, U32);
  }
}
