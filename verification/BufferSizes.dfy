/** The dispatch's handle counter and its wrapping table of buffer sizes, which
    stands in for an unbounded map from VkBuffer handles to sizes, and what
    vkGetBufferMemoryRequirements reports from it. */
module BufferSizes {
  import opened Bits
  import opened Rounding

  /** UK_BUF_SIZE_MAX, UK_VK_HANDLE_FIRST_DYNAMIC and the size reported when none is known. */
  const SLOTS: nat := 1024
  const FIRST_DYNAMIC: nat := 0x2_0000_0000_0100
  const FALLBACK: nat := 64 * 1024 * 1024
  const INT_MAX: nat := 0x7FFF_FFFF

  datatype Entry = Entry(handle: u64, size: u64)
  datatype Table = Table(entries: seq<Entry>, created: nat, nextHandle: u64)

  function Empty(): Table {
    Table(seq(SLOTS, _ => Entry(0, 0)), 0, FIRST_DYNAMIC)
  }

  /** uk_vk_alloc_handle */
  function AfterAlloc(t: Table): Table { t.(nextHandle := (t.nextHandle + 1) % U64) }

  /** uk_buf_size_put */
  function Put(t: Table, handle: u64, size: u64): Table
    requires |t.entries| == SLOTS
  {
    t.(entries := t.entries[t.created % SLOTS := Entry(handle, size)], created := t.created + 1)
  }

  /** uk_buf_size_find: the first entry with the handle, or 0. */
  function Find(entries: seq<Entry>, handle: u64): u64 {
    if entries == [] then 0
    else if entries[0].handle == handle then entries[0].size
    else Find(entries[1..], handle)
  }

  /** The size vkGetBufferMemoryRequirements reports. */
  function Reported(t: Table, handle: u64): u64 {
    var sz := Find(t.entries, handle);
    if sz != 0 then sz else FALLBACK
  }

  // ---- runs --------------------------------------------------------------------------

  /** A buffer is created, or a handle is taken for some other object. */
  datatype Op = Create(sz: u64) | OtherHandle

  /** What was created, oldest first: handle and requested size. */
  datatype Created = Created(handle: u64, sz: u64)

  function AfterCreate(t: Table, sz: u64): Table
    requires |t.entries| == SLOTS
  {
    Put(AfterAlloc(t), t.nextHandle, PageAlign(sz))
  }

  function Run(ops: seq<Op>): (t: Table)
    ensures |t.entries| == SLOTS
    decreases |ops|
  {
    if ops == [] then Empty()
    else
      var t := Run(ops[..|ops| - 1]);
      match ops[|ops| - 1]
      case Create(sz) => AfterCreate(t, sz)
      case OtherHandle => AfterAlloc(t)
  }

  function Log(ops: seq<Op>): seq<Created>
    decreases |ops|
  {
    if ops == [] then []
    else
      var log := Log(ops[..|ops| - 1]);
      match ops[|ops| - 1]
      case Create(sz) => log + [Created(Run(ops[..|ops| - 1]).nextHandle, sz)]
      case OtherHandle => log
  }

  /** Neither the 64-bit handle counter nor the int creation counter runs out. */
  ghost predicate WithinCounters(ops: seq<Op>) {
    FIRST_DYNAMIC + |ops| < U64 && |Log(ops)| <= INT_MAX
  }

  /** The oldest creation still in the table. */
  function Oldest(log: seq<Created>): nat { if |log| > SLOTS then |log| - SLOTS else 0 }

  /** Slot k mod 1024 holds creation k for the last 1024 creations; slots never
      used are zero; handles count up from the first dynamic one. */
  ghost predicate Inv(t: Table, log: seq<Created>) {
    && |t.entries| == SLOTS && t.created == |log|
    && FIRST_DYNAMIC <= t.nextHandle
    && (forall k :: 0 <= k < |log| ==> FIRST_DYNAMIC <= log[k].handle < t.nextHandle)
    && (forall j, k :: 0 <= j < k < |log| ==> log[j].handle < log[k].handle)
    && (forall k :: Oldest(log) <= k < |log| ==> Holds(t, k, log[k]))
    && (forall i :: |log| <= i < SLOTS ==> t.entries[i] == Entry(0, 0))
  }

  ghost predicate Holds(t: Table, k: nat, c: Created)
    requires |t.entries| == SLOTS
  {
    t.entries[k % SLOTS].handle == c.handle && t.entries[k % SLOTS].size == PageAlign(c.sz)
  }

  lemma CreateKeepsInv(t: Table, log: seq<Created>, sz: u64)
    requires Inv(t, log) && t.nextHandle + 1 < U64
    ensures Inv(AfterCreate(t, sz), log + [Created(t.nextHandle, sz)])
  {
    var t', log' := AfterCreate(t, sz), log + [Created(t.nextHandle, sz)];
    assert t'.nextHandle == t.nextHandle + 1;
    forall k | Oldest(log') <= k < |log'|
      ensures Holds(t', k, log'[k])
    {
      if k < |log| {
        assert Holds(t, k, log[k]);
        if k % SLOTS == |log| % SLOTS { ModInjective(k, |log|, SLOTS); }
      }
    }
  }

  lemma EmptyInv()
    ensures Inv(Empty(), [])
  {
  }

  lemma StepKeepsInv(t: Table, log: seq<Created>, op: Op)
    requires Inv(t, log) && t.nextHandle + 1 < U64
    ensures op.OtherHandle? ==> Inv(AfterAlloc(t), log) && AfterAlloc(t).nextHandle == t.nextHandle + 1
    ensures op.Create? ==>
              && Inv(AfterCreate(t, op.sz), log + [Created(t.nextHandle, op.sz)])
              && AfterCreate(t, op.sz).nextHandle == t.nextHandle + 1
  {
    if op.Create? {
      CreateKeepsInv(t, log, op.sz);
    } else {
      assert forall k :: Oldest(log) <= k < |log| && Holds(t, k, log[k]) ==> Holds(AfterAlloc(t), k, log[k]);
    }
  }

  lemma {:induction false} RunKeepsInv(ops: seq<Op>)
    requires WithinCounters(ops)
    ensures Inv(Run(ops), Log(ops)) && Run(ops).nextHandle == FIRST_DYNAMIC + |ops|
    decreases |ops|
  {
    if ops == [] {
      EmptyInv();
    } else {
      var before := ops[..|ops| - 1];
      RunKeepsInv(before);
      StepKeepsInv(Run(before), Log(before), ops[|ops| - 1]);
    }
  }

  // ---- agreement with the map ----------------------------------------------------------

  lemma {:induction false} FindOnly(entries: seq<Entry>, handle: u64, i: nat)
    requires i < |entries| && entries[i].handle == handle
    requires forall j :: 0 <= j < |entries| && j != i ==> entries[j].handle != handle
    ensures Find(entries, handle) == entries[i].size
  {
    if i > 0 { FindOnly(entries[1..], handle, i - 1); }
  }

  lemma {:induction false} FindNone(entries: seq<Entry>, handle: u64)
    requires forall j :: 0 <= j < |entries| && entries[j].handle == handle ==> entries[j].size == 0
    ensures Find(entries, handle) == 0
  {
    if entries != [] { FindNone(entries[1..], handle); }
  }

  /** The creation a used slot belongs to. */
  lemma SlotOwner(n: nat, i: nat) returns (k: nat)
    requires i < n && i < SLOTS
    ensures k < n <= k + SLOTS && k % SLOTS == i
  {
    k := n - 1 - (n - 1 - i) % SLOTS;
    ModShift(i, SLOTS, (n - 1 - i) / SLOTS);
  }

  lemma SlotHolds(t: Table, log: seq<Created>, i: nat) returns (k: nat)
    requires Inv(t, log) && i < |log| && i < SLOTS
    ensures Oldest(log) <= k < |log| && k % SLOTS == i && Holds(t, k, log[k])
  {
    k := SlotOwner(|log|, i);
  }

  /** Each of the last 1024 buffers reports its requested size rounded up to
      whole pages exactly when that is at least one page and below 2^64; the
      others report the fallback. */
  lemma RecentBufferReported(ops: seq<Op>, k: nat)
    requires WithinCounters(ops) && Oldest(Log(ops)) <= k < |Log(ops)|
    ensures var log := Log(ops);
      && Reported(Run(ops), log[k].handle) == (if 1 <= log[k].sz <= U64 - PAGE then RoundedUp(log[k].sz, PAGE) else FALLBACK)
      && (Reported(Run(ops), log[k].handle) == RoundedUp(log[k].sz, PAGE) <==> 1 <= log[k].sz <= U64 - PAGE)
  {
    RunKeepsInv(ops);
    var t, log := Run(ops), Log(ops);
    PageAlignExact(log[k].sz);
    assert Holds(t, k, log[k]);
    forall i | 0 <= i < SLOTS && i != k % SLOTS
      ensures t.entries[i].handle != log[k].handle
    {
      if i < |log| { var j := SlotHolds(t, log, i); }
    }
    FindOnly(t.entries, log[k].handle, k % SLOTS);
  }

  /** Any other handle reports the fallback: never created, or pushed out by
      1024 later buffers. No size is attributed to the wrong buffer. */
  lemma OtherBufferFallsBack(ops: seq<Op>, handle: u64)
    requires WithinCounters(ops)
    requires forall k :: Oldest(Log(ops)) <= k < |Log(ops)| ==> Log(ops)[k].handle != handle
    ensures Reported(Run(ops), handle) == FALLBACK
  {
    RunKeepsInv(ops);
    var t, log := Run(ops), Log(ops);
    forall i | 0 <= i < SLOTS && t.entries[i].handle == handle
      ensures t.entries[i].size == 0
    {
      if i < |log| { var j := SlotHolds(t, log, i); }
    }
    FindNone(t.entries, handle);
  }

  /** vkGetBufferMemoryRequirements2 asks for handle 0 and so never learns a
      size, whichever buffer it was called for. */
  lemma Requirements2AlwaysFallsBack(ops: seq<Op>)
    requires WithinCounters(ops)
    ensures Reported(Run(ops), 0) == FALLBACK
  {
    RunKeepsInv(ops);
    OtherBufferFallsBack(ops, 0);
  }

  /** No handle is given out twice, until the 64-bit counter wraps. */
  lemma HandlesNeverRepeat(ops: seq<Op>, i: nat, j: nat)
    requires FIRST_DYNAMIC + |ops| < U64 && i < j <= |ops|
    ensures Run(ops[..i]).nextHandle < Run(ops[..j]).nextHandle
  {
    HandlesCount(ops[..i]);
    HandlesCount(ops[..j]);
  }

  lemma {:induction false} HandlesCount(ops: seq<Op>)
    requires FIRST_DYNAMIC + |ops| < U64
    ensures Run(ops).nextHandle == FIRST_DYNAMIC + |ops|
    decreases |ops|
  {
    if ops != [] { HandlesCount(ops[..|ops| - 1]); }
  }

  // ---- memory types ----------------------------------------------------------------------

  const ALIGNMENT: u64 := 256

  /** uk_buffer_memory_type_bits: every type of the real properties, the first
      three when there are none. */
  function TypeBits(valid: bool, typeCount: u32): nat {
    if !(valid && 0 < typeCount <= 32) then 0x7
    else if typeCount >= 32 then 0xFFFF_FFFF
    else
      ShlIsProduct(1, typeCount);
      Shl(1, typeCount) - 1
  }

  function TypesOffered(valid: bool, typeCount: u32): nat {
    if valid && 0 < typeCount <= 32 then typeCount else 3
  }

  /** Bit i of the mask is set exactly for the types offered. */
  lemma TypeBitsAreTypes(valid: bool, typeCount: u32, i: nat)
    ensures TypeBits(valid, typeCount) < U32
    ensures Shr(TypeBits(valid, typeCount), i) % 2 == 1 <==> i < TypesOffered(valid, typeCount)
  {
    TypeBitsAreOnes(valid, typeCount);
    Pow2Monotone(TypesOffered(valid, typeCount), 32);
    Pow2Values();
    OnesAt(TypesOffered(valid, typeCount), i);
    hide TypeBits, TypesOffered, Shr, Pow2;
  }

  lemma OnesAt(n: nat, i: nat)
    ensures Shr(Pow2(n) - 1, i) % 2 == 1 <==> i < n
  {
    if i <= n {
      OnesShr(n, i);
      OddOnes(n - i);
    } else {
      Pow2Monotone(n, i);
      ShrSmall(Pow2(n) - 1, i);
    }
  }

  lemma TypeBitsAreOnes(valid: bool, typeCount: u32)
    ensures TypeBits(valid, typeCount) == Pow2(TypesOffered(valid, typeCount)) - 1
  {
    Pow2Values();
    ShlIsProduct(1, TypesOffered(valid, typeCount));
    assert Pow2(3) == 8;
  }

  lemma OddOnes(k: nat)
    ensures (Pow2(k) - 1) % 2 == 1 <==> k > 0
  {
    if k > 0 { assert Pow2(k) == 2 * Pow2(k - 1); }
    hide Pow2;
  }

  // ---- the globals -----------------------------------------------------------------------

  class BufferTable {
    const entries: array<Entry>
    var created: nat
    var nextHandle: u64

    ghost predicate Valid()
      reads this
    {
      entries.Length == SLOTS
    }

    ghost function View(): Table
      requires Valid()
      reads this, entries
    {
      Table(entries[..], created, nextHandle)
    }

    constructor ()
      ensures Valid() && fresh(entries) && View() == Empty()
    {
      entries := new Entry[SLOTS](_ => Entry(0, 0));
      created, nextHandle := 0, FIRST_DYNAMIC;
      new;
      assert entries[..] == Empty().entries;
    }

    /** uk_vk_alloc_handle */
    method AllocHandle() returns (h: u64)
      requires Valid()
      modifies this`nextHandle
      ensures Valid() && h == old(nextHandle) && View() == AfterAlloc(old(View()))
    {
      h := nextHandle;
      nextHandle := (nextHandle + 1) % U64;
    }

    /** uk_buf_size_put */
    method PutSize(handle: u64, size: u64)
      requires Valid() && created < INT_MAX
      modifies this`created, entries
      ensures Valid() && View() == Put(old(View()), handle, size)
    {
      var slot := created % SLOTS;
      created := created + 1;
      entries[slot] := Entry(handle, size);
      assert entries[..] == old(entries[..])[slot := Entry(handle, size)];
    }

    /** uk_buf_size_find */
    method FindSize(handle: u64) returns (size: u64)
      requires Valid()
      ensures size == Find(entries[..], handle)
    {
      for i := 0 to SLOTS
        invariant Find(entries[i..], handle) == Find(entries[..], handle)
      {
        assert entries[i..][0] == entries[i] && entries[i..][1..] == entries[i + 1..];
        if entries[i].handle == handle { return entries[i].size; }
      }
      assert entries[SLOTS..] == [];
      return 0;
    }

    /** The table's part of stub_vkCreateBuffer */
    method CreateBuffer(sz: u64) returns (h: u64)
      requires Valid() && created < INT_MAX
      modifies this, entries
      ensures Valid() && h == old(nextHandle) && View() == AfterCreate(old(View()), sz)
    {
      h := AllocHandle();
      PutSize(h, PageAlign(sz));
    }

    /** stub_vkGetBufferMemoryRequirements, given what is known of the host's
        memory types. */
    method GetBufferMemoryRequirements(handle: u64, valid: bool, typeCount: u32)
      returns (size: u64, alignment: u64, typeBits: u32)
      requires Valid()
      ensures size == Reported(View(), handle) && alignment == ALIGNMENT && typeBits == TypeBits(valid, typeCount)
    {
      size := FindSize(handle);
      if size == 0 { size := FALLBACK; }
      alignment := ALIGNMENT;
      TypeBitsAreTypes(valid, typeCount, 0);
      typeBits := TypeBits(valid, typeCount);
    }

    /** stub_vkGetBufferMemoryRequirements2 ignores its argument. */
    method GetBufferMemoryRequirements2(handle: u64, valid: bool, typeCount: u32)
      returns (size: u64, alignment: u64, typeBits: u32)
      requires Valid()
      ensures size == Reported(View(), 0) && alignment == ALIGNMENT && typeBits == TypeBits(valid, typeCount)
    {
      size, alignment, typeBits := GetBufferMemoryRequirements(0, valid, typeCount);
    }
  }
}
