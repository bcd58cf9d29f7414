/** uk_venus_query_memory_properties: copying the host's packed reply into the
    520-byte VkPhysicalDeviceMemoryProperties. */
module MemoryProperties {
  import opened Bits
  import opened LittleEndian

  const COMMAND: u32 := 8
  const MAX_TYPES: nat := 32
  const MAX_HEAPS: nat := 16
  const OUT_SIZE: nat := 520

  // Offsets in the reply: counts, first type (8 bytes each), first heap (12 bytes each).
  const TYPE_COUNT_AT: nat := 12
  const TYPES_AT: nat := 24
  const HEAP_COUNT_AT: nat := 280
  const HEAPS_AT: nat := 292
  const REPLY_SIZE: nat := 484

  // Offsets in the result: types of 8 bytes, heaps of 16 of which 12 are used.
  const OUT_TYPES: nat := 4
  const OUT_HEAP_COUNT: nat := 260
  const OUT_HEAPS: nat := 264

  // ---- what the call leaves in the result ---------------------------------------------------

  /** The header is that of the reply asked for and its type count is in range;
      from here on the result is being written. */
  predicate Begun(reply: seq<u8>) {
    |reply| >= TYPES_AT && Word(reply, 0) == COMMAND && Word(reply, TYPE_COUNT_AT) <= MAX_TYPES
  }

  /** The reply is accepted. */
  predicate Accepted(reply: seq<u8>) {
    Begun(reply) && |reply| >= REPLY_SIZE && Word(reply, HEAP_COUNT_AT) <= MAX_HEAPS
  }

  /** How far the copying gets: types read, heap count stored, heaps read. */
  datatype Progress = Progress(types: nat, heapCount: bool, heaps: nat)

  predicate Covered(reply: seq<u8>, p: Progress) {
    && |reply| >= TYPES_AT + 8 * p.types && p.types <= MAX_TYPES
    && (p.heapCount ==> p.types == MAX_TYPES && |reply| >= HEAP_COUNT_AT + 4)
    && (p.heaps > 0 ==> p.heapCount && |reply| >= HEAPS_AT + 12 * p.heaps && p.heaps <= MAX_HEAPS)
  }

  function Min(a: nat, b: nat): nat { if a <= b then a else b }

  /** Entries are copied as long as they lie whole below the reply length. */
  function Reached(reply: seq<u8>): (p: Progress)
    requires Begun(reply)
    ensures Covered(reply, p)
  {
    if |reply| < HEAP_COUNT_AT + 4 || Word(reply, HEAP_COUNT_AT) > MAX_HEAPS
    then Progress(Min(MAX_TYPES, (|reply| - TYPES_AT) / 8), false, 0)
    else Progress(MAX_TYPES, true, if |reply| < HEAPS_AT then 0 else Min(MAX_HEAPS, (|reply| - HEAPS_AT) / 12))
  }

  /** Byte k of the result once `p` of the reply has been copied. Entries beyond
      the counts the host reports are read and dropped. */
  function ByteAt(reply: seq<u8>, p: Progress, k: nat): u8
    requires Covered(reply, p) && k < OUT_SIZE
  {
    if k < OUT_TYPES then reply[TYPE_COUNT_AT + k]
    else if k < OUT_HEAP_COUNT then
      var i := (k - OUT_TYPES) / 8;
      if i < p.types && i < Word(reply, TYPE_COUNT_AT) then reply[TYPES_AT + k - OUT_TYPES] else 0
    else if k < OUT_HEAPS then
      if p.heapCount then reply[HEAP_COUNT_AT + k - OUT_HEAP_COUNT] else 0
    else
      var i, j := (k - OUT_HEAPS) / 16, (k - OUT_HEAPS) % 16;
      if i < p.heaps && i < Word(reply, HEAP_COUNT_AT) && j < 12 then reply[HEAPS_AT + 12 * i + j] else 0
  }

  function Result(reply: seq<u8>, p: Progress): (out: seq<u8>)
    requires Covered(reply, p)
    ensures |out| == OUT_SIZE
  {
    seq(OUT_SIZE, (k: nat) requires k < OUT_SIZE => ByteAt(reply, p, k))
  }

  ghost predicate Shows(out: array<u8>, reply: seq<u8>, p: Progress)
    requires Covered(reply, p) && out.Length >= OUT_SIZE
    reads out
  {
    forall k :: 0 <= k < OUT_SIZE ==> out[k] == ByteAt(reply, p, k)
  }

  // ---- the parse --------------------------------------------------------------------------------

  /** `r` is the reply buffer and `n` what the round trip returned: the number of
      bytes that are the reply, or negative. The outcome depends on those bytes
      only, and nothing behind the 520 bytes of the result is touched.

      The result is left alone only when the call fails before the first store;
      a later failure leaves what was copied so far. */
  method QueryMemoryProperties(r: array<u8>, n: int, out: array<u8>) returns (code: int)
    requires n <= r.Length && out.Length >= OUT_SIZE && r != out
    modifies out
    ensures var reply := r[..if n < 0 then 0 else n];
      && (code == 0 || code == -1)
      && (code == 0 <==> Accepted(reply))
      && (!Begun(reply) ==> out[..] == old(out[..]))
      && (Begun(reply) ==> out[..OUT_SIZE] == Result(reply, Reached(reply)))
    ensures out[OUT_SIZE..] == old(out[OUT_SIZE..])
  {
    if n < TYPES_AT { return -1; }
    ghost var reply := r[..n];
    var cmdType := WordAt(r, n, 0);
    if cmdType != COMMAND { return -1; }
    var typeCount := WordAt(r, n, TYPE_COUNT_AT);
    if typeCount > MAX_TYPES { return -1; }
    StartResult(r, n, out);
    var typesOk := CopyTypes(r, n, out, typeCount);
    if !typesOk || HEAP_COUNT_AT + 4 > n {
      ResultFrom(out, reply, Reached(reply));
      return -1;
    }
    var heapCount := WordAt(r, n, HEAP_COUNT_AT);
    if heapCount > MAX_HEAPS {
      ResultFrom(out, reply, Reached(reply));
      return -1;
    }
    CopyHeapCount(r, n, out);
    var heapsOk := CopyHeaps(r, n, out, heapCount);
    ResultFrom(out, reply, Reached(reply));
    return if heapsOk then 0 else -1;
  }

  lemma ResultFrom(out: array<u8>, reply: seq<u8>, p: Progress)
    requires Covered(reply, p) && out.Length >= OUT_SIZE && Shows(out, reply, p)
    ensures out[..OUT_SIZE] == Result(reply, p)
  {
  }

  /** memcpy of four bytes into a 32-bit variable */
  method WordAt(r: array<u8>, n: nat, at: nat) returns (v: u32)
    requires at + 4 <= n <= r.Length
    ensures v == Word(r[..n], at)
  {
    var b0: int, b1: int, b2: int, b3: int := r[at], r[at + 1], r[at + 2], r[at + 3];
    assert r[..n][at] == r[at] && r[..n][at + 1] == r[at + 1] && r[..n][at + 2] == r[at + 2] && r[..n][at + 3] == r[at + 3];
    v := b0 + 0x100 * b1 + 0x1_0000 * b2 + 0x100_0000 * b3;
  }

  /** memset, then the type count */
  method StartResult(r: array<u8>, n: nat, out: array<u8>)
    requires TYPES_AT <= n <= r.Length && out.Length >= OUT_SIZE && r != out
    modifies out
    ensures Shows(out, r[..n], Progress(0, false, 0))
    ensures out[OUT_SIZE..] == old(out[OUT_SIZE..])
  {
    MemCpy(out, 0, seq(OUT_SIZE, _ => 0));
    MemCpy(out, 0, r[TYPE_COUNT_AT..TYPE_COUNT_AT + 4]);
  }

  method CopyTypes(r: array<u8>, n: nat, out: array<u8>, typeCount: u32) returns (ok: bool)
    requires TYPES_AT <= n <= r.Length && out.Length >= OUT_SIZE && r != out
    requires typeCount == Word(r[..n], TYPE_COUNT_AT) <= MAX_TYPES
    requires Shows(out, r[..n], Progress(0, false, 0))
    modifies out
    ensures ok <==> n >= HEAP_COUNT_AT
    ensures Covered(r[..n], Progress(Min(MAX_TYPES, (n - TYPES_AT) / 8), false, 0))
    ensures Shows(out, r[..n], Progress(Min(MAX_TYPES, (n - TYPES_AT) / 8), false, 0))
    ensures out[OUT_SIZE..] == old(out[OUT_SIZE..])
  {
    var off := TYPES_AT;
    for i := 0 to MAX_TYPES
      invariant off == TYPES_AT + 8 * i <= n
      invariant Shows(out, r[..n], Progress(i, false, 0))
      invariant out[OUT_SIZE..] == old(out[OUT_SIZE..])
    {
      if off + 8 > n { return false; }
      if i < typeCount {
        MemCpy(out, OUT_TYPES + 8 * i, r[off..off + 8]);
      }
      off := off + 8;
    }
    return true;
  }

  method CopyHeapCount(r: array<u8>, n: nat, out: array<u8>)
    requires HEAP_COUNT_AT + 4 <= n <= r.Length && out.Length >= OUT_SIZE && r != out
    requires Shows(out, r[..n], Progress(MAX_TYPES, false, 0))
    modifies out
    ensures Shows(out, r[..n], Progress(MAX_TYPES, true, 0))
    ensures out[OUT_SIZE..] == old(out[OUT_SIZE..])
  {
    MemCpy(out, OUT_HEAP_COUNT, r[HEAP_COUNT_AT..HEAP_COUNT_AT + 4]);
  }

  /** One turn of the heap loop. */
  method CopyHeap(r: array<u8>, n: nat, out: array<u8>, heapCount: u32, i: nat)
    requires i < MAX_HEAPS && HEAPS_AT + 12 * i + 12 <= n <= r.Length && out.Length >= OUT_SIZE && r != out
    requires heapCount == Word(r[..n], HEAP_COUNT_AT)
    requires Shows(out, r[..n], Progress(MAX_TYPES, true, i))
    modifies out
    ensures Shows(out, r[..n], Progress(MAX_TYPES, true, i + 1))
    ensures out[OUT_SIZE..] == old(out[OUT_SIZE..])
  {
    hide Word;
    if i < heapCount {
      MemCpy(out, OUT_HEAPS + 16 * i, r[HEAPS_AT + 12 * i..HEAPS_AT + 12 * i + 12]);
    }
  }

  method CopyHeaps(r: array<u8>, n: nat, out: array<u8>, heapCount: u32) returns (ok: bool)
    requires HEAP_COUNT_AT + 4 <= n <= r.Length && out.Length >= OUT_SIZE && r != out
    requires heapCount == Word(r[..n], HEAP_COUNT_AT) <= MAX_HEAPS
    requires Shows(out, r[..n], Progress(MAX_TYPES, true, 0))
    modifies out
    ensures ok <==> n >= REPLY_SIZE
    ensures var heaps := if n < HEAPS_AT then 0 else Min(MAX_HEAPS, (n - HEAPS_AT) / 12);
      Covered(r[..n], Progress(MAX_TYPES, true, heaps)) && Shows(out, r[..n], Progress(MAX_TYPES, true, heaps))
    ensures out[OUT_SIZE..] == old(out[OUT_SIZE..])
  {
    var off := HEAPS_AT;
    for i := 0 to MAX_HEAPS
      invariant off == HEAPS_AT + 12 * i && (i > 0 ==> off <= n)
      invariant Shows(out, r[..n], Progress(MAX_TYPES, true, i))
      invariant out[OUT_SIZE..] == old(out[OUT_SIZE..])
    {
      if off + 12 > n { return false; }
      CopyHeap(r, n, out, heapCount, i);
      off := off + 12;
    }
    return true;
  }

  // ---- it inverts the host's layout --------------------------------------------------------------

  datatype MemoryType = MemoryType(flags: u32, heapIndex: u32)
  datatype MemoryHeap = MemoryHeap(size: u64, flags: u32)

  /** The host sends both arrays whole, whatever its counts say. */
  datatype Host = Host(typeCount: u32, types: seq<MemoryType>, heapCount: u32, heaps: seq<MemoryHeap>)

  predicate Whole(h: Host) { |h.types| == MAX_TYPES && |h.heaps| == MAX_HEAPS }

  function TypesWire(types: seq<MemoryType>): (s: seq<u8>)
    ensures |s| == 8 * |types|
  {
    if types == [] then [] else LE32(types[0].flags) + LE32(types[0].heapIndex) + TypesWire(types[1..])
  }

  function HeapsWire(heaps: seq<MemoryHeap>): (s: seq<u8>)
    ensures |s| == 12 * |heaps|
  {
    if heaps == [] then [] else LE64(heaps[0].size) + LE32(heaps[0].flags) + HeapsWire(heaps[1..])
  }

  function TypesPart(h: Host): seq<u8> { LE32(h.typeCount) + LE64(MAX_TYPES) + TypesWire(h.types) }

  function HeapsPart(h: Host): seq<u8> { LE32(h.heapCount) + LE64(MAX_HEAPS) + HeapsWire(h.heaps) }

  /** The packed reply. */
  function Wire(h: Host): seq<u8> { LE32(COMMAND) + LE64(1) + TypesPart(h) + HeapsPart(h) }

  // The fields of the result structure.
  function OutTypeCount(out: seq<u8>): u32 requires |out| == OUT_SIZE { Word(out, 0) }
  function OutHeapCount(out: seq<u8>): u32 requires |out| == OUT_SIZE { Word(out, OUT_HEAP_COUNT) }

  function OutType(out: seq<u8>, i: nat): MemoryType
    requires |out| == OUT_SIZE && i < MAX_TYPES
  {
    MemoryType(Word(out, OUT_TYPES + 8 * i), Word(out, OUT_TYPES + 8 * i + 4))
  }

  function OutHeap(out: seq<u8>, i: nat): MemoryHeap
    requires |out| == OUT_SIZE && i < MAX_HEAPS
  {
    MemoryHeap(Word64(out, OUT_HEAPS + 16 * i), Word(out, OUT_HEAPS + 16 * i + 8))
  }

  /** Part of a copied block is copied too. */
  lemma PartOfBlock(a: seq<u8>, i: nat, b: seq<u8>, j: nat, n: nat, p: nat, q: nat)
    requires i + n <= |a| && j + n <= |b| && a[i..i + n] == b[j..j + n] && p <= q <= n
    ensures a[i + p..i + q] == b[j + p..j + q]
  {
    var s, t := a[i + p..i + q], b[j + p..j + q];
    forall k | 0 <= k < |s|
      ensures s[k] == t[k]
    {
      assert s[k] == a[i..i + n][p + k] && t[k] == b[j..j + n][p + k];
    }
  }

  lemma {:induction false} TypeOnWire(types: seq<MemoryType>, i: nat)
    requires i < |types|
    ensures TypesWire(types)[8 * i..8 * i + 4] == LE32(types[i].flags)
    ensures TypesWire(types)[8 * i + 4..8 * i + 8] == LE32(types[i].heapIndex)
    decreases |types|
  {
    hide LE32;
    var s, rest := TypesWire(types), TypesWire(types[1..]);
    assert s == LE32(types[0].flags) + LE32(types[0].heapIndex) + rest;
    if i > 0 {
      hide TypesWire;
      TypeOnWire(types[1..], i - 1);
      assert s[8..8 + |rest|] == rest[0..0 + |rest|];
      PartOfBlock(s, 8, rest, 0, |rest|, 8 * (i - 1), 8 * (i - 1) + 4);
      PartOfBlock(s, 8, rest, 0, |rest|, 8 * (i - 1) + 4, 8 * (i - 1) + 8);
    }
  }

  lemma {:induction false} HeapOnWire(heaps: seq<MemoryHeap>, i: nat)
    requires i < |heaps|
    ensures HeapsWire(heaps)[12 * i..12 * i + 8] == LE64(heaps[i].size)
    ensures HeapsWire(heaps)[12 * i + 8..12 * i + 12] == LE32(heaps[i].flags)
    decreases |heaps|
  {
    hide LE32, LE64;
    var s, rest := HeapsWire(heaps), HeapsWire(heaps[1..]);
    assert s == LE64(heaps[0].size) + LE32(heaps[0].flags) + rest;
    if i > 0 {
      hide HeapsWire;
      HeapOnWire(heaps[1..], i - 1);
      assert s[12..12 + |rest|] == rest[0..0 + |rest|];
      PartOfBlock(s, 12, rest, 0, |rest|, 12 * (i - 1), 12 * (i - 1) + 8);
      PartOfBlock(s, 12, rest, 0, |rest|, 12 * (i - 1) + 8, 12 * (i - 1) + 12);
    }
  }

  /** Where the parts of a packed reply lie. */
  lemma WireParts(h: Host, tail: seq<u8>)
    requires Whole(h)
    ensures var reply := Wire(h) + tail;
      && |reply| == REPLY_SIZE + |tail|
      && Word(reply, 0) == COMMAND && Word(reply, TYPE_COUNT_AT) == h.typeCount
      && Word(reply, HEAP_COUNT_AT) == h.heapCount
      && reply[TYPES_AT..HEAP_COUNT_AT] == TypesWire(h.types)
      && reply[HEAPS_AT..REPLY_SIZE] == HeapsWire(h.heaps)
  {
    var reply := Wire(h) + tail;
    assert reply[0..4] == LE32(COMMAND);
    assert reply[TYPE_COUNT_AT..TYPE_COUNT_AT + 4] == LE32(h.typeCount);
    assert reply[HEAP_COUNT_AT..HEAP_COUNT_AT + 4] == LE32(h.heapCount);
    WordOfLE32(reply, 0, COMMAND);
    WordOfLE32(reply, TYPE_COUNT_AT, h.typeCount);
    WordOfLE32(reply, HEAP_COUNT_AT, h.heapCount);
  }

  /** A complete reply is accepted exactly when its counts are in range, and then
      the result holds the host's counts and each of its counted types and heaps. */
  lemma InvertsWire(h: Host, tail: seq<u8>)
    requires Whole(h)
    ensures var reply := Wire(h) + tail;
      && (Accepted(reply) <==> h.typeCount <= MAX_TYPES && h.heapCount <= MAX_HEAPS)
      && (Accepted(reply) ==>
            var out := Result(reply, Reached(reply));
            && OutTypeCount(out) == h.typeCount && OutHeapCount(out) == h.heapCount
            && (forall i :: 0 <= i < h.typeCount ==> OutType(out, i) == h.types[i])
            && (forall i :: 0 <= i < h.heapCount ==> OutHeap(out, i) == h.heaps[i]))
  {
    var reply := Wire(h) + tail;
    WireParts(h, tail);
    if Accepted(reply) {
      var out := Result(reply, Reached(reply));
      SameWord(reply, TYPE_COUNT_AT, out, 0);
      SameWord(reply, HEAP_COUNT_AT, out, OUT_HEAP_COUNT);
      forall i: nat | i < h.typeCount
        ensures OutType(out, i) == h.types[i]
      {
        TypeCopied(h, tail, i);
      }
      forall i: nat | i < h.heapCount
        ensures OutHeap(out, i) == h.heaps[i]
      {
        HeapCopied(h, tail, i);
      }
    }
  }

  lemma SameWord(a: seq<u8>, i: nat, b: seq<u8>, j: nat)
    requires i + 4 <= |a| && j + 4 <= |b|
    requires a[i] == b[j] && a[i + 1] == b[j + 1] && a[i + 2] == b[j + 2] && a[i + 3] == b[j + 3]
    ensures Word(a, i) == Word(b, j)
  {
  }

  /** A counted type is eight bytes of the reply, copied. */
  lemma TypeBlock(reply: seq<u8>, i: nat)
    requires Accepted(reply) && i < Word(reply, TYPE_COUNT_AT)
    ensures var out := Result(reply, Reached(reply));
      out[OUT_TYPES + 8 * i..OUT_TYPES + 8 * i + 8] == reply[TYPES_AT + 8 * i..TYPES_AT + 8 * i + 8]
  {
    hide Word;
  }

  /** A counted heap is twelve bytes of the reply, copied. */
  lemma HeapBlock(reply: seq<u8>, i: nat)
    requires Accepted(reply) && i < Word(reply, HEAP_COUNT_AT)
    ensures var out := Result(reply, Reached(reply));
      out[OUT_HEAPS + 16 * i..OUT_HEAPS + 16 * i + 12] == reply[HEAPS_AT + 12 * i..HEAPS_AT + 12 * i + 12]
  {
    hide Word;
  }

  lemma TypeCopied(h: Host, tail: seq<u8>, i: nat)
    requires Whole(h) && Accepted(Wire(h) + tail) && i < h.typeCount <= MAX_TYPES
    ensures var reply := Wire(h) + tail; OutType(Result(reply, Reached(reply)), i) == h.types[i]
  {
    hide Wire, ByteAt, TypesWire, Word;
    WireParts(h, tail);
    TypeBlock(Wire(h) + tail, i);
    TypeOnWire(h.types, i);
    var reply := Wire(h) + tail;
    var out := Result(reply, Reached(reply));
    var types := reply[TYPES_AT..HEAP_COUNT_AT];
    assert types[0..0 + 8 * MAX_TYPES] == types;
    PartOfBlock(types, 0, reply, TYPES_AT, 8 * MAX_TYPES, 8 * i, 8 * i + 8);
    PartOfBlock(out, OUT_TYPES + 8 * i, types, 8 * i, 8, 0, 4);
    PartOfBlock(out, OUT_TYPES + 8 * i, types, 8 * i, 8, 4, 8);
    WordOfLE32(out, OUT_TYPES + 8 * i, h.types[i].flags);
    WordOfLE32(out, OUT_TYPES + 8 * i + 4, h.types[i].heapIndex);
  }

  lemma HeapCopied(h: Host, tail: seq<u8>, i: nat)
    requires Whole(h) && Accepted(Wire(h) + tail) && i < h.heapCount <= MAX_HEAPS
    ensures var reply := Wire(h) + tail; OutHeap(Result(reply, Reached(reply)), i) == h.heaps[i]
  {
    hide Wire, ByteAt, HeapsWire, Word, Word64;
    WireParts(h, tail);
    HeapBlock(Wire(h) + tail, i);
    HeapOnWire(h.heaps, i);
    var reply := Wire(h) + tail;
    var out := Result(reply, Reached(reply));
    var heaps := reply[HEAPS_AT..REPLY_SIZE];
    assert heaps[0..0 + 12 * MAX_HEAPS] == heaps;
    PartOfBlock(heaps, 0, reply, HEAPS_AT, 12 * MAX_HEAPS, 12 * i, 12 * i + 12);
    PartOfBlock(out, OUT_HEAPS + 16 * i, heaps, 12 * i, 12, 0, 8);
    PartOfBlock(out, OUT_HEAPS + 16 * i, heaps, 12 * i, 12, 8, 12);
    WordOfLE64(out, OUT_HEAPS + 16 * i, h.heaps[i].size);
    WordOfLE32(out, OUT_HEAPS + 16 * i + 8, h.heaps[i].flags);
  }

  // ---- the replies the round trip delivers ----------------------------------------------------------

  /** The reply buffer of the query, which the round trip always fills: the blob
      it copies from is larger. */
  const REPLY_CAP: nat := 1024

  /** A full-length reply fails for one of three reasons: another command and too
      many types leave the result alone; too many heaps are found out only after
      the types have been copied, and leave those with no heaps. */
  lemma FullReplyOutcomes(reply: seq<u8>)
    requires |reply| == REPLY_CAP
    ensures Begun(reply) <==> Word(reply, 0) == COMMAND && Word(reply, TYPE_COUNT_AT) <= MAX_TYPES
    ensures Begun(reply) && !Accepted(reply) <==> Begun(reply) && Word(reply, HEAP_COUNT_AT) > MAX_HEAPS
    ensures Begun(reply) && !Accepted(reply) ==>
              && Reached(reply) == Progress(MAX_TYPES, false, 0)
              && OutTypeCount(Result(reply, Reached(reply))) == Word(reply, TYPE_COUNT_AT)
              && OutHeapCount(Result(reply, Reached(reply))) == 0
  {
    if Begun(reply) && !Accepted(reply) {
      SameWord(reply, TYPE_COUNT_AT, Result(reply, Reached(reply)), 0);
    }
  }

  /** So a failed call need not leave the caller its default: any host that
      reports more than 16 heaps, in a reply of the length always received,
      makes the call fail with the result overwritten. */
  lemma TooManyHeapsOverwritesResult(h: Host, tail: seq<u8>)
    requires Whole(h) && h.typeCount <= MAX_TYPES && h.heapCount > MAX_HEAPS && |tail| == REPLY_CAP - REPLY_SIZE
    ensures var reply := Wire(h) + tail;
      && |reply| == REPLY_CAP && Begun(reply) && !Accepted(reply)
      && OutTypeCount(Result(reply, Reached(reply))) == h.typeCount
      && OutHeapCount(Result(reply, Reached(reply))) == 0
  {
    WireParts(h, tail);
    hide Wire, Word;
    FullReplyOutcomes(Wire(h) + tail);
  }
}
