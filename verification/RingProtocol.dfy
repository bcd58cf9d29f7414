/** The Venus command ring as a protocol between one guest writer and one host
    reader that share memory. */
module RingProtocol {

  // The guest's write is split into the steps that other steps can interleave
  // with: the space check (which loads the shared head once), the copy of each
  // byte, and the advance of the private tail. A later flush publishes that
  // tail. The host consumes any amount up to the published tail, at any time.
  // Head and tails are free-running 32-bit words.

  import opened Bits

  /** The data area and the index words, as memory and the guest hold them. */
  datatype Ring = Ring(buf: seq<u8>, head: u32, tail: u32, curTail: u32)

  /** Where the guest's write stands. In `Copying` the space check has passed
      and the first `done` bytes have been copied. */
  datatype Guest = Idle | Copying(data: seq<u8>, done: nat)

  /** The ring together with what has been written, published and consumed so
      far, counted without wrapping. */
  datatype World = World(ring: Ring, guest: Guest, accepted: seq<u8>,
                         published: nat, consumed: seq<u8>)

  datatype Event =
    | Begin(data: seq<u8>)    // uk_venus_ring_cmd_write up to its space check
    | CopyByte                // one byte of the (possibly split) memcpy
    | Finish                  // the advance of cur_tail
    | Flush                   // uk_venus_ring_cmd_flush
    | Consume(n: nat)         // the host reads n bytes, then stores head

  ghost predicate ValidSize(n: nat) { IsPow2(n) && n <= 0x8000_0000 }

  /** `buf_size - (cur_tail - head)`, in 32 bits. */
  function Avail(size: nat, curTail: u32, head: u32): u32 {
    Sub32(size, Sub32(curTail, head))
  }

  /** `index & buf_mask` */
  function Masked(size: nat, index: u32): nat
    requires size > 0
  {
    And(index, size - 1)
  }

  /** Where byte i of a write of len bytes lands: one copy when the data fits
      before the end of the buffer, otherwise a first part up to the end and
      the rest from the start. */
  function CopyIndex(size: nat, curTail: u32, len: nat, i: nat): int
    requires size > 0
  {
    var offset := Masked(size, curTail);
    if (offset + len) % U32 <= size then offset + i
    else
      var first := size - offset;
      if i < first then offset + i else i - first
  }

  /** What the host reads: n bytes from its head on, each index masked. */
  function HostRead(r: Ring, n: nat): seq<u8>
    requires |r.buf| > 0 && ValidSize(|r.buf|)
  {
    seq(n, i requires 0 <= i < n =>
      MaskedInRange(|r.buf|, (r.head + i) % U32);
      r.buf[Masked(|r.buf|, (r.head + i) % U32)])
  }

  ghost predicate Enabled(w: World, e: Event) {
    match e
    case Begin(data) => w.guest.Idle? && 0 < |data| <= Avail(|w.ring.buf|, w.ring.curTail, w.ring.head)
    case CopyByte => w.guest.Copying? && w.guest.done < |w.guest.data|
    case Finish => w.guest.Copying? && w.guest.done == |w.guest.data|
    case Flush => w.guest.Idle?
    case Consume(n) => n <= Sub32(w.ring.tail, w.ring.head)
  }

  /** One step; an event that is not enabled (a write refused with -ENOSPC, for
      one) changes nothing. */
  ghost function Step(w: World, e: Event): World
    requires ValidSize(|w.ring.buf|)
  {
    if !Enabled(w, e) then w else
    var r, size := w.ring, |w.ring.buf|;
    match e
    case Begin(data) => w.(guest := Copying(data, 0))
    case CopyByte =>
      var at := CopyIndex(size, r.curTail, |w.guest.data|, w.guest.done);
      if 0 <= at < size then
        w.(ring := r.(buf := r.buf[at := w.guest.data[w.guest.done]]),
           guest := w.guest.(done := w.guest.done + 1))
      else w
    case Finish =>
      w.(ring := r.(curTail := (r.curTail + |w.guest.data|) % U32),
         guest := Idle, accepted := w.accepted + w.guest.data)
    case Flush => w.(ring := r.(tail := r.curTail), published := |w.accepted|)
    case Consume(n) =>
      w.(ring := r.(head := (r.head + n) % U32), consumed := w.consumed + HostRead(r, n))
  }

  ghost function Run(w: World, events: seq<Event>): (w': World)
    requires ValidSize(|w.ring.buf|)
    ensures ValidSize(|w'.ring.buf|)
    decreases events
  {
    if events == [] then w else Run(Step(w, events[0]), events[1..])
  }

  /** The state after uk_venus_ring_register. */
  ghost predicate Initial(w: World) {
    && ValidSize(|w.ring.buf|)
    && w.ring.head == 0 && w.ring.tail == 0 && w.ring.curTail == 0
    && w.guest.Idle? && w.accepted == [] && w.published == 0 && w.consumed == []
  }

  // ---- the invariant -----------------------------------------------------

  /** The index words are the unbounded counts modulo 2^32; the counts are in
      order and the backlog fits; every accepted byte that is not consumed is
      still in its cell; a write in progress has room for all of its bytes. */
  ghost predicate Inv(w: World) {
    var n, wr, co := |w.ring.buf|, |w.accepted|, |w.consumed|;
    && ValidSize(n)
    && w.ring.curTail == wr % U32 && w.ring.tail == w.published % U32 && w.ring.head == co % U32
    && co <= w.published <= wr <= co + n
    && w.consumed == w.accepted[..co]
    && Holds(w.ring.buf, w.accepted, co)
    && (w.guest.Copying? ==>
          && 0 < |w.guest.data| && w.guest.done <= |w.guest.data|
          && wr + |w.guest.data| <= co + n
          && Staged(w.ring.buf, wr, w.guest.data, w.guest.done))
  }

  /** The cell of the data area that index i of the byte stream uses. */
  function Cell(i: int, n: nat): (c: nat)
    requires n > 0
    ensures c < n
  {
    i % n
  }

  /** The cell of the j-th byte of a write that starts at index `start`. */
  function CellAt(n: nat, start: nat, j: nat): (c: nat)
    requires n > 0
    ensures c < n
  {
    Cell(start + j, n)
  }

  ghost predicate Holds(buf: seq<u8>, accepted: seq<u8>, from: nat)
    requires |buf| > 0
  {
    forall k :: from <= k < |accepted| ==> buf[Cell(k, |buf|)] == accepted[k]
  }

  ghost predicate Staged(buf: seq<u8>, start: nat, data: seq<u8>, done: nat)
    requires |buf| > 0 && done <= |data|
  {
    forall j :: 0 <= j < done ==> buf[CellAt(|buf|, start, j)] == data[j]
  }

  lemma SizeFacts(n: nat) returns (k: nat)
    requires ValidSize(n)
    ensures n == Pow2(k) && k <= 31 && n > 0
    ensures U32 == Pow2(32 - k) * n
  {
    k :| n == Pow2(k);
    Pow2Values();
    if k >= 32 { Pow2Monotone(32, k); assert false; }
    Pow2Divides(k, 32);
  }

  /** Masking a 32-bit index word selects the cell of the unbounded index. */
  lemma MaskedIsMod(n: nat, i: nat)
    requires ValidSize(n)
    ensures n > 0 && Masked(n, i % U32) == Cell(i, n)
  {
    var k := SizeFacts(n);
    AndMask(i % U32, k);
    ModOfMod(i, Pow2(32 - k), n);
  }

  lemma MaskedInRange(n: nat, x: u32)
    requires ValidSize(n)
    ensures n > 0 && 0 <= Masked(n, x) < n
  {
    MaskedIsMod(n, x);
    assert x % U32 == x;
  }

  /** 32-bit differences of nearby counts are the true differences. */
  lemma WordDifference(a: nat, b: nat)
    requires b <= a < b + U32
    ensures Sub32(a % U32, b % U32) == a - b
  {
    var qa, qb := a / U32, b / U32;
    assert a % U32 - b % U32 == (a - b) + (qb - qa) * U32;
    ModShift(a - b, U32, qb - qa);
    SmallMod(a - b, U32);
  }

  /** The space check sees exactly the free space, so a write is accepted if
      and only if it fits. */
  lemma AvailIsFree(w: World)
    requires Inv(w)
    ensures Avail(|w.ring.buf|, w.ring.curTail, w.ring.head)
            == |w.ring.buf| - (|w.accepted| - |w.consumed|)
  {
    var k := SizeFacts(|w.ring.buf|);
    WordDifference(|w.accepted|, |w.consumed|);
    SmallMod(|w.ring.buf| - (|w.accepted| - |w.consumed|), U32);
  }

  /** The split copy puts byte i of the write in the cell of its own index. */
  lemma CopyIndexIsCell(n: nat, start: nat, len: nat, i: nat)
    requires ValidSize(n) && i < len <= n
    ensures n > 0 && CopyIndex(n, start % U32, len, i) == Cell(start + i, n)
  {
    var k := SizeFacts(n);
    MaskedIsMod(n, start);
    var offset := start % n;
    SmallMod(offset + len, U32);
    WrapOnce(start, i, n);
  }

  /** Adding less than n to an index goes past the end of the buffer at most once. */
  lemma WrapOnce(start: nat, i: nat, n: nat)
    requires i < n
    ensures (start + i) % n == if start % n + i < n then start % n + i else start % n + i - n
  {
    ModAdd(start, i, n);
    var x := start % n + i;
    if x < n { SmallMod(x, n); } else { ModShift(x - n, n, 1); SmallMod(x - n, n); }
  }

  // ---- preservation, step by step ------------------------------------------

  lemma CopyKeepsInv(w: World)
    requires Inv(w) && Enabled(w, CopyByte)
    ensures Inv(Step(w, CopyByte))
    ensures var n := |w.ring.buf|;
      Step(w, CopyByte).ring.buf == w.ring.buf[Cell(|w.accepted| + w.guest.done, n) := w.guest.data[w.guest.done]]
  {
    var n, wr := |w.ring.buf|, |w.accepted|;
    var data, done := w.guest.data, w.guest.done;
    CopyIndexIsCell(n, wr, |data|, done);
    var w' := Step(w, CopyByte);
    var at := Cell(wr + done, n);
    forall k | |w.consumed| <= k < wr
      ensures w'.ring.buf[Cell(k, n)] == w.accepted[k]
    {
      if Cell(k, n) == at { ModInjective(k, wr + done, n); }
    }
    forall j | 0 <= j < done
      ensures w'.ring.buf[CellAt(n, wr, j)] == data[j]
    {
      if CellAt(n, wr, j) == at { ModInjective(wr + j, wr + done, n); }
    }
  }

  lemma FinishKeepsInv(w: World)
    requires Inv(w) && Enabled(w, Finish)
    ensures Inv(Step(w, Finish))
  {
    var n, wr, data := |w.ring.buf|, |w.accepted|, w.guest.data;
    ModAdd(wr, |data|, U32);
    var w' := Step(w, Finish);
    forall k | |w.consumed| <= k < |w'.accepted|
      ensures w'.ring.buf[Cell(k, n)] == w'.accepted[k]
    {
      if k >= wr { assert Cell(k, n) == CellAt(n, wr, k - wr); }
    }
  }

  lemma HostByte(n: nat, consumed: nat, i: nat)
    requires ValidSize(n)
    ensures n > 0 && Masked(n, (consumed % U32 + i) % U32) == Cell(consumed + i, n)
  {
    ModAdd(consumed, i, U32);
    MaskedIsMod(n, consumed + i);
  }

  lemma HostReadsAccepted(w: World, m: nat)
    requires Inv(w) && |w.consumed| + m <= |w.accepted|
    ensures HostRead(w.ring, m) == w.accepted[|w.consumed|..|w.consumed| + m]
  {
    var n, co := |w.ring.buf|, |w.consumed|;
    var got := HostRead(w.ring, m);
    forall i | 0 <= i < m
      ensures got[i] == w.accepted[co + i]
    {
      HostByte(n, co, i);
      assert w.ring.buf[Cell(co + i, n)] == w.accepted[co + i];
    }
  }

  lemma ConsumeKeepsInv(w: World, m: nat)
    requires Inv(w) && Enabled(w, Consume(m))
    ensures Inv(Step(w, Consume(m)))
  {
    var co := |w.consumed|;
    PublishedDistance(w);
    HostReadsAccepted(w, m);
    ModAdd(co, m, U32);
    assert w.consumed + HostRead(w.ring, m) == w.accepted[..co + m];
  }

  lemma PublishedDistance(w: World)
    requires Inv(w)
    ensures Sub32(w.ring.tail, w.ring.head) == w.published - |w.consumed|
  {
    var k := SizeFacts(|w.ring.buf|);
    WordDifference(w.published, |w.consumed|);
  }

  lemma StepKeepsInv(w: World, e: Event)
    requires Inv(w)
    ensures Inv(Step(w, e))
  {
    if Enabled(w, e) {
      match e
      case Begin(data) => AvailIsFree(w);
      case CopyByte => CopyKeepsInv(w);
      case Finish => FinishKeepsInv(w);
      case Flush =>
      case Consume(m) => ConsumeKeepsInv(w, m);
    }
  }

  lemma {:induction false} RunKeepsInv(w: World, events: seq<Event>)
    requires Inv(w)
    ensures Inv(Run(w, events))
    decreases events
  {
    if events != [] {
      StepKeepsInv(w, events[0]);
      RunKeepsInv(Step(w, events[0]), events[1..]);
    }
  }

  // ---- what every run keeps ------------------------------------------------

  /** In every interleaving, what the host has consumed is a prefix of what the
      guest has written, never more than was published. */
  lemma ConsumedIsPrefixOfAccepted(w: World, events: seq<Event>)
    requires Initial(w)
    ensures var w' := Run(w, events);
      && w'.consumed <= w'.accepted
      && |w'.consumed| <= w'.published <= |w'.accepted| <= |w'.consumed| + |w'.ring.buf|
  {
    RunKeepsInv(w, events);
  }

  /** No step of any run changes the cell of a byte that is written and not
      yet consumed: the host will read it as it was written. */
  lemma UnconsumedNeverOverwritten(w: World, events: seq<Event>, e: Event, k: nat)
    requires Initial(w)
    requires |Run(w, events).consumed| <= k < |Run(w, events).accepted|
    ensures var now := Run(w, events);
      var next := Step(now, e);
      var n := |now.ring.buf|;
      n > 0 && |next.ring.buf| == n
      && now.ring.buf[Cell(k, n)] == next.ring.buf[Cell(k, n)] == now.accepted[k]
  {
    RunKeepsInv(w, events);
    var now := Run(w, events);
    if Enabled(now, e) && e.CopyByte? {
      CopyKeepsInv(now);
      var n, at := |now.ring.buf|, |now.accepted| + now.guest.done;
      if Cell(k, n) == Cell(at, n) { ModInjective(k, at, n); }
    }
  }

  /** A write is refused only when it is empty or really does not fit; the head
      may have moved on since it was loaded, which only frees more space. */
  lemma WriteAcceptedIffFits(w: World, events: seq<Event>, data: seq<u8>)
    requires Initial(w) && Run(w, events).guest.Idle?
    ensures var now := Run(w, events);
      Enabled(now, Begin(data)) <==>
        0 < |data| && |now.accepted| + |data| <= |now.consumed| + |now.ring.buf|
  {
    RunKeepsInv(w, events);
    AvailIsFree(Run(w, events));
  }

  // ---- waiting ---------------------------------------------------------------

  /** uk_venus_ring_cmd_wait compares 32-bit words. In every run the words are
      equal exactly when every accepted byte has been consumed: the backlog is
      too small for a false match. */
  lemma EqualWordsMeanDrained(w: World, events: seq<Event>)
    requires Initial(w)
    ensures var now := Run(w, events);
      now.ring.head == now.ring.curTail <==> now.consumed == now.accepted
  {
    RunKeepsInv(w, events);
    var now := Run(w, events);
    var k := SizeFacts(|now.ring.buf|);
    if now.ring.head == now.ring.curTail {
      WordDifference(|now.accepted|, |now.consumed|);
      SmallMod(0, U32);
    }
  }

  /** The host alone takes steps: it consumes these amounts, one after the other. */
  ghost function HostOnly(amounts: seq<nat>): seq<Event> {
    seq(|amounts|, i requires 0 <= i < |amounts| => Consume(amounts[i]))
  }

  /** While the guest only waits, a drained ring stays drained: a later poll
      cannot see the words differ again. */
  lemma {:induction false} DrainedStaysDrained(w: World, host: seq<nat>)
    requires Inv(w) && w.consumed == w.accepted
    ensures Run(w, HostOnly(host)).accepted == Run(w, HostOnly(host)).consumed == w.accepted
    decreases host
  {
    if host != [] {
      StepKeepsInv(w, HostOnly(host)[0]);
      var next := Step(w, HostOnly(host)[0]);
      assert |next.consumed| <= |next.accepted| == |w.accepted| <= |next.consumed|;
      assert HostOnly(host)[1..] == HostOnly(host[1..]);
      DrainedStaysDrained(next, host[1..]);
    }
  }

  /** Host steps change neither what was accepted nor the private tail. */
  lemma {:induction false} HostLeavesGuest(w: World, host: seq<nat>)
    requires ValidSize(|w.ring.buf|)
    ensures var w' := Run(w, HostOnly(host)); w'.accepted == w.accepted && w'.ring.curTail == w.ring.curTail
    decreases host
  {
    if host != [] {
      assert HostOnly(host)[1..] == HostOnly(host[1..]);
      HostLeavesGuest(Step(w, HostOnly(host)[0]), host[1..]);
    }
  }

  /** The successive loads of the shared head by a waiting guest: load i happens
      after the first at[i] of the host's steps. */
  ghost predicate LoadsOf(w: World, host: seq<nat>, at: seq<nat>, heads: seq<u32>)
    requires ValidSize(|w.ring.buf|)
  {
    && |at| == |heads|
    && forall i :: 0 <= i < |heads| ==> at[i] <= |host| && heads[i] == Run(w, HostOnly(host[..at[i]])).ring.head
  }

  /** A wait that sees the private tail in the shared head, at any of its loads:
      everything ever accepted had been consumed by then, and still is when the
      host has taken all its steps. */
  lemma WaitMeansConsumed(start: World, events: seq<Event>, host: seq<nat>, at: seq<nat>, heads: seq<u32>, i: nat)
    requires Initial(start) && LoadsOf(Run(start, events), host, at, heads)
    requires i < |heads| && heads[i] == Run(start, events).ring.curTail
    ensures var w := Run(start, events);
      && Run(w, HostOnly(host[..at[i]])).consumed == w.accepted
      && Run(w, HostOnly(host)).consumed == w.accepted
  {
    var w := Run(start, events);
    var seen, later := host[..at[i]], host[at[i]..];
    assert Run(w, HostOnly(seen)).ring.head == heads[i];
    hide LoadsOf, Initial, Inv;
    RunAppend(start, events, HostOnly(seen));
    EqualWordsMeanDrained(start, events + HostOnly(seen));
    HostLeavesGuest(w, seen);
    RunKeepsInv(start, events + HostOnly(seen));
    DrainedStaysDrained(Run(w, HostOnly(seen)), later);
    assert HostOnly(host) == HostOnly(seen) + HostOnly(later);
    RunAppend(w, HostOnly(seen), HostOnly(later));
  }

  /** Nothing is held back: once the guest has flushed, the host can read up to
      the published tail and has then received everything written. */
  lemma FlushThenConsumeDeliversAll(w: World, events: seq<Event>)
    requires Initial(w) && Run(w, events).guest.Idle?
    ensures var flushed := Step(Run(w, events), Flush);
      Step(flushed, Consume(Sub32(flushed.ring.tail, flushed.ring.head))).consumed == Run(w, events).accepted
  {
    RunKeepsInv(w, events);
    var now := Run(w, events);
    StepKeepsInv(now, Flush);
    ConsumeAll(Step(now, Flush));
  }

  lemma ConsumeAll(w: World)
    requires Inv(w) && w.published == |w.accepted|
    ensures Step(w, Consume(Sub32(w.ring.tail, w.ring.head))).consumed == w.accepted
  {
    PublishedDistance(w);
    HostReadsAccepted(w, |w.accepted| - |w.consumed|);
  }

  // ---- the write as one call -------------------------------------------------

  /** Cell c belongs to one of the len indices from start on. */
  ghost predicate Covers(n: nat, start: nat, len: nat, c: nat)
    requires n > 0
  {
    exists j :: 0 <= j < len && CellAt(n, start, j) == c
  }

  /** The data area after a whole write: each byte in the cell of its index,
      every other cell as before. */
  ghost predicate Written(before: seq<u8>, after: seq<u8>, start: nat, data: seq<u8>)
    requires |before| > 0
  {
    && |after| == |before|
    && Staged(after, start, data, |data|)
    && Untouched(before, after, start, |data|)
  }

  ghost predicate Untouched(before: seq<u8>, after: seq<u8>, start: nat, len: nat)
    requires |before| == |after| > 0
  {
    forall c :: 0 <= c < |before| && !Covers(|before|, start, len, c) ==> after[c] == before[c]
  }

  ghost function Copies(n: nat): seq<Event> { seq(n, _ => CopyByte) }

  /** m bytes of the write in progress in w have been copied to get w'. */
  ghost predicate Copied(w: World, w': World, m: nat)
    requires w.guest.Copying? && |w.ring.buf| > 0
  {
    && |w'.ring.buf| == |w.ring.buf|
    && w' == w.(ring := w.ring.(buf := w'.ring.buf), guest := Copying(w.guest.data, w.guest.done + m))
    && Untouched(w.ring.buf, w'.ring.buf, |w.accepted|, |w.guest.data|)
  }

  lemma CopyOne(w: World)
    requires Inv(w) && Enabled(w, CopyByte)
    ensures Copied(w, Step(w, CopyByte), 1)
  {
    var n, wr, done := |w.ring.buf|, |w.accepted|, w.guest.done;
    CopyIndexIsCell(n, wr, |w.guest.data|, done);
    assert CellAt(n, wr, done) == Cell(wr + done, n);
  }

  lemma CopiedTwice(w: World, w1: World, w2: World, a: nat, b: nat)
    requires w.guest.Copying? && |w.ring.buf| > 0
    requires Copied(w, w1, a) && Copied(w1, w2, b)
    ensures Copied(w, w2, a + b)
  {}

  lemma {:induction false} CopiesRun(w: World, m: nat)
    requires Inv(w) && w.guest.Copying? && w.guest.done + m <= |w.guest.data|
    ensures Inv(Run(w, Copies(m))) && Copied(w, Run(w, Copies(m)), m)
    decreases m
  {
    if m > 0 {
      CopyKeepsInv(w);
      CopyOne(w);
      assert Copies(m)[0] == CopyByte && Copies(m)[1..] == Copies(m - 1);
      CopiesRun(Step(w, CopyByte), m - 1);
      CopiedTwice(w, Step(w, CopyByte), Run(w, Copies(m)), 1, m - 1);
    }
  }

  ghost function WriteEvents(data: seq<u8>): seq<Event> {
    [Begin(data)] + (Copies(|data|) + [Finish])
  }

  /** The protocol's fine-grained write, run without interference, is the whole
      write: an accepted write leaves the data area `Written`, the private tail
      advanced, and the shared words alone. */
  lemma WholeWrite(w: World, data: seq<u8>)
    requires Inv(w) && Enabled(w, Begin(data))
    ensures |w.ring.buf| > 0
    ensures var w' := Run(w, WriteEvents(data));
      && Written(w.ring.buf, w'.ring.buf, |w.accepted|, data)
      && w'.ring == Ring(w'.ring.buf, w.ring.head, w.ring.tail, (w.ring.curTail + |data|) % U32)
      && w'.accepted == w.accepted + data && w'.guest == Idle
  {
    var w1 := w.(guest := Copying(data, 0));
    StepKeepsInv(w, Begin(data));
    assert Step(w, Begin(data)) == w1;
    CopiesRun(w1, |data|);
    WriteEventsRun(w, data);
    FinishWritten(w, Run(w1, Copies(|data|)), data);
  }

  lemma FinishWritten(w: World, w2: World, data: seq<u8>)
    requires |w.ring.buf| > 0 && w2.guest == Copying(data, |data|) && Inv(w2)
    requires Copied(w.(guest := Copying(data, 0)), w2, |data|)
    ensures var w' := Step(w2, Finish);
      && Written(w.ring.buf, w'.ring.buf, |w.accepted|, data)
      && w'.ring == Ring(w'.ring.buf, w.ring.head, w.ring.tail, (w.ring.curTail + |data|) % U32)
      && w'.accepted == w.accepted + data && w'.guest == Idle
  {
    AllStaged(w2);
  }

  lemma AllStaged(w: World)
    requires Inv(w) && w.guest.Copying? && w.guest.done == |w.guest.data|
    ensures Staged(w.ring.buf, |w.accepted|, w.guest.data, |w.guest.data|)
  {}

  lemma WriteEventsRun(w: World, data: seq<u8>)
    requires ValidSize(|w.ring.buf|)
    ensures Run(w, WriteEvents(data)) == Step(Run(Step(w, Begin(data)), Copies(|data|)), Finish)
  {
    var w1 := Step(w, Begin(data));
    var w2 := Run(w1, Copies(|data|));
    assert WriteEvents(data)[1..] == Copies(|data|) + [Finish];
    RunAppend(w1, Copies(|data|), [Finish]);
    assert Run(Step(w2, Finish), []) == Step(w2, Finish);
    assert Run(w2, [Finish]) == Step(w2, Finish);
  }

  lemma {:induction false} RunAppend(w: World, a: seq<Event>, b: seq<Event>)
    requires ValidSize(|w.ring.buf|)
    ensures Run(w, a + b) == Run(Run(w, a), b)
    decreases a
  {
    if a == [] {
      assert a + b == b;
    } else {
      assert (a + b)[1..] == a[1..] + b;
      RunAppend(Step(w, a[0]), a[1..], b);
    }
  }
}
