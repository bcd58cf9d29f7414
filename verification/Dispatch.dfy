/** Command batching in the Vulkan dispatch. */
module Dispatch {

  // Single commands go out as their own SUBMIT_3D, recorded commands accumulate
  // in a batch that is split at a threshold, and some commands bypass the batch.

  import opened Bits
  import opened VenusEncoder

  /** UK_DISPATCH_BUF_SIZE and UK_BATCH_FLUSH_THRESHOLD */
  const BUF_SIZE: nat := 2 * 1024 * 1024
  const THRESHOLD: nat := 64 * 1024

  /** A command is the sequence of writes its encode function makes. */
  type Command = seq<seq<u8>>

  datatype Disp = Disp(batchEnabled: bool, recording: bool, batch: Enc, sent: seq<seq<u8>>)

  function Active(d: Disp): bool { d.batchEnabled && d.recording }

  /** uk_venus_submit: an overflowed or an empty encoder is refused. */
  function Submit(sent: seq<seq<u8>>, e: Enc): seq<seq<u8>> {
    if e.overflow || e.bytes == [] then sent else sent + [e.bytes]
  }

  /** uk_dispatch_batch_accumulate */
  function Accumulate(d: Disp, e: Enc): Disp {
    if |e.bytes| >= THRESHOLD then d.(sent := Submit(d.sent, e), batch := Fresh(BUF_SIZE))
    else d.(batch := e)
  }

  /** UK_ENC_BEGIN .. UK_ENC_SUBMIT around one command. */
  function Ordinary(d: Disp, cmd: Command): Disp {
    if Active(d) then Accumulate(d, PutAll(d.batch, cmd)) else Direct(d, cmd)
  }

  /** UK_ENC_BEGIN_IMMEDIATE .. UK_ENC_SUBMIT_IMMEDIATE */
  function Direct(d: Disp, cmd: Command): Disp {
    d.(sent := Submit(d.sent, PutAll(Fresh(BUF_SIZE), cmd)))
  }

  /** The state in which stub_vkBeginCommandBuffer encodes its command. */
  function OpenWindow(d: Disp): Disp {
    if d.batchEnabled then d.(batch := Fresh(BUF_SIZE), recording := true) else d
  }

  /** What stub_vkEndCommandBuffer does after encoding its command. */
  function CloseWindow(d: Disp): Disp {
    if Active(d) then d.(sent := Submit(d.sent, d.batch), recording := false) else d
  }

  // ---- runs ------------------------------------------------------------------------

  /** One stub, made atomic by the recursive dispatch lock. */
  datatype Op =
    | BeginCb(cmd: Command)
    | EndCb(cmd: Command)
    | Stub(cmd: Command)
    | StubImmediate(cmd: Command)

  function Apply(d: Disp, op: Op): Disp {
    match op
    case BeginCb(cmd) => Ordinary(OpenWindow(d), cmd)
    case EndCb(cmd) => CloseWindow(Ordinary(d, cmd))
    case Stub(cmd) => Ordinary(d, cmd)
    case StubImmediate(cmd) => Direct(d, cmd)
  }

  datatype How = Batched | Alone | Immediate
  datatype Issued = Issued(bytes: seq<u8>, how: How)

  /** The dispatch with its history: every command issued, which commands each
      submitted payload holds, which wait in the batch and which are gone. */
  datatype World = World(d: Disp, log: seq<Issued>, groups: seq<seq<nat>>, pending: seq<nat>, lost: set<nat>)

  ghost function SetOf(s: seq<nat>): set<nat> { set x | x in s }

  ghost function IssueBatched(w: World, cmd: Command): World {
    var id, bytes := |w.log|, Concat(cmd);
    var total := |w.d.batch.bytes| + |bytes|;
    var w1 := w.(d := Ordinary(w.d, cmd), log := w.log + [Issued(bytes, Batched)]);
    if w.d.batch.overflow || total > BUF_SIZE then w1.(pending := [], lost := w.lost + SetOf(w.pending) + {id})
    else if total >= THRESHOLD then w1.(groups := w.groups + [w.pending + [id]], pending := [])
    else w1.(pending := w.pending + [id])
  }

  ghost function IssueAlone(w: World, cmd: Command, how: How): World {
    var id, bytes := |w.log|, Concat(cmd);
    var w1 := w.(d := Direct(w.d, cmd), log := w.log + [Issued(bytes, how)]);
    if |bytes| > BUF_SIZE then w1.(lost := w.lost + {id}) else w1.(groups := w.groups + [[id]])
  }

  ghost function IssueOrdinary(w: World, cmd: Command): World {
    if Active(w.d) then IssueBatched(w, cmd) else IssueAlone(w, cmd, Alone)
  }

  ghost function Open(w: World): World {
    var w1 := w.(d := OpenWindow(w.d));
    if w.d.batchEnabled then w1.(pending := [], lost := w.lost + SetOf(w.pending)) else w1
  }

  ghost function Close(w: World): World {
    var w1 := w.(d := CloseWindow(w.d));
    if w.pending != [] then w1.(groups := w.groups + [w.pending], pending := []) else w1
  }

  ghost function Step(w: World, op: Op): World {
    match op
    case BeginCb(cmd) => IssueOrdinary(Open(w), cmd)
    case EndCb(cmd) => Close(IssueOrdinary(w, cmd))
    case Stub(cmd) => IssueOrdinary(w, cmd)
    case StubImmediate(cmd) => IssueAlone(w, cmd, Immediate)
  }

  ghost function Run(w: World, ops: seq<Op>): World
    decreases |ops|
  {
    if ops == [] then w else Step(Run(w, ops[..|ops| - 1]), ops[|ops| - 1])
  }

  ghost function RunDisp(d: Disp, ops: seq<Op>): Disp
    decreases |ops|
  {
    if ops == [] then d else Apply(RunDisp(d, ops[..|ops| - 1]), ops[|ops| - 1])
  }

  function Start(batchEnabled: bool): Disp { Disp(batchEnabled, false, Fresh(BUF_SIZE), []) }

  ghost function Init(batchEnabled: bool): World { World(Start(batchEnabled), [], [], [], {}) }

  /** Every Venus command begins with its type and flags, so none is empty. */
  ghost predicate NonEmpty(ops: seq<Op>) { forall k :: 0 <= k < |ops| ==> Concat(ops[k].cmd) != [] }

  // ---- the invariant ---------------------------------------------------------------

  ghost function Flat(groups: seq<seq<nat>>): seq<nat> {
    if groups == [] then [] else Flat(groups[..|groups| - 1]) + groups[|groups| - 1]
  }

  ghost predicate Known(log: seq<Issued>, ids: seq<nat>) { forall k :: 0 <= k < |ids| ==> ids[k] < |log| }

  /** The bytes of the listed commands, back to back. */
  ghost function Bytes(log: seq<Issued>, ids: seq<nat>): seq<u8>
    requires Known(log, ids)
  {
    if ids == [] then [] else Bytes(log, ids[..|ids| - 1]) + log[ids[|ids| - 1]].bytes
  }

  /** Each payload is a whole number of commands, at least one. */
  ghost predicate PayloadsMatch(log: seq<Issued>, groups: seq<seq<nat>>, sent: seq<seq<u8>>) {
    && |sent| == |groups|
    && forall k :: 0 <= k < |groups| ==>
         groups[k] != [] && Known(log, groups[k]) && sent[k] == Bytes(log, groups[k])
  }

  ghost predicate BatchMatches(w: World) {
    && Known(w.log, w.pending)
    && (!Active(w.d) || w.d.batch.overflow ==> w.pending == [])
    && (Active(w.d) && !w.d.batch.overflow ==> w.d.batch.bytes == Bytes(w.log, w.pending))
    && w.d.batch.cap == BUF_SIZE && EncOk(w.d.batch)
    && |Bytes(w.log, w.pending)| < THRESHOLD
    && forall k :: 0 <= k < |w.pending| ==> w.log[w.pending[k]].how == Batched
  }

  /** `ids` and `lost` share out the commands issued so far, each exactly once. */
  ghost predicate Accounted(log: seq<Issued>, ids: seq<nat>, lost: set<nat>) {
    && Known(log, ids)
    && (forall p, q :: 0 <= p < q < |ids| ==> ids[p] != ids[q])
    && (forall p :: 0 <= p < |ids| ==> ids[p] !in lost)
    && (forall id :: id in lost ==> id < |log|)
    && (forall id :: 0 <= id < |log| ==> id in ids || id in lost)
  }

  /** Only immediate commands move forward, and only past batched ones. */
  ghost predicate InOrder(log: seq<Issued>, ids: seq<nat>)
    requires Known(log, ids)
  {
    forall p, q :: 0 <= p < q < |ids| && ids[p] > ids[q] ==>
      log[ids[p]].how == Immediate && log[ids[q]].how == Batched
  }

  /** No command is empty. */
  ghost predicate LogOk(log: seq<Issued>) { forall k :: 0 <= k < |log| ==> log[k].bytes != [] }

  ghost function Delivery(w: World): seq<nat> { Flat(w.groups) + w.pending }

  ghost predicate Inv(w: World) {
    && LogOk(w.log)
    && BatchMatches(w)
    && PayloadsMatch(w.log, w.groups, w.d.sent)
    && Accounted(w.log, Delivery(w), w.lost)
    && InOrder(w.log, Delivery(w))
  }

  // ---- sequence facts --------------------------------------------------------------

  lemma FlatSnoc(groups: seq<seq<nat>>, g: seq<nat>)
    ensures Flat(groups + [g]) == Flat(groups) + g
  {
    assert (groups + [g])[..|groups|] == groups;
  }

  lemma BytesSnoc(log: seq<Issued>, ids: seq<nat>, id: nat)
    requires Known(log, ids) && id < |log|
    ensures Known(log, ids + [id]) && Bytes(log, ids + [id]) == Bytes(log, ids) + log[id].bytes
  {
    assert (ids + [id])[..|ids|] == ids;
  }

  /** A longer log leaves what is known about older commands alone. */
  lemma {:induction false} BytesOfLongerLog(log: seq<Issued>, more: seq<Issued>, ids: seq<nat>)
    requires Known(log, ids)
    ensures Known(log + more, ids) && Bytes(log + more, ids) == Bytes(log, ids)
    decreases |ids|
  {
    if ids != [] {
      BytesOfLongerLog(log, more, ids[..|ids| - 1]);
    }
  }

  lemma {:induction false} BytesNonEmpty(log: seq<Issued>, ids: seq<nat>)
    requires Known(log, ids) && LogOk(log)
    ensures Bytes(log, ids) == [] <==> ids == []
  {
    if ids != [] {
      assert log[ids[|ids| - 1]].bytes != [];
    }
  }

  lemma PayloadsOfLongerLog(log: seq<Issued>, more: seq<Issued>, groups: seq<seq<nat>>, sent: seq<seq<u8>>)
    requires PayloadsMatch(log, groups, sent)
    ensures PayloadsMatch(log + more, groups, sent)
  {
    forall k | 0 <= k < |groups|
      ensures Known(log + more, groups[k]) && sent[k] == Bytes(log + more, groups[k])
    {
      BytesOfLongerLog(log, more, groups[k]);
    }
  }

  lemma PayloadsSnoc(log: seq<Issued>, groups: seq<seq<nat>>, sent: seq<seq<u8>>, g: seq<nat>, payload: seq<u8>)
    requires PayloadsMatch(log, groups, sent)
    requires g != [] && Known(log, g) && payload == Bytes(log, g)
    ensures PayloadsMatch(log, groups + [g], sent + [payload])
  {
  }

  // ---- the three ways the delivery order changes ------------------------------------

  /** A new command goes in front of the commands waiting in the batch (`back`),
      or behind everything when none waits. */
  lemma InsertKeepsOrder(log: seq<Issued>, front: seq<nat>, back: seq<nat>, lost: set<nat>, new_: Issued)
    requires Accounted(log, front + back, lost) && InOrder(log, front + back)
    requires back != [] ==> new_.how == Immediate
    requires Known(log, back)
    requires forall k :: 0 <= k < |back| ==> log[back[k]].how == Batched
    ensures var ids := front + [|log|] + back;
      Accounted(log + [new_], ids, lost) && InOrder(log + [new_], ids)
  {
    var was, ids, log' := front + back, front + [|log|] + back, log + [new_];
    InsertAccounted(log, front, back, lost, new_);
    forall p, q | 0 <= p < q < |ids| && ids[p] > ids[q]
      ensures log'[ids[p]].how == Immediate && log'[ids[q]].how == Batched
    {
      var p', q' := if p < |front| then p else p - 1, if q < |front| then q else q - 1;
      if p == |front| {
        assert ids[q] == back[q - 1 - |front|];
      } else if q != |front| {
        assert ids[p] == was[p'] && ids[q] == was[q'];
      }
    }
  }

  lemma InsertAccounted(log: seq<Issued>, front: seq<nat>, back: seq<nat>, lost: set<nat>, new_: Issued)
    requires Accounted(log, front + back, lost)
    ensures Accounted(log + [new_], front + [|log|] + back, lost)
  {
    var was, ids, n := front + back, front + [|log|] + back, |front|;
    forall p | 0 <= p < |ids| && p != n
      ensures ids[p] == was[if p < n then p else p - 1] < |log| && ids[p] !in lost
    {
      assert was[if p < n then p else p - 1] !in lost;
    }
    assert ids[n] == |log| && |log| !in lost;
    forall p, q | 0 <= p < q < |ids|
      ensures ids[p] != ids[q]
    {
      if p != n && q != n {
        var p', q' := if p < n then p else p - 1, if q < n then q else q - 1;
        assert p' < q' && was[p'] != was[q'];
      }
    }
    forall id | 0 <= id <= |log| && id !in lost
      ensures id in ids
    {
      if id < |log| {
        var p :| 0 <= p < |was| && was[p] == id;
        assert ids[if p < n then p else p + 1] == id;
      } else {
        assert ids[n] == id;
      }
    }
  }

  /** The commands waiting in the batch are given up. */
  lemma DropKeepsOrder(log: seq<Issued>, front: seq<nat>, back: seq<nat>, lost: set<nat>)
    requires Accounted(log, front + back, lost) && InOrder(log, front + back)
    ensures Accounted(log, front, lost + SetOf(back)) && InOrder(log, front)
  {
    var was := front + back;
    assert forall p :: 0 <= p < |front| ==> front[p] == was[p];
    assert forall p :: 0 <= p < |back| ==> back[p] == was[|front| + p];
    forall p | 0 <= p < |front|
      ensures front[p] !in back
    {
      assert was[p] == front[p];
    }
    forall id | 0 <= id < |log| && id !in lost && id !in back
      ensures id in front
    {
      assert id in was;
    }
  }

  /** A command that is never submitted. */
  lemma LoseNewKeepsOrder(log: seq<Issued>, ids: seq<nat>, lost: set<nat>, new_: Issued)
    requires Accounted(log, ids, lost) && InOrder(log, ids)
    ensures Accounted(log + [new_], ids, lost + {|log|}) && InOrder(log + [new_], ids)
  {
  }

  // ---- every step keeps the invariant -----------------------------------------------

  lemma AloneKeepsInv(w: World, cmd: Command, how: How)
    requires Inv(w) && Concat(cmd) != []
    requires how == Immediate || (how == Alone && !Active(w.d))
    ensures Inv(IssueAlone(w, cmd, how))
  {
    var entry, w' := Issued(Concat(cmd), how), IssueAlone(w, cmd, how);
    AloneWorld(w, cmd, how);
    PayloadsOfLongerLog(w.log, [entry], w.groups, w.d.sent);
    BatchUntouched(w, w', entry);
    if |Concat(cmd)| > BUF_SIZE {
      LoseNewKeepsOrder(w.log, Delivery(w), w.lost, entry);
    } else {
      SentAlone(w, entry);
    }
    hide Accounted, InOrder, PayloadsMatch, BatchMatches, Direct, Concat;
  }

  lemma AloneWorld(w: World, cmd: Command, how: How)
    ensures IssueAlone(w, cmd, how).d ==
            if |Concat(cmd)| > BUF_SIZE || Concat(cmd) == [] then w.d else w.d.(sent := w.d.sent + [Concat(cmd)])
  {
    PutAllExact(Fresh(BUF_SIZE), cmd);
    assert Fresh(BUF_SIZE).bytes + Concat(cmd) == Concat(cmd);
    hide PutAll, Concat;
  }

  lemma BatchUntouched(w: World, w': World, entry: Issued)
    requires BatchMatches(w)
    requires w'.d == w.d.(sent := w'.d.sent) && w'.pending == w.pending && w'.log == w.log + [entry]
    ensures BatchMatches(w')
  {
    BytesOfLongerLog(w.log, [entry], w.pending);
  }

  lemma SentAlone(w: World, entry: Issued)
    requires Inv(w) && entry.bytes != []
    requires entry.how == Immediate || (entry.how == Alone && !Active(w.d))
    requires PayloadsMatch(w.log + [entry], w.groups, w.d.sent)
    ensures var groups := w.groups + [[|w.log|]];
      && PayloadsMatch(w.log + [entry], groups, w.d.sent + [entry.bytes])
      && Accounted(w.log + [entry], Flat(groups) + w.pending, w.lost)
      && InOrder(w.log + [entry], Flat(groups) + w.pending)
  {
    BytesSnoc(w.log + [entry], [], |w.log|);
    PayloadsSnoc(w.log + [entry], w.groups, w.d.sent, [|w.log|], entry.bytes);
    InsertKeepsOrder(w.log, Flat(w.groups), w.pending, w.lost, entry);
    FlatSnoc(w.groups, [|w.log|]);
  }

  lemma BatchedKeepsInv(w: World, cmd: Command)
    requires Inv(w) && Concat(cmd) != [] && Active(w.d)
    ensures Inv(IssueBatched(w, cmd))
  {
    BatchedMatches(w, cmd);
    BatchedInOrder(w, cmd);
    BatchedWorld(w, cmd);
    hide BatchMatches, Accounted, InOrder, PayloadsMatch, IssueBatched, Concat;
  }

  lemma BatchedMatches(w: World, cmd: Command)
    requires Inv(w) && Active(w.d)
    ensures BatchMatches(IssueBatched(w, cmd))
  {
    var entry, w' := Issued(Concat(cmd), Batched), IssueBatched(w, cmd);
    BatchedWorld(w, cmd);
    BatchGrows(w, entry);
    assert w'.pending == [] || w'.pending == w.pending + [|w.log|];
    hide Accounted, InOrder, PayloadsMatch, IssueBatched, Concat, Flat, SetOf;
  }

  lemma BatchedInOrder(w: World, cmd: Command)
    requires Inv(w) && Active(w.d)
    ensures var w' := IssueBatched(w, cmd);
      && PayloadsMatch(w'.log, w'.groups, w'.d.sent)
      && Accounted(w'.log, Delivery(w'), w'.lost) && InOrder(w'.log, Delivery(w'))
  {
    var entry := Issued(Concat(cmd), Batched);
    BatchedWorld(w, cmd);
    PayloadsOfLongerLog(w.log, [entry], w.groups, w.d.sent);
    if w.d.batch.overflow || |w.d.batch.bytes| + |Concat(cmd)| > BUF_SIZE {
      LostBatch(w, entry);
    } else {
      BatchGrows(w, entry);
      if |w.d.batch.bytes| + |Concat(cmd)| >= THRESHOLD { FlushedBatch(w, entry); }
    }
    hide Accounted, InOrder, PayloadsMatch, Concat, Flat, SetOf, Bytes;
  }

  /** What a batched command does to the state, in each of the three cases. */
  lemma BatchedWorld(w: World, cmd: Command)
    requires BatchMatches(w) && Active(w.d)
    ensures var w', total := IssueBatched(w, cmd), |w.d.batch.bytes| + |Concat(cmd)|;
      && w'.log == w.log + [Issued(Concat(cmd), Batched)] && Active(w'.d)
      && w'.d.batch.cap == BUF_SIZE && EncOk(w'.d.batch)
      && (if w.d.batch.overflow || total > BUF_SIZE then
            w'.d.batch.overflow || w'.d.batch.bytes == []
          else
            && !w'.d.batch.overflow
            && w'.d.batch.bytes == (if total >= THRESHOLD then [] else w.d.batch.bytes + Concat(cmd)))
      && w'.d.sent == (if w.d.batch.overflow || total > BUF_SIZE || total < THRESHOLD then w.d.sent
                       else w.d.sent + [w.d.batch.bytes + Concat(cmd)])
  {
    PutAllExact(w.d.batch, cmd);
    hide PutAll, Concat;
  }

  lemma LostBatch(w: World, entry: Issued)
    requires Inv(w)
    ensures var lost := w.lost + SetOf(w.pending) + {|w.log|};
      && Accounted(w.log + [entry], Flat(w.groups) + [], lost)
      && InOrder(w.log + [entry], Flat(w.groups) + [])
  {
    assert Flat(w.groups) + [] == Flat(w.groups);
    DropKeepsOrder(w.log, Flat(w.groups), w.pending, w.lost);
    LoseNewKeepsOrder(w.log, Flat(w.groups), w.lost + SetOf(w.pending), entry);
  }

  lemma BatchGrows(w: World, entry: Issued)
    requires Inv(w) && entry.how == Batched
    ensures var log', pending := w.log + [entry], w.pending + [|w.log|];
      && Accounted(log', Flat(w.groups) + pending, w.lost)
      && InOrder(log', Flat(w.groups) + pending)
      && Known(log', pending) && Bytes(log', pending) == Bytes(w.log, w.pending) + entry.bytes
  {
    var log', id := w.log + [entry], |w.log|;
    assert Delivery(w) + [] == Delivery(w);
    InsertKeepsOrder(w.log, Delivery(w), [], w.lost, entry);
    assert Delivery(w) + [id] + [] == Flat(w.groups) + (w.pending + [id]);
    BytesOfLongerLog(w.log, [entry], w.pending);
    BytesSnoc(log', w.pending, id);
  }

  lemma FlushedBatch(w: World, entry: Issued)
    requires Inv(w) && entry.how == Batched
    requires PayloadsMatch(w.log + [entry], w.groups, w.d.sent)
    ensures var log', pending := w.log + [entry], w.pending + [|w.log|];
      && PayloadsMatch(log', w.groups + [pending], w.d.sent + [Bytes(w.log, w.pending) + entry.bytes])
      && Flat(w.groups + [pending]) + [] == Flat(w.groups) + pending
  {
    BatchGrows(w, entry);
    PayloadsSnoc(w.log + [entry], w.groups, w.d.sent, w.pending + [|w.log|], Bytes(w.log, w.pending) + entry.bytes);
    FlatSnoc(w.groups, w.pending + [|w.log|]);
  }

  lemma OpenKeepsInv(w: World)
    requires Inv(w)
    ensures Inv(Open(w))
  {
    if w.d.batchEnabled {
      DropKeepsOrder(w.log, Flat(w.groups), w.pending, w.lost);
      assert Delivery(Open(w)) == Flat(w.groups);
    }
  }

  lemma CloseKeepsInv(w: World)
    requires Inv(w)
    ensures Inv(Close(w)) && Close(w).pending == []
  {
    BytesNonEmpty(w.log, w.pending);
    if w.pending != [] {
      PayloadsSnoc(w.log, w.groups, w.d.sent, w.pending, w.d.batch.bytes);
      FlatSnoc(w.groups, w.pending);
      assert Flat(w.groups) + w.pending + [] == Delivery(w);
    }
  }

  lemma OrdinaryKeepsInv(w: World, cmd: Command)
    requires Inv(w) && Concat(cmd) != []
    ensures Inv(IssueOrdinary(w, cmd))
  {
    if Active(w.d) { BatchedKeepsInv(w, cmd); } else { AloneKeepsInv(w, cmd, Alone); }
  }

  lemma StepKeepsInv(w: World, op: Op)
    requires Inv(w) && Concat(op.cmd) != []
    ensures Inv(Step(w, op))
  {
    match op
    case BeginCb(cmd) =>
      OpenKeepsInv(w);
      OrdinaryKeepsInv(Open(w), cmd);
    case EndCb(cmd) =>
      OrdinaryKeepsInv(w, cmd);
      CloseKeepsInv(IssueOrdinary(w, cmd));
    case Stub(cmd) =>
      OrdinaryKeepsInv(w, cmd);
    case StubImmediate(cmd) =>
      AloneKeepsInv(w, cmd, Immediate);
  }

  lemma InitInv(batchEnabled: bool)
    ensures Inv(Init(batchEnabled))
  {
    assert Delivery(Init(batchEnabled)) == [];
  }

  /** The log lists the commands of the run in issue order. */
  ghost predicate Lists(log: seq<Issued>, ops: seq<Op>) {
    && |log| == |ops|
    && forall k :: 0 <= k < |ops| ==> LogsOp(log[k], ops[k])
  }

  ghost predicate LogsOp(entry: Issued, op: Op) {
    entry.bytes == Concat(op.cmd) && (entry.how == Immediate <==> op.StubImmediate?)
  }

  /** The history only watches: the dispatch itself runs as Apply says. */
  lemma StepWatches(w: World, op: Op) returns (entry: Issued)
    ensures Step(w, op).d == Apply(w.d, op)
    ensures Step(w, op).log == w.log + [entry] && LogsOp(entry, op)
  {
    entry := Step(w, op).log[|w.log|];
  }

  lemma {:induction false} RunKeepsInv(batchEnabled: bool, ops: seq<Op>)
    requires NonEmpty(ops)
    ensures Inv(Run(Init(batchEnabled), ops))
    decreases |ops|
  {
    if ops == [] {
      InitInv(batchEnabled);
    } else {
      RunKeepsInv(batchEnabled, ops[..|ops| - 1]);
      StepKeepsInv(Run(Init(batchEnabled), ops[..|ops| - 1]), ops[|ops| - 1]);
    }
  }

  lemma {:induction false} RunWatches(batchEnabled: bool, ops: seq<Op>)
    ensures Run(Init(batchEnabled), ops).d == RunDisp(Start(batchEnabled), ops)
    ensures Lists(Run(Init(batchEnabled), ops).log, ops)
    decreases |ops|
  {
    if ops != [] {
      var before, op := ops[..|ops| - 1], ops[|ops| - 1];
      RunWatches(batchEnabled, before);
      var entry := StepWatches(Run(Init(batchEnabled), before), op);
      ListsMore(Run(Init(batchEnabled), before).log, before, entry, op);
      assert before + [op] == ops;
    }
  }

  lemma ListsMore(log: seq<Issued>, ops: seq<Op>, entry: Issued, op: Op)
    requires Lists(log, ops) && LogsOp(entry, op)
    ensures Lists(log + [entry], ops + [op])
  {
  }

  // ---- what a run delivers -----------------------------------------------------------

  /** One group of commands a payload: its bytes are those of the group's commands,
      back to back. */
  ghost predicate IsDelivery(ops: seq<Op>, sent: seq<seq<u8>>, groups: seq<seq<nat>>) {
    && |groups| == |sent|
    && forall k :: 0 <= k < |sent| ==> groups[k] != [] && sent[k] != [] && sent[k] == CommandBytes(ops, groups[k])
  }

  /** The encodings of the listed commands of a run, back to back. */
  ghost function CommandBytes(ops: seq<Op>, ids: seq<nat>): seq<u8> {
    if ids == [] then []
    else CommandBytes(ops, ids[..|ids| - 1])
         + if ids[|ids| - 1] < |ops| then Concat(ops[ids[|ids| - 1]].cmd) else []
  }

  lemma {:induction false} BytesAreCommandBytes(log: seq<Issued>, ops: seq<Op>, ids: seq<nat>)
    requires Known(log, ids)
    requires Lists(log, ops)
    ensures CommandBytes(ops, ids) == Bytes(log, ids)
    decreases |ids|
  {
    if ids != [] {
      BytesAreCommandBytes(log, ops, ids[..|ids| - 1]);
    }
  }

  /** Whatever is issued, every payload is non-empty and a whole number of
      commands; each command of the run is delivered once, still pending, or
      lost, and never two of these; and where a later command comes first, the
      later one was immediate and the earlier one batched. */
  lemma DeliveredWholeOnceInOrder(batchEnabled: bool, ops: seq<Op>)
    requires NonEmpty(ops)
    ensures var w := Run(Init(batchEnabled), ops);
      && IsDelivery(ops, RunDisp(Start(batchEnabled), ops).sent, w.groups)
      && Accounted(w.log, Delivery(w), w.lost) && |w.log| == |ops|
      && forall p, q :: 0 <= p < q < |Delivery(w)| && Delivery(w)[p] > Delivery(w)[q] ==>
           && ops[Delivery(w)[p]].StubImmediate?
           && w.log[Delivery(w)[q]].how == Batched && !ops[Delivery(w)[q]].StubImmediate?
  {
    var w := Run(Init(batchEnabled), ops);
    RunKeepsInv(batchEnabled, ops);
    RunWatches(batchEnabled, ops);
    forall k | 0 <= k < |w.groups|
      ensures w.d.sent[k] != [] && w.d.sent[k] == CommandBytes(ops, w.groups[k])
    {
      BytesAreCommandBytes(w.log, ops, w.groups[k]);
      BytesNonEmpty(w.log, w.groups[k]);
    }
  }

  /** After End nothing is left in the batch, whatever came before and even if
      the End command itself filled the batch. */
  lemma NothingPendingAfterEnd(batchEnabled: bool, ops: seq<Op>, cmd: Command)
    requires NonEmpty(ops) && Concat(cmd) != []
    ensures Run(Init(batchEnabled), ops + [EndCb(cmd)]).pending == []
  {
    var w := Run(Init(batchEnabled), ops);
    assert (ops + [EndCb(cmd)])[..|ops|] == ops;
    RunKeepsInv(batchEnabled, ops);
    OrdinaryKeepsInv(w, cmd);
    CloseKeepsInv(IssueOrdinary(w, cmd));
  }

  // ---- when something is lost ----------------------------------------------------------

  /** A command that fits on top of a batch below the threshold. */
  predicate Sized(cmd: Command) { 0 < |Concat(cmd)| <= BUF_SIZE - THRESHOLD }

  ghost predicate AllSized(ops: seq<Op>) { forall k :: 0 <= k < |ops| ==> Sized(ops[k].cmd) }

  /** Begin inside a window whose batch still holds commands: it starts the batch
      over. A caller can see this before the call. */
  predicate NestedBegin(d: Disp, op: Op) { op.BeginCb? && Active(d) && !d.batch.overflow && d.batch.bytes != [] }

  /** The command does not fit in the encoder it is written to. */
  predicate TooBig(d: Disp, cmd: Command) {
    if Active(d) then d.batch.overflow || |d.batch.bytes| + |Concat(cmd)| > BUF_SIZE
    else |Concat(cmd)| > BUF_SIZE
  }

  /** A step loses something exactly when it opens a window over a batch that
      still holds commands, or its command does not fit where it is put. */
  predicate Loses(d: Disp, op: Op) {
    match op
    case BeginCb(cmd) => NestedBegin(d, op) || TooBig(OpenWindow(d), cmd)
    case EndCb(cmd) => TooBig(d, cmd)
    case Stub(cmd) => TooBig(d, cmd)
    case StubImmediate(cmd) => |Concat(cmd)| > BUF_SIZE
  }

  lemma IssueLosesIff(w: World, cmd: Command)
    requires Inv(w)
    ensures var w' := IssueOrdinary(w, cmd);
      w.lost <= w'.lost && (|w.log| in w'.lost <==> TooBig(w.d, cmd)) && (!TooBig(w.d, cmd) ==> w'.lost == w.lost)
  {
    assert |w.log| !in w.lost;
  }

  lemma OpenLosesIff(w: World, op: Op)
    requires Inv(w) && op.BeginCb?
    ensures w.lost <= Open(w).lost && (Open(w).lost != w.lost <==> NestedBegin(w.d, op))
  {
    BytesNonEmpty(w.log, w.pending);
    if w.pending != [] {
      assert Delivery(w)[|Flat(w.groups)|] == w.pending[0];
      assert w.pending[0] in SetOf(w.pending) && w.pending[0] !in w.lost;
    } else {
      assert w.lost + SetOf([]) == w.lost;
    }
  }

  lemma StepLosesIff(w: World, op: Op)
    requires Inv(w) && Concat(op.cmd) != []
    ensures w.lost <= Step(w, op).lost
    ensures Step(w, op).lost != w.lost <==> Loses(w.d, op)
  {
    assert |w.log| !in w.lost;
    match op
    case BeginCb(cmd) =>
      OpenLosesIff(w, op);
      OpenKeepsInv(w);
      IssueLosesIff(Open(w), cmd);
      assert |Open(w).log| !in Open(w).lost;
    case EndCb(cmd) => IssueLosesIff(w, cmd);
    case Stub(cmd) => IssueLosesIff(w, cmd);
    case StubImmediate(cmd) =>
  }

  /** Whether command k of the run makes the dispatch lose something. */
  ghost predicate LosesAt(batchEnabled: bool, ops: seq<Op>, k: nat)
    requires k < |ops|
  {
    Loses(RunDisp(Start(batchEnabled), ops[..k]), ops[k])
  }

  /** A run loses a command exactly when some step of it loses one. */
  lemma {:induction false} NothingLostIff(batchEnabled: bool, ops: seq<Op>)
    requires NonEmpty(ops)
    ensures Run(Init(batchEnabled), ops).lost == {} <==> forall k :: 0 <= k < |ops| ==> !LosesAt(batchEnabled, ops, k)
    decreases |ops|
  {
    if ops != [] {
      var n := |ops| - 1;
      var before := ops[..n];
      NothingLostIff(batchEnabled, before);
      LastStepLosesIff(batchEnabled, before, ops[n]);
      assert before + [ops[n]] == ops;
      forall k | 0 <= k < n
        ensures LosesAt(batchEnabled, before, k) == LosesAt(batchEnabled, ops, k)
      {
        assert before[..k] == ops[..k];
      }
    }
  }

  lemma LastStepLosesIff(batchEnabled: bool, before: seq<Op>, op: Op)
    requires NonEmpty(before) && Concat(op.cmd) != []
    ensures var w, ops := Run(Init(batchEnabled), before), before + [op];
      Run(Init(batchEnabled), ops).lost == {} <==> w.lost == {} && !LosesAt(batchEnabled, ops, |before|)
  {
    assert (before + [op])[..|before|] == before;
    RunKeepsInv(batchEnabled, before);
    RunWatches(batchEnabled, before);
    StepLosesIff(Run(Init(batchEnabled), before), op);
  }

  // ---- payload sizes -------------------------------------------------------------------

  /** With commands of the size the buffer was chosen for: no overflow, and every
      payload is a single command or less than the threshold plus its last one. */
  ghost predicate Small(w: World) {
    && !w.d.batch.overflow
    && forall k :: 0 <= k < |w.groups| ==> ShortPayload(w.log, w.groups[k])
  }

  ghost predicate ShortPayload(log: seq<Issued>, ids: seq<nat>) {
    Known(log, ids) && ids != [] && |Bytes(log, ids)| < THRESHOLD + |log[ids[|ids| - 1]].bytes|
  }

  lemma LongerLogStaysSmall(w: World, entry: Issued)
    requires Small(w)
    ensures Small(w.(log := w.log + [entry]))
  {
    forall k | 0 <= k < |w.groups|
      ensures ShortPayload(w.log + [entry], w.groups[k])
    {
      assert ShortPayload(w.log, w.groups[k]);
      BytesOfLongerLog(w.log, [entry], w.groups[k]);
    }
  }

  lemma IssueStaysSmall(w: World, cmd: Command)
    requires Inv(w) && Small(w) && Sized(cmd)
    ensures !TooBig(w.d, cmd) && Small(IssueOrdinary(w, cmd))
  {
    if Active(w.d) {
      var entry := Issued(Concat(cmd), Batched);
      PutAllExact(w.d.batch, cmd);
      LongerLogStaysSmall(w, entry);
      BytesOfLongerLog(w.log, [entry], w.pending);
      BytesSnoc(w.log + [entry], w.pending, |w.log|);
      assert |w.d.batch.bytes| + |Concat(cmd)| >= THRESHOLD ==> ShortPayload(w.log + [entry], w.pending + [|w.log|]);
    } else {
      AloneStaysSmall(w, cmd, Alone);
    }
  }

  lemma AloneStaysSmall(w: World, cmd: Command, how: How)
    requires Small(w) && Sized(cmd)
    ensures Small(IssueAlone(w, cmd, how))
  {
    var entry := Issued(Concat(cmd), how);
    LongerLogStaysSmall(w, entry);
    BytesSnoc(w.log + [entry], [], |w.log|);
    assert ShortPayload(w.log + [entry], [] + [|w.log|]);
  }

  lemma CloseStaysSmall(w: World)
    requires Inv(w) && Small(w)
    ensures Small(Close(w))
  {
    if w.pending != [] {
      assert ShortPayload(w.log, w.pending);
    }
  }

  lemma StepStaysSmall(w: World, op: Op)
    requires Inv(w) && Small(w) && Sized(op.cmd)
    ensures Small(Step(w, op)) && (Loses(w.d, op) <==> NestedBegin(w.d, op))
  {
    match op
    case BeginCb(cmd) =>
      OpenKeepsInv(w);
      IssueStaysSmall(Open(w), cmd);
    case EndCb(cmd) =>
      IssueStaysSmall(w, cmd);
      OrdinaryKeepsInv(w, cmd);
      CloseStaysSmall(IssueOrdinary(w, cmd));
    case Stub(cmd) => IssueStaysSmall(w, cmd);
    case StubImmediate(cmd) => AloneStaysSmall(w, cmd, Immediate);
  }

  lemma {:induction false} RunStaysSmall(batchEnabled: bool, ops: seq<Op>)
    requires AllSized(ops)
    ensures Small(Run(Init(batchEnabled), ops))
    decreases |ops|
  {
    if ops != [] {
      RunStaysSmall(batchEnabled, ops[..|ops| - 1]);
      RunKeepsInv(batchEnabled, ops[..|ops| - 1]);
      StepStaysSmall(Run(Init(batchEnabled), ops[..|ops| - 1]), ops[|ops| - 1]);
    }
  }

  /** On every run of commands of at most the buffer size less 64 KiB: the batch
      never overflows, what waits in it stays below the threshold, every payload
      is shorter than the threshold plus its last command, and a command is lost
      exactly if some Begin is nested in a window that already holds commands. */
  lemma SizedRuns(batchEnabled: bool, ops: seq<Op>)
    requires AllSized(ops)
    ensures var w, d := Run(Init(batchEnabled), ops), RunDisp(Start(batchEnabled), ops);
      && !d.batch.overflow && Known(w.log, w.pending) && |Bytes(w.log, w.pending)| < THRESHOLD
      && (Active(d) ==> d.batch.bytes == Bytes(w.log, w.pending))
      && |w.groups| == |d.sent|
      && forall k :: 0 <= k < |d.sent| ==>
           && w.groups[k] != [] && w.groups[k][|w.groups[k]| - 1] < |ops|
           && |d.sent[k]| < THRESHOLD + |Concat(ops[w.groups[k][|w.groups[k]| - 1]].cmd)|
    ensures Run(Init(batchEnabled), ops).lost == {} <==>
            forall k :: 0 <= k < |ops| ==> !NestedBegin(RunDisp(Start(batchEnabled), ops[..k]), ops[k])
  {
    RunKeepsInv(batchEnabled, ops);
    RunWatches(batchEnabled, ops);
    RunStaysSmall(batchEnabled, ops);
    NothingLostIff(batchEnabled, ops);
    forall k | 0 <= k < |ops|
      ensures LosesAt(batchEnabled, ops, k) <==> NestedBegin(RunDisp(Start(batchEnabled), ops[..k]), ops[k])
    {
      RunKeepsInv(batchEnabled, ops[..k]);
      RunWatches(batchEnabled, ops[..k]);
      RunStaysSmall(batchEnabled, ops[..k]);
      StepStaysSmall(Run(Init(batchEnabled), ops[..k]), ops[k]);
    }
    forall k | 0 <= k < |RunDisp(Start(batchEnabled), ops).sent|
      ensures ShortPayload(Run(Init(batchEnabled), ops).log, Run(Init(batchEnabled), ops).groups[k])
    {
    }
  }

  // ---- windows that do not nest ----------------------------------------------------------

  /** Whether the last Begin or End of the run was a Begin. */
  function InWindow(ops: seq<Op>): bool
    decreases |ops|
  {
    if ops == [] then false
    else match ops[|ops| - 1]
      case BeginCb(_) => true
      case EndCb(_) => false
      case _ => InWindow(ops[..|ops| - 1])
  }

  ghost predicate ProperWindows(ops: seq<Op>) {
    forall k :: 0 <= k < |ops| && ops[k].BeginCb? ==> !InWindow(ops[..k])
  }

  lemma {:induction false} WindowIsRecording(batchEnabled: bool, ops: seq<Op>)
    ensures Active(RunDisp(Start(batchEnabled), ops)) <==> batchEnabled && InWindow(ops)
    ensures RunDisp(Start(batchEnabled), ops).batchEnabled == batchEnabled
    decreases |ops|
  {
    if ops != [] {
      WindowIsRecording(batchEnabled, ops[..|ops| - 1]);
    }
  }

  /** Commands that fit, in windows that do not nest, and the last one closed:
      each command of the run is in exactly one payload, whole. */
  lemma EveryCommandDelivered(batchEnabled: bool, ops: seq<Op>)
    requires AllSized(ops) && ProperWindows(ops) && !InWindow(ops)
    ensures var w := Run(Init(batchEnabled), ops);
      && IsDelivery(ops, RunDisp(Start(batchEnabled), ops).sent, w.groups)
      && |w.log| == |ops| && Accounted(w.log, Flat(w.groups), {})
  {
    var w := Run(Init(batchEnabled), ops);
    DeliveredWholeOnceInOrder(batchEnabled, ops);
    SizedRuns(batchEnabled, ops);
    RunKeepsInv(batchEnabled, ops);
    RunWatches(batchEnabled, ops);
    WindowIsRecording(batchEnabled, ops);
    assert Delivery(w) == Flat(w.groups);
    forall k | 0 <= k < |ops|
      ensures !NestedBegin(RunDisp(Start(batchEnabled), ops[..k]), ops[k])
    {
      WindowIsRecording(batchEnabled, ops[..k]);
    }
  }

  /** A nested Begin does lose what its window had recorded. */
  lemma NestedBeginDrops(first: Command, second: Command)
    requires Sized(first) && Sized(second) && |Concat(first)| < THRESHOLD
    ensures Run(Init(true), [BeginCb(first), BeginCb(second)]).lost == {0}
  {
    var ops := [BeginCb(first), BeginCb(second)];
    PutAllExact(Fresh(BUF_SIZE), first);
    PutAllExact(Fresh(BUF_SIZE), second);
    assert ops[..1] == [BeginCb(first)] && [BeginCb(first)][..0] == [];
    var w := Step(Init(true), BeginCb(first));
    assert Run(Init(true), ops[..1]) == Step(Run(Init(true), []), BeginCb(first));
    assert w.pending == [0] && w.lost == {};
    assert Run(Init(true), ops) == Step(w, BeginCb(second));
    assert SetOf([0]) == {0};
  }
}
