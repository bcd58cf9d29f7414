/** The dispatch in ring mode, and what the ring then holds. */
module RingDispatch {

  // Inside Begin and End commands are written to the Venus ring instead of the
  // batch, and the ring's refusals are ignored. The results hold for every
  // interleaving of the guest's steps with the host's.

  import opened Bits
  import opened VenusEncoder
  import Dispatch
  import RingProtocol

  type Command = Dispatch.Command
  type Event = RingProtocol.Event

  /** uk_venus_ring_cmd_write and uk_venus_ring_cmd_flush */
  datatype Call = Write(bytes: seq<u8>) | Publish

  /** Whether the ring is asked for, has been tried, is up, and takes commands;
      and every call made to it so far. */
  datatype Ring = Ring(want: bool, tried: bool, ready: bool, recording: bool, calls: seq<Call>)

  datatype Disp = Disp(single: Dispatch.Disp, ring: Ring)

  function Start(batchEnabled: bool, want: bool): Disp {
    Disp(Dispatch.Start(batchEnabled), Ring(want, false, false, false, []))
  }

  /** uk_dispatch_ring_active */
  predicate RingActive(s: Disp) { s.ring.ready && s.ring.recording }

  /** UK_ENC_BEGIN and the encode function: the encoder that UK_ENC_SUBMIT finds. */
  function Encoded(s: Disp, cmd: Command): Enc {
    PutAll(if Dispatch.Active(s.single) then s.single.batch else Fresh(Dispatch.BUF_SIZE), cmd)
  }

  function Hand(s: Disp, call: Call): Disp { s.(ring := s.ring.(calls := s.ring.calls + [call])) }

  /** UK_ENC_SUBMIT: the ring gets the encoder's bytes even after an overflow. */
  function Ordinary(s: Disp, cmd: Command): Disp {
    if RingActive(s) then Hand(s, Write(Encoded(s, cmd).bytes))
    else s.(single := Dispatch.Ordinary(s.single, cmd))
  }

  /** uk_dispatch_ring_lazy_init: one attempt, whose outcome is `up`. */
  function LazyInit(s: Disp, up: bool): Disp {
    if s.ring.want && !s.ring.tried then s.(ring := s.ring.(tried := true, ready := up)) else s
  }

  /** The state in which stub_vkBeginCommandBuffer encodes its command. */
  function OpenWindow(s: Disp, up: bool): Disp {
    var s1 := LazyInit(s, up);
    if s1.ring.ready then s1.(ring := s1.ring.(recording := true))
    else s1.(single := Dispatch.OpenWindow(s1.single))
  }

  /** What stub_vkEndCommandBuffer does after encoding its command. */
  function CloseWindow(s: Disp): Disp {
    if RingActive(s) then
      var s1 := Hand(s, Publish);
      s1.(ring := s1.ring.(recording := false))
    else s.(single := Dispatch.CloseWindow(s.single))
  }

  function OrdinaryAll(s: Disp, cmds: seq<Command>): Disp
    decreases |cmds|
  {
    if cmds == [] then s else OrdinaryAll(Ordinary(s, cmds[0]), cmds[1..])
  }

  datatype Op =
    | BeginCb(cmd: Command, up: bool)
    | EndCb(cmd: Command)
    | Stub(cmd: Command)
    | StubImmediate(cmd: Command)
    | QueueSubmit(cmds: seq<Command>)

  function Apply(s: Disp, op: Op): Disp {
    match op
    case BeginCb(cmd, up) => Ordinary(OpenWindow(s, up), cmd)
    case EndCb(cmd) => CloseWindow(Ordinary(s, cmd))
    case Stub(cmd) => Ordinary(s, cmd)
    case StubImmediate(cmd) => s.(single := Dispatch.Direct(s.single, cmd))
    case QueueSubmit(cmds) =>
      var s1 := OrdinaryAll(s, cmds);
      if s1.ring.ready then Hand(s1, Publish) else s1
  }

  function Run(s: Disp, ops: seq<Op>): Disp
    decreases |ops|
  {
    if ops == [] then s else Run(Apply(s, ops[0]), ops[1..])
  }

  // ---- where each command goes ---------------------------------------------------------

  /** The commands of a call that go to the ring. */
  function RingCommandsOf(s: Disp, op: Op): seq<Command> {
    match op
    case BeginCb(cmd, up) => if RingActive(OpenWindow(s, up)) then [cmd] else []
    case EndCb(cmd) => if RingActive(s) then [cmd] else []
    case Stub(cmd) => if RingActive(s) then [cmd] else []
    case StubImmediate(_) => []
    case QueueSubmit(cmds) => if RingActive(s) then cmds else []
  }

  function RingCommands(s: Disp, ops: seq<Op>): seq<Command>
    decreases |ops|
  {
    if ops == [] then [] else RingCommandsOf(s, ops[0]) + RingCommands(Apply(s, ops[0]), ops[1..])
  }

  function Stubs(cmds: seq<Command>): seq<Dispatch.Op> {
    if cmds == [] then [] else [Dispatch.Stub(cmds[0])] + Stubs(cmds[1..])
  }

  /** The calls as the SUBMIT_3D side sees them. */
  function SinglesOf(s: Disp, op: Op): seq<Dispatch.Op> {
    match op
    case BeginCb(cmd, up) => if RingActive(OpenWindow(s, up)) then [] else [Dispatch.BeginCb(cmd)]
    case EndCb(cmd) => if RingActive(s) then [] else [Dispatch.EndCb(cmd)]
    case Stub(cmd) => if RingActive(s) then [] else [Dispatch.Stub(cmd)]
    case StubImmediate(cmd) => [Dispatch.StubImmediate(cmd)]
    case QueueSubmit(cmds) => if RingActive(s) then [] else Stubs(cmds)
  }

  function Singles(s: Disp, ops: seq<Op>): seq<Dispatch.Op>
    decreases |ops|
  {
    if ops == [] then [] else SinglesOf(s, ops[0]) + Singles(Apply(s, ops[0]), ops[1..])
  }

  /** The batch is never recording once the ring is up. */
  ghost predicate Exclusive(s: Disp) {
    (s.ring.ready ==> !s.single.recording) && (s.ring.want && !s.ring.tried ==> !s.single.recording)
  }

  lemma {:induction false} AllKeepWindows(s: Disp, cmds: seq<Command>)
    ensures var s' := OrdinaryAll(s, cmds);
      && s'.ring == s.ring.(calls := s'.ring.calls)
      && s'.single.recording == s.single.recording && s'.single.batchEnabled == s.single.batchEnabled
      && (RingActive(s) ==> s'.single == s.single)
    decreases |cmds|
  {
    if cmds != [] { AllKeepWindows(Ordinary(s, cmds[0]), cmds[1..]); }
  }

  lemma StepKeepsExclusive(s: Disp, op: Op)
    requires Exclusive(s)
    ensures Exclusive(Apply(s, op))
  {
    if op.QueueSubmit? { AllKeepWindows(s, op.cmds); }
  }

  // ---- the SUBMIT_3D side ------------------------------------------------------------------

  lemma {:induction false} RunDispAppend(d: Dispatch.Disp, a: seq<Dispatch.Op>, b: seq<Dispatch.Op>)
    ensures Dispatch.RunDisp(d, a + b) == Dispatch.RunDisp(Dispatch.RunDisp(d, a), b)
    decreases |b|
  {
    if b == [] {
      assert a + b == a;
    } else {
      RunDispAppend(d, a, b[..|b| - 1]);
      assert (a + b)[..|a + b| - 1] == a + b[..|b| - 1];
    }
  }

  lemma RunDispOne(d: Dispatch.Disp, op: Dispatch.Op)
    ensures Dispatch.RunDisp(d, [op]) == Dispatch.Apply(d, op)
  {
    assert [op][..0] == [];
  }

  lemma {:induction false} StubsRun(s: Disp, cmds: seq<Command>)
    requires !RingActive(s)
    ensures OrdinaryAll(s, cmds) == s.(single := Dispatch.RunDisp(s.single, Stubs(cmds)))
    decreases |cmds|
  {
    if cmds != [] {
      RunDispOne(s.single, Dispatch.Stub(cmds[0]));
      StubsRun(Ordinary(s, cmds[0]), cmds[1..]);
      RunDispAppend(s.single, [Dispatch.Stub(cmds[0])], Stubs(cmds[1..]));
    }
  }

  lemma SinglesStep(s: Disp, op: Op)
    ensures Apply(s, op).single == Dispatch.RunDisp(s.single, SinglesOf(s, op))
  {
    match op
    case BeginCb(cmd, up) => RunDispOne(s.single, Dispatch.BeginCb(cmd));
    case EndCb(cmd) => RunDispOne(s.single, Dispatch.EndCb(cmd));
    case Stub(cmd) => RunDispOne(s.single, Dispatch.Stub(cmd));
    case StubImmediate(cmd) => RunDispOne(s.single, Dispatch.StubImmediate(cmd));
    case QueueSubmit(cmds) =>
      AllKeepWindows(s, cmds);
      if !RingActive(s) { StubsRun(s, cmds); }
  }

  /** What goes out as SUBMIT_3D is a run of the dispatch without a ring over the
      calls that do not reach the ring, so all that is proved of those runs holds. */
  lemma {:induction false} SinglesRun(s: Disp, ops: seq<Op>)
    ensures Run(s, ops).single == Dispatch.RunDisp(s.single, Singles(s, ops))
    decreases |ops|
  {
    if ops != [] {
      SinglesStep(s, ops[0]);
      SinglesRun(Apply(s, ops[0]), ops[1..]);
      RunDispAppend(s.single, SinglesOf(s, ops[0]), Singles(Apply(s, ops[0]), ops[1..]));
    }
  }

  // ---- the ring side: which bytes are written ------------------------------------------------

  /** The bytes of a command as the ring gets them. */
  function Encoding(cmd: Command): seq<u8> { PutAll(Fresh(Dispatch.BUF_SIZE), cmd).bytes }

  function Encodings(cmds: seq<Command>): seq<seq<u8>> {
    if cmds == [] then [] else [Encoding(cmds[0])] + Encodings(cmds[1..])
  }

  function Written(calls: seq<Call>): seq<seq<u8>> {
    if calls == [] then []
    else if calls[0].Write? then [calls[0].bytes] + Written(calls[1..])
    else Written(calls[1..])
  }

  /** A command reaches the ring whole exactly when it fits the encode buffer;
      what is cut off then is missing from the ring too. */
  lemma WholeIffFits(cmd: Command)
    ensures Encoding(cmd) == Concat(cmd) <==> |Concat(cmd)| <= Dispatch.BUF_SIZE
    ensures |Encoding(cmd)| <= Dispatch.BUF_SIZE
  {
    PutAllExact(Fresh(Dispatch.BUF_SIZE), cmd);
    assert [] + Concat(cmd) == Concat(cmd);
  }

  lemma {:induction false} WrittenAppend(a: seq<Call>, b: seq<Call>)
    ensures Written(a + b) == Written(a) + Written(b)
    decreases |a|
  {
    if a == [] {
      assert a + b == b;
    } else {
      WrittenAppend(a[1..], b);
      assert (a + b)[1..] == a[1..] + b;
    }
  }

  lemma {:induction false} EncodingsAppend(a: seq<Command>, b: seq<Command>)
    ensures Encodings(a + b) == Encodings(a) + Encodings(b)
    decreases |a|
  {
    hide Encoding;
    if a == [] {
      assert a + b == b;
    } else {
      EncodingsAppend(a[1..], b);
      assert (a + b)[1..] == a[1..] + b;
    }
  }

  lemma WrittenOne(calls: seq<Call>, call: Call)
    ensures Written(calls + [call]) == Written(calls) + (if call.Write? then [call.bytes] else [])
  {
    WrittenAppend(calls, [call]);
    assert [call][1..] == [];
  }

  lemma OrdinaryWrites(s: Disp, cmd: Command)
    requires Exclusive(s)
    ensures Written(Ordinary(s, cmd).ring.calls) ==
            Written(s.ring.calls) + if RingActive(s) then [Encoding(cmd)] else []
  {
    if RingActive(s) { WrittenOne(s.ring.calls, Write(Encoding(cmd))); }
  }

  lemma {:induction false} AllWrite(s: Disp, cmds: seq<Command>)
    requires Exclusive(s)
    ensures Written(OrdinaryAll(s, cmds).ring.calls) ==
            Written(s.ring.calls) + if RingActive(s) then Encodings(cmds) else []
    decreases |cmds|
  {
    if cmds != [] {
      OrdinaryWrites(s, cmds[0]);
      AllKeepWindows(s, [cmds[0]]);
      assert OrdinaryAll(s, [cmds[0]]) == Ordinary(s, cmds[0]);
      AllWrite(Ordinary(s, cmds[0]), cmds[1..]);
    }
  }

  lemma StepWrites(s: Disp, op: Op)
    requires Exclusive(s)
    ensures Written(Apply(s, op).ring.calls) == Written(s.ring.calls) + Encodings(RingCommandsOf(s, op))
  {
    match op
    case BeginCb(cmd, up) => OrdinaryWrites(OpenWindow(s, up), cmd);
    case EndCb(cmd) =>
      OrdinaryWrites(s, cmd);
      WrittenOne(Ordinary(s, cmd).ring.calls, Publish);
    case Stub(cmd) => OrdinaryWrites(s, cmd);
    case StubImmediate(cmd) =>
    case QueueSubmit(cmds) =>
      AllWrite(s, cmds);
      WrittenOne(OrdinaryAll(s, cmds).ring.calls, Publish);
  }

  /** The ring is given exactly the commands of open windows, in program order. */
  lemma {:induction false} RunWrites(s: Disp, ops: seq<Op>)
    requires Exclusive(s)
    ensures Written(Run(s, ops).ring.calls) == Written(s.ring.calls) + Encodings(RingCommands(s, ops))
    decreases |ops|
  {
    if ops != [] {
      StepKeepsExclusive(s, ops[0]);
      StepWrites(s, ops[0]);
      RunWrites(Apply(s, ops[0]), ops[1..]);
      EncodingsAppend(RingCommandsOf(s, ops[0]), RingCommands(Apply(s, ops[0]), ops[1..]));
    }
  }

  // ---- the ring side: interleavings with the host --------------------------------------------

  /** The guest's steps of the calls, one call after the other. */
  ghost function Events(calls: seq<Call>): seq<Event> {
    if calls == [] then []
    else (match calls[0]
          case Write(bytes) => RingProtocol.WriteEvents(bytes)
          case Publish => [RingProtocol.Flush])
         + Events(calls[1..])
  }

  /** The steps of a run that are the guest's. */
  ghost function GuestPart(es: seq<Event>): seq<Event> {
    if es == [] then []
    else if es[0].Consume? then GuestPart(es[1..])
    else [es[0]] + GuestPart(es[1..])
  }

  /** A write, and whether it fits what the host has consumed when it is checked. */
  datatype Attempt = Attempt(data: seq<u8>, fits: bool)

  ghost predicate Fits(w: RingProtocol.World, data: seq<u8>) {
    0 < |data| && |w.accepted| + |data| <= |w.consumed| + |w.ring.buf|
  }

  ghost function Attempts(w: RingProtocol.World, es: seq<Event>): seq<Attempt>
    requires RingProtocol.ValidSize(|w.ring.buf|)
    decreases es
  {
    if es == [] then []
    else
      var later := Attempts(RingProtocol.Step(w, es[0]), es[1..]);
      if es[0].Begin? then [Attempt(es[0].data, Fits(w, es[0].data))] + later else later
  }

  ghost function Datas(tries: seq<Attempt>): seq<seq<u8>> {
    if tries == [] then [] else [tries[0].data] + Datas(tries[1..])
  }

  ghost function Taken(tries: seq<Attempt>): seq<seq<u8>> {
    if tries == [] then []
    else if tries[0].fits then [tries[0].data] + Taken(tries[1..])
    else Taken(tries[1..])
  }

  /** Between calls, or in a write that passed the check or did not. */
  datatype Phase = Free | Within(data: seq<u8>, done: nat, fits: bool)

  ghost predicate InPhase(w: RingProtocol.World, ph: Phase) {
    match ph
    case Free => w.guest.Idle?
    case Within(data, done, fits) =>
      done <= |data| && w.guest == if fits then RingProtocol.Copying(data, done) else RingProtocol.Idle
  }

  ghost function Rest(ph: Phase, calls: seq<Call>): seq<Event>
    requires ph.Within? ==> ph.done <= |ph.data|
  {
    match ph
    case Free => Events(calls)
    case Within(data, done, _) =>
      RingProtocol.Copies(|data| - done) + [RingProtocol.Finish] + Events(calls)
  }

  /** What is still to come is published when it is over. */
  ghost predicate WillPublish(w: RingProtocol.World, ph: Phase, calls: seq<Call>) {
    if calls == [] then ph.Free? && w.published == |w.accepted| else calls[|calls| - 1].Publish?
  }

  ghost function Pending(ph: Phase): seq<u8> {
    if ph.Within? && ph.fits then ph.data else []
  }

  /** What the rest of an interleaving adds to the accepted bytes. */
  ghost predicate Adds(w: RingProtocol.World, ph: Phase, calls: seq<Call>, es: seq<Event>)
    requires RingProtocol.ValidSize(|w.ring.buf|)
  {
    AddsTo(w, ph, calls, Attempts(w, es), RingProtocol.Run(w, es))
  }

  ghost predicate AddsTo(w: RingProtocol.World, ph: Phase, calls: seq<Call>, tries: seq<Attempt>, end: RingProtocol.World) {
    && Datas(tries) == Written(calls)
    && end.guest.Idle?
    && end.accepted == w.accepted + Pending(ph) + Concat(Taken(tries))
    && (WillPublish(w, ph, calls) ==> end.published == |end.accepted|)
    && (|w.accepted| + |Pending(ph)| + |Concat(Written(calls))| <= |w.ring.buf| ==> NothingDropped(tries))
  }

  ghost predicate NothingDropped(tries: seq<Attempt>) {
    forall k :: 0 <= k < |tries| ==> tries[k].fits || tries[k].data == []
  }

  /** What the guest's next step e is, and what is left after it. */
  ghost predicate Next(w: RingProtocol.World, ph: Phase, calls: seq<Call>, e: Event, rest: seq<Event>,
                       ph': Phase, calls': seq<Call>)
    requires RingProtocol.ValidSize(|w.ring.buf|)
  {
    var w' := RingProtocol.Step(w, e);
    && InPhase(w', ph') && Rest(ph', calls') == rest
    && (WillPublish(w, ph, calls) ==> WillPublish(w', ph', calls'))
    && if e.Begin? then
         && ph.Free? && Written(calls) == [e.data] + Written(calls') && ph' == Within(e.data, 0, Fits(w, e.data))
         && w'.accepted == w.accepted
       else Written(calls') == Written(calls) && w'.accepted + Pending(ph') == w.accepted + Pending(ph)
  }

  lemma StartsCall(w: RingProtocol.World, calls: seq<Call>, e: Event, rest: seq<Event>)
    returns (after: Phase, left: seq<Call>)
    requires RingProtocol.Inv(w) && w.guest.Idle? && Events(calls) == [e] + rest
    ensures Next(w, Free, calls, e, rest, after, left)
  {
    left := calls[1..];
    match calls[0]
    case Write(bytes) =>
      StartsWrite(w, calls, e, rest);
      after := Within(bytes, 0, Fits(w, bytes));
    case Publish =>
      assert e == Events(calls)[0] && rest == Events(calls)[1..];
      after := Free;
  }

  lemma StartsWrite(w: RingProtocol.World, calls: seq<Call>, e: Event, rest: seq<Event>)
    requires RingProtocol.Inv(w) && w.guest.Idle? && Events(calls) == [e] + rest
    requires calls != [] && calls[0].Write?
    ensures Next(w, Free, calls, e, rest, Within(calls[0].bytes, 0, Fits(w, calls[0].bytes)), calls[1..])
  {
    var bytes := calls[0].bytes;
    WriteComesFirst(calls, Fits(w, bytes));
    assert e == Events(calls)[0] && rest == Events(calls)[1..];
    RingProtocol.AvailIsFree(w);
    hide RingProtocol.Inv, RingProtocol.Avail, Events, Rest;
  }

  lemma WriteComesFirst(calls: seq<Call>, fits: bool)
    requires calls != [] && calls[0].Write?
    ensures Events(calls) == [RingProtocol.Begin(calls[0].bytes)] + Rest(Within(calls[0].bytes, 0, fits), calls[1..])
  {
    var inside := RingProtocol.Copies(|calls[0].bytes|) + [RingProtocol.Finish];
    assert Events(calls) == [RingProtocol.Begin(calls[0].bytes)] + (inside + Events(calls[1..]));
  }

  lemma ContinuesWrite(w: RingProtocol.World, ph: Phase, calls: seq<Call>, e: Event, rest: seq<Event>)
    returns (after: Phase)
    requires RingProtocol.Inv(w) && ph.Within? && InPhase(w, ph) && Rest(ph, calls) == [e] + rest
    ensures Next(w, ph, calls, e, rest, after, calls)
  {
    var data, done := ph.data, ph.done;
    assert e == Rest(ph, calls)[0] && rest == Rest(ph, calls)[1..];
    if done < |data| {
      after := Within(data, done + 1, ph.fits);
      assert RingProtocol.Copies(|data| - done) == [RingProtocol.CopyByte] + RingProtocol.Copies(|data| - done - 1);
      if ph.fits { RingProtocol.CopyOne(w); }
    } else {
      after := Free;
      assert RingProtocol.Copies(0) == [];
    }
  }

  lemma {:induction false} Weave(w: RingProtocol.World, ph: Phase, calls: seq<Call>, es: seq<Event>)
    requires RingProtocol.Inv(w) && InPhase(w, ph) && GuestPart(es) == Rest(ph, calls)
    ensures Adds(w, ph, calls, es)
    decreases es
  {
    if es == [] {
      assert ph.Free? && calls == [];
    } else if es[0].Consume? {
      RingProtocol.StepKeepsInv(w, es[0]);
      Weave(RingProtocol.Step(w, es[0]), ph, calls, es[1..]);
    } else {
      RingProtocol.StepKeepsInv(w, es[0]);
      var ph', calls' := ph, calls;
      if ph.Free? {
        ph', calls' := StartsCall(w, calls, es[0], GuestPart(es[1..]));
      } else {
        ph' := ContinuesWrite(w, ph, calls, es[0], GuestPart(es[1..]));
      }
      Weave(RingProtocol.Step(w, es[0]), ph', calls', es[1..]);
      AddsStep(w, ph, calls, es, ph', calls');
    }
  }

  lemma AddsStep(w: RingProtocol.World, ph: Phase, calls: seq<Call>, es: seq<Event>, ph': Phase, calls': seq<Call>)
    requires RingProtocol.ValidSize(|w.ring.buf|) && es != [] && !es[0].Consume?
    requires Next(w, ph, calls, es[0], GuestPart(es[1..]), ph', calls')
    requires Adds(RingProtocol.Step(w, es[0]), ph', calls', es[1..])
    ensures Adds(w, ph, calls, es)
  {
    var w1 := RingProtocol.Step(w, es[0]);
    var later, end := Attempts(w1, es[1..]), RingProtocol.Run(w1, es[1..]);
    assert RingProtocol.Run(w, es) == end && |w1.ring.buf| == |w.ring.buf|;
    if es[0].Begin? {
      BeginAdds(w, w1, calls, calls', Attempt(es[0].data, ph'.fits), later, end);
    } else {
      OtherAdds(w, w1, ph, ph', calls, calls', later, end);
    }
    hide RingProtocol.Step, RingProtocol.Run, AddsTo;
  }

  lemma BeginAdds(w: RingProtocol.World, w1: RingProtocol.World, calls: seq<Call>, calls': seq<Call>,
                  first: Attempt, later: seq<Attempt>, end: RingProtocol.World)
    requires AddsTo(w1, Within(first.data, 0, first.fits), calls', later, end)
    requires w1.accepted == w.accepted && |w1.ring.buf| == |w.ring.buf|
    requires first.fits == Fits(w, first.data) && Written(calls) == [first.data] + Written(calls')
    requires WillPublish(w, Free, calls) ==> WillPublish(w1, Within(first.data, 0, first.fits), calls')
    ensures AddsTo(w, Free, calls, [first] + later, end)
  {
    OneMoreAttempt(first, later);
    assert Concat([first.data] + Written(calls')) == first.data + Concat(Written(calls')) by {
      assert ([first.data] + Written(calls'))[1..] == Written(calls');
    }
    var own := Pending(Within(first.data, 0, first.fits));
    assert own == if first.fits then first.data else [];
    assert Pending(Free) == [];
    if first.fits || first.data == [] { OneMoreKept(first, later); }
    Associate(w.accepted, own, Concat(Taken(later)));
    hide Datas, Taken, Concat, Written, WillPublish, Pending, NothingDropped;
  }

  lemma Associate(a: seq<u8>, b: seq<u8>, c: seq<u8>)
    ensures a + b + c == a + [] + (b + c)
  {
  }

  lemma OneMoreKept(first: Attempt, later: seq<Attempt>)
    requires first.fits || first.data == []
    ensures NothingDropped(later) ==> NothingDropped([first] + later)
  {
  }

  lemma OtherAdds(w: RingProtocol.World, w1: RingProtocol.World, ph: Phase, ph': Phase, calls: seq<Call>,
                  calls': seq<Call>, later: seq<Attempt>, end: RingProtocol.World)
    requires AddsTo(w1, ph', calls', later, end)
    requires w1.accepted + Pending(ph') == w.accepted + Pending(ph) && |w1.ring.buf| == |w.ring.buf|
    requires Written(calls') == Written(calls)
    requires WillPublish(w, ph, calls) ==> WillPublish(w1, ph', calls')
    ensures AddsTo(w, ph, calls, later, end)
  {
    hide Datas, Taken, Concat, Written, WillPublish, Pending, NothingDropped;
    assert |w1.accepted + Pending(ph')| == |w.accepted + Pending(ph)|;
  }

  lemma OneMoreAttempt(first: Attempt, later: seq<Attempt>)
    ensures Datas([first] + later) == [first.data] + Datas(later)
    ensures Concat(Taken([first] + later)) == (if first.fits then first.data else []) + Concat(Taken(later))
    ensures Concat(Datas([first] + later)) == first.data + Concat(Datas(later))
  {
    assert ([first] + later)[1..] == later;
    assert ([first.data] + Datas(later))[1..] == Datas(later);
    if first.fits { assert ([first.data] + Taken(later))[1..] == Taken(later); }
  }

  // ---- what the ring carries -------------------------------------------------------------------

  lemma {:induction false} ConcatLength(tries: seq<Attempt>)
    ensures |Concat(Taken(tries))| <= |Concat(Datas(tries))|
    ensures Concat(Taken(tries)) == Concat(Datas(tries)) <==> NothingDropped(tries)
    decreases |tries|
  {
    if tries != [] {
      var first, rest := tries[0], tries[1..];
      ConcatLength(rest);
      OneMoreAttempt(first, rest);
      assert [first] + rest == tries;
      hide Taken, Datas, Concat;
      var taken, datas := Concat(Taken(rest)), Concat(Datas(rest));
      if first.fits || first.data == [] {
        assert Concat(Taken(tries)) == first.data + taken;
        assert (first.data + taken)[|first.data|..] == taken && (first.data + datas)[|first.data|..] == datas;
        assert forall k :: 0 <= k < |rest| ==> rest[k] == tries[k + 1];
      } else {
        assert Concat(Taken(tries)) == [] + taken;
        assert |Concat(Taken(tries))| < |Concat(Datas(tries))|;
      }
    }
  }

  /** In ring mode, however the host's steps fall between the guest's: the ring
      is offered the commands of open windows in program order, and accepts
      exactly those that fit what the host has consumed when each is checked.
      The host reads a prefix of their bytes, back to back. Nothing is dropped
      if and only if every command that has bytes fits, and that is certain when
      all of them together are no longer than the ring. */
  lemma RingCarries(batchEnabled: bool, want: bool, ops: seq<Op>, w: RingProtocol.World, es: seq<Event>)
    requires RingProtocol.Initial(w)
    requires GuestPart(es) == Events(Run(Start(batchEnabled, want), ops).ring.calls)
    ensures var tries, w' := Attempts(w, es), RingProtocol.Run(w, es);
      var offered := Encodings(RingCommands(Start(batchEnabled, want), ops));
      && Datas(tries) == offered
      && w'.accepted == Concat(Taken(tries)) && w'.consumed <= w'.accepted
      && (w'.accepted == Concat(offered) <==> NothingDropped(tries))
      && (|Concat(offered)| <= |w.ring.buf| ==> NothingDropped(tries))
  {
    var s := Start(batchEnabled, want);
    RunWrites(s, ops);
    Weave(w, Free, Run(s, ops).ring.calls, es);
    RingProtocol.ConsumedIsPrefixOfAccepted(w, es);
    ConcatLength(Attempts(w, es));
  }

  /** After End in ring mode, and after every QueueSubmit once the ring is up,
      all that was accepted is published to the host. */
  lemma AcceptedIsPublished(batchEnabled: bool, want: bool, ops: seq<Op>, last: Op, w: RingProtocol.World, es: seq<Event>)
    requires RingProtocol.Initial(w)
    requires var s := Run(Start(batchEnabled, want), ops);
      && ((last.EndCb? && RingActive(s)) || (last.QueueSubmit? && s.ring.ready))
      && GuestPart(es) == Events(Apply(s, last).ring.calls)
    ensures RingProtocol.Run(w, es).published == |RingProtocol.Run(w, es).accepted|
  {
    var s := Run(Start(batchEnabled, want), ops);
    if last.QueueSubmit? { AllKeepWindows(s, last.cmds); }
    Weave(w, Free, Apply(s, last).ring.calls, es);
  }

  // ---- commands the ring has no room for ---------------------------------------------------------

  lemma {:induction false} OversizeNeverFits(w: RingProtocol.World, es: seq<Event>, k: nat)
    requires RingProtocol.Inv(w) && k < |Attempts(w, es)| && |Attempts(w, es)[k].data| > |w.ring.buf|
    ensures !Attempts(w, es)[k].fits
    decreases es
  {
    RingProtocol.StepKeepsInv(w, es[0]);
    var w1 := RingProtocol.Step(w, es[0]);
    assert |w1.ring.buf| == |w.ring.buf|;
    hide RingProtocol.Step;
    if !es[0].Begin? {
      OversizeNeverFits(w1, es[1..], k);
    } else if k > 0 {
      OversizeNeverFits(w1, es[1..], k - 1);
    }
  }

  lemma {:induction false} DatasAt(tries: seq<Attempt>, cmds: seq<Command>, k: nat)
    requires Datas(tries) == Encodings(cmds) && k < |cmds|
    ensures |tries| == |cmds| && tries[k].data == Encoding(cmds[k])
    decreases |tries|
  {
    hide Encoding;
    assert tries != [] && Datas(tries)[0] == Encodings(cmds)[0];
    assert Datas(tries)[1..] == Datas(tries[1..]) && Encodings(cmds)[1..] == Encodings(cmds[1..]);
    if |cmds| > 1 { DatasAt(tries[1..], cmds[1..], if k > 0 then k - 1 else 0); } else { assert tries[1..] == []; }
  }

  /** A command longer than the ring is dropped wherever it comes in a run,
      whatever the host has consumed. */
  lemma OversizeIsDropped(batchEnabled: bool, want: bool, ops: seq<Op>, w: RingProtocol.World, es: seq<Event>, k: nat)
    requires RingProtocol.Initial(w)
    requires GuestPart(es) == Events(Run(Start(batchEnabled, want), ops).ring.calls)
    requires var offered := RingCommands(Start(batchEnabled, want), ops);
      k < |offered| && |Encoding(offered[k])| > |w.ring.buf|
    ensures |Attempts(w, es)| == |RingCommands(Start(batchEnabled, want), ops)| && !Attempts(w, es)[k].fits
  {
    RingCarries(batchEnabled, want, ops, w, es);
    DatasAt(Attempts(w, es), RingCommands(Start(batchEnabled, want), ops), k);
    hide Attempts;
    OversizeNeverFits(w, es, k);
  }

  /** The first write of all finds the ring empty. */
  lemma {:induction false} FirstFits(w: RingProtocol.World, es: seq<Event>)
    requires RingProtocol.Inv(w) && w.accepted == [] && w.guest.Idle? && Attempts(w, es) != []
    ensures Attempts(w, es)[0].fits <==> 0 < |Attempts(w, es)[0].data| <= |w.ring.buf|
    decreases es
  {
    if !es[0].Begin? {
      RingProtocol.StepKeepsInv(w, es[0]);
      FirstFits(RingProtocol.Step(w, es[0]), es[1..]);
    }
  }

  /** The ring holds 64 KiB and the encode buffer 2 MiB. Of a Begin and a command
      in between these sizes the host only ever gets the Begin, in every
      interleaving, and the caller is not told. */
  lemma LongCommandIsDropped(begin: Command, long: Command, w: RingProtocol.World, es: seq<Event>)
    requires RingProtocol.Initial(w) && 0 < |Encoding(begin)| <= |w.ring.buf| < |Encoding(long)|
    requires GuestPart(es) == Events(Run(Start(false, true), [BeginCb(begin, true), Stub(long)]).ring.calls)
    ensures RingProtocol.Run(w, es).accepted == Encoding(begin)
  {
    var ops, tries := [BeginCb(begin, true), Stub(long)], Attempts(w, es);
    TwoOffered(begin, long);
    RingCarries(false, true, ops, w, es);
    OversizeIsDropped(false, true, ops, w, es, 1);
    DatasAt(tries, [begin, long], 0);
    FirstFits(w, es);
    hide Attempts, Encoding, RingCommands;
    assert tries == [tries[0]] + [tries[1]];
    OneMoreAttempt(tries[0], [tries[1]]);
    OneMoreAttempt(tries[1], []);
    assert [tries[1]] + [] == [tries[1]];
    assert Encoding(begin) + [] == Encoding(begin);
  }

  /** The ring branch of UK_ENC_SUBMIT does not look at the overflow flag: of a
      command too long for the encode buffer the ring takes what was written
      before the overflow, and the host reads a truncated command. */
  lemma TruncatedCommandEntersRing(begin: Command, head: seq<u8>, body: seq<u8>, w: RingProtocol.World)
    requires RingProtocol.Initial(w) && Encoding(begin) != []
    requires 0 < |head| && |head| + |body| > Dispatch.BUF_SIZE && |head| <= Dispatch.BUF_SIZE
    requires |Encoding(begin)| + |head| <= |w.ring.buf|
    ensures var ops := [BeginCb(begin, true), Stub([head, body])];
      && RingCommands(Start(false, true), ops) == [begin, [head, body]]
      && RingProtocol.Run(w, Events(Run(Start(false, true), ops).ring.calls)).accepted == Encoding(begin) + head
  {
    var start, ops := Start(false, true), [BeginCb(begin, true), Stub([head, body])];
    TwoOffered(begin, [head, body]);
    PutAllTwo(Fresh(Dispatch.BUF_SIZE), head, body);
    assert [] + head == head;
    TwoEncodings(begin, [head, body]);
    OnlyGuestSteps(Run(start, ops).ring.calls);
    RingCarries(false, true, ops, w, Events(Run(start, ops).ring.calls));
  }

  lemma TwoOffered(a: Command, b: Command)
    ensures RingCommands(Start(false, true), [BeginCb(a, true), Stub(b)]) == [a, b]
  {
    var start, ops := Start(false, true), [BeginCb(a, true), Stub(b)];
    var open := Apply(start, ops[0]);
    assert ops[1..] == [ops[1]] && [ops[1]][1..] == [];
    assert RingCommands(open, [ops[1]]) == RingCommandsOf(open, ops[1]) + RingCommands(Apply(open, ops[1]), []);
    assert RingCommands(start, ops) == [a] + [b];
  }

  lemma TwoEncodings(a: Command, b: Command)
    ensures Encodings([a, b]) == [Encoding(a), Encoding(b)]
    ensures Concat(Encodings([a, b])) == Encoding(a) + Encoding(b)
  {
    assert [a, b][1..] == [b] && [b][1..] == [];
    assert Encodings([b]) == [Encoding(b)];
    assert [Encoding(a), Encoding(b)][1..] == [Encoding(b)] && [Encoding(b)][1..] == [];
    assert Concat([Encoding(b)]) == Encoding(b) + Concat([]);
  }

  lemma {:induction false} NoHostSteps(a: seq<Event>, b: seq<Event>)
    requires forall k :: 0 <= k < |a| ==> !a[k].Consume?
    ensures GuestPart(a + b) == a + GuestPart(b)
    decreases |a|
  {
    if a == [] {
      assert a + b == b;
    } else {
      NoHostSteps(a[1..], b);
      assert (a + b)[1..] == a[1..] + b;
    }
  }

  /** The guest's steps on their own are one of the interleavings. */
  lemma {:induction false} OnlyGuestSteps(calls: seq<Call>)
    ensures GuestPart(Events(calls)) == Events(calls)
    decreases |calls|
  {
    if calls != [] {
      OnlyGuestSteps(calls[1..]);
      NoHostSteps(Events(calls)[..|Events(calls)| - |Events(calls[1..])|], Events(calls[1..]));
    }
  }
}
