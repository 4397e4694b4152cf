/** The I2C slave driver on the bus: the automaton of the bus thread and the hand-over to the
    application's thread, put together. What a master writes is what the rx callbacks get. */
module I2cDriver {
  import opened Basics
  import opened Bytes
  import opened I2cSlave
  import opened I2cHandshake

  // ----- callbacks and answers of a run -----

  function CallOf(step: Step): seq<Callback> {
    if step.Call? then [step.call] else []
  }

  /** The callbacks that the bus thread makes in a run. */
  function CallsMade(steps: seq<Step>): seq<Callback> {
    if steps == [] then [] else CallOf(steps[0]) + CallsMade(steps[1..])
  }

  /** What a step of the bus thread returns from the callback under way: zero to acknowledge, one
      to refuse, or the byte supplied. */
  function Answer(c: Config, s: State, step: Step): (r: seq<nat>)
    ensures |r| <= 1
  {
    match step
    case Call(Sent(_)) =>
      var stored := if s.rxI < c.bufLen && s.rxI < |s.dataBuf| then s.rxI + 1 else s.rxI;
      [if stored < c.bufLen then 0 else 1]
    case Call(Requires) => [if 0 < s.txLen && s.txData.Some? then Supply(s) else 0xFF]
    case Call(StopBit) => [0]
    case Proceed => if s.hil.Proceeding? && s.hil.f.ForWrite? then [0] else []
    case TakeStart => [if 0 < s.txLen && s.txData.Some? then 0 else 1]
    case _ => []
  }

  /** The answers in a run, in the order of the callbacks. */
  ghost function Answers(c: Config, s: State, steps: seq<Step>, d: State): seq<nat>
    requires Runs(c, s, steps, d)
    decreases |steps|
  {
    if steps == [] then [] else Answer(c, s, steps[0]) + Answers(c, Do(c, s, steps[0]), steps[1..], d)
  }

  /** app answers callback number n and those that follow so. */
  predicate Agrees(app: App, n: nat, answers: seq<nat>) {
    forall k: nat | k < |answers| :: app(n + k) == answers[k]
  }

  // ----- what the callbacks say about writes -----

  /** The bytes of the last write, and what the buffer can hold of all the writes that a start or
      stop condition has ended and that are not empty. */
  datatype Heard = Heard(offered: seq<Byte>, writes: seq<seq<Byte>>)

  function Ended(c: Config, h: Heard, writing: bool): seq<seq<Byte>> {
    h.writes + if writing && Stored(c, h.offered) != [] then [Stored(c, h.offered)] else []
  }

  function Hears(c: Config, app: App, calls: seq<Callback>): Heard {
    if calls == [] then Heard([], [])
    else
      var n := |calls| - 1;
      var h := Hears(c, app, calls[..n]);
      match calls[n]
      case Sent(d) => h.(offered := h.offered + [Low(d)])
      case Requires => h
      case _ => Heard([], Ended(c, h, PhaseAfter(app, calls[..n]).Writing?))
  }

  lemma HearsMore(c: Config, app: App, calls: seq<Callback>, call: Callback)
    ensures var h, n := Hears(c, app, calls), Hears(c, app, calls + [call]);
      match call
      case Sent(d) => n == h.(offered := h.offered + [Low(d)])
      case Requires => n == h
      case _ => n == Heard([], Ended(c, h, PhaseAfter(app, calls).Writing?))
  {
    assert (calls + [call])[..|calls|] == calls;
  }

  // ----- the two halves agree -----

  /** An address callback is on its way. */
  predicate UnderWay(s: State) {
    s.hil.AwaitStart? || (!s.hil.Running? && !s.hil.f.ForStop?)
  }

  function AddressCallback(s: State): Callback
    requires UnderWay(s)
  {
    if s.hil.AwaitStart? || s.hil.f.ForRead? then AckRead else AckWrite
  }

  /** Write requests are always acknowledged. */
  predicate AcksWrites(app: App, calls: seq<Callback>, n: nat) {
    forall k: nat | k < n && k < |calls| && calls[k].AckWrite? :: Acks(app, k)
  }

  /** n of the callbacks are answered, and the driver is where they lead. */
  predicate Follows(c: Config, app: App, s: State, calls: seq<Callback>, n: nat) {
    && AcksWrites(app, calls, n)
    && s.writes == Hears(c, app, calls).writes
    && (s.phase.Writing? ==> s.offered == Hears(c, app, calls).offered)
    && (if UnderWay(s) then
          n + 1 == |calls| && calls[n] == AddressCallback(s) && s.phase.Refused? &&
          !PhaseAfter(app, calls[..n]).Bad? && Hears(c, app, calls).offered == []
        else n == |calls| && PhaseAfter(app, calls) == s.phase)
  }

  lemma PhaseOfLast(app: App, calls: seq<Callback>)
    requires calls != []
    ensures var n := |calls| - 1; PhaseAfter(app, calls) == Next(PhaseAfter(app, calls[..n]), calls[n], Acks(app, n))
  {}

  lemma CallFollows(c: Config, app: App, s: State, call: Callback, calls: seq<Callback>, n: nat)
    requires Enabled(c, s, Call(call)) && Follows(c, app, s, calls, n)
    requires Agrees(app, n, Answer(c, s, Call(call)))
    ensures Follows(c, app, Do(c, s, Call(call)), calls + [call], n + |Answer(c, s, Call(call))|)
  {
    hide PhaseAfter, Hears, Low, Supply;
    PhaseExtends(app, calls, call);
    HearsMore(c, app, calls, call);
    assert (calls + [call])[..n] == calls;
  }

  lemma HilFollows(c: Config, app: App, s: State, step: Step, calls: seq<Callback>, n: nat)
    requires Enabled(c, s, step) && IsHilStep(step) && !step.Call? && Follows(c, app, s, calls, n)
    requires Agrees(app, n, Answer(c, s, step))
    ensures Follows(c, app, Do(c, s, step), calls, n + |Answer(c, s, step)|)
  {
    hide PhaseAfter, Hears, Low, Supply, AppStep;
    if UnderWay(s) {
      PhaseOfLast(app, calls);
    }
    if Answer(c, s, step) != [] {
      assert app(n + 0) == Answer(c, s, step)[0];
    }
  }

  lemma AppFollows(c: Config, app: App, s: State, step: Step, calls: seq<Callback>, n: nat)
    requires Enabled(c, s, step) && !IsHilStep(step) && Follows(c, app, s, calls, n)
    ensures Follows(c, app, Do(c, s, step), calls, n) && Answer(c, s, step) == []
  {
    hide PhaseAfter, Hears, HilStep, Given, AcksWrites;
  }

  lemma {:induction false} RunFollows(c: Config, app: App, s: State, steps: seq<Step>, d: State,
                                      calls: seq<Callback>, n: nat)
    requires Runs(c, s, steps, d) && Follows(c, app, s, calls, n) && Agrees(app, n, Answers(c, s, steps, d))
    ensures Follows(c, app, d, calls + CallsMade(steps), n + |Answers(c, s, steps, d)|)
    decreases |steps|
  {
    hide Follows, Enabled, Do, Answer;
    if steps == [] {
      assert calls + [] == calls;
    } else {
      var step, rest := steps[0], steps[1..];
      var x := Do(c, s, step);
      var now, later := Answer(c, s, step), Answers(c, x, rest, d);
      AgreesInParts(app, n, now, later);
      if step.Call? {
        CallFollows(c, app, s, step.call, calls, n);
      } else if IsHilStep(step) {
        HilFollows(c, app, s, step, calls, n);
        assert calls + [] == calls;
      } else {
        AppFollows(c, app, s, step, calls, n);
        assert calls + [] == calls;
      }
      RunFollows(c, app, x, rest, d, calls + CallOf(step), n + |now|);
      assert calls + CallOf(step) + CallsMade(rest) == calls + CallsMade(steps);
    }
  }

  lemma AgreesInParts(app: App, n: nat, now: seq<nat>, later: seq<nat>)
    requires Agrees(app, n, now + later)
    ensures Agrees(app, n, now) && Agrees(app, n + |now|, later)
  {
    forall k: nat | k < |now| ensures app(n + k) == now[k] {
      assert (now + later)[k] == now[k];
    }
    forall k: nat | k < |later| ensures app(n + |now| + k) == later[k] {
      assert (now + later)[|now| + k] == later[k] && app(n + (|now| + k)) == (now + later)[|now| + k];
    }
  }

  lemma RunFollowsFromStart(c: Config, app: App, buf: seq<Byte>, steps: seq<Step>, d: State)
    requires Runs(c, Init(c, buf), steps, d) && Agrees(app, 0, Answers(c, Init(c, buf), steps, d))
    ensures Follows(c, app, d, CallsMade(steps), |Answers(c, Init(c, buf), steps, d)|)
  {
    hide Runs, Answers, Agrees;
    RunFollows(c, app, Init(c, buf), steps, d, [], 0);
    assert [] + CallsMade(steps) == CallsMade(steps);
  }

  /** Between callbacks the driver takes exactly the callbacks that keep the order, given the answers
      it has given itself. */
  lemma TakesOrderlyCalls(c: Config, app: App, buf: seq<Byte>, steps: seq<Step>, d: State, call: Callback)
    requires Runs(c, Init(c, buf), steps, d) && Agrees(app, 0, Answers(c, Init(c, buf), steps, d))
    requires d.hil.Running?
    ensures PhaseAfter(app, CallsMade(steps)) == d.phase
    ensures Enabled(c, d, Call(call)) <==> !PhaseAfter(app, CallsMade(steps) + [call]).Bad?
  {
    hide Runs, Answers, Agrees, Hears, CallsMade, PhaseAfter;
    RunFollowsFromStart(c, app, buf, steps, d);
    PhaseExtends(app, CallsMade(steps), call);
  }

  /** Whatever happens on the bus, the driver can take the automaton's next callback: in every run
      of the two together, with the automaton getting the driver's answers. */
  lemma NextCallIsTaken(dev: nat, c: Config, app: App, buf: seq<Byte>, steps: seq<Step>, d: State,
                        actions: seq<Action>, b: Bus, call: Callback)
    requires Runs(c, Init(c, buf), steps, d) && Agrees(app, 0, Answers(c, Init(c, buf), steps, d))
    requires d.hil.Running? && AfterActions(dev, app, Start(), actions) == b
    requires CallsMade(steps) + [call] <= b.slave.calls
    ensures Enabled(c, d, Call(call))
  {
    hide Runs, Answers, Agrees, CallsMade, PhaseAfter, Enabled, AfterActions;
    StartIsOrderly(app);
    CallsStayInOrder(dev, app, Start(), actions);
    NoBadBefore(app, b.slave.calls, |CallsMade(steps)| + 1);
    assert b.slave.calls[..|CallsMade(steps)| + 1] == CallsMade(steps) + [call];
    TakesOrderlyCalls(c, app, buf, steps, d, call);
  }

  lemma StartIsOrderly(app: App)
    ensures Orderly(app, Start().slave)
  {}

  lemma CallsStayInOrder(dev: nat, app: App, b: Bus, actions: seq<Action>)
    requires Orderly(app, b.slave)
    ensures !PhaseAfter(app, AfterActions(dev, app, b, actions).slave.calls).Bad?
  {
    CallbacksInOrder(dev, app, b, actions);
  }

  /** Once the order is broken it stays so. */
  lemma {:induction false} NoBadBefore(app: App, calls: seq<Callback>, n: nat)
    requires n <= |calls| && !PhaseAfter(app, calls).Bad?
    ensures !PhaseAfter(app, calls[..n]).Bad?
    decreases |calls|
  {
    if n == |calls| {
      assert calls[..n] == calls;
    } else {
      var m := |calls| - 1;
      NoBadBefore(app, calls[..m], n);
      assert calls[..m][..n] == calls[..n];
    }
  }

  /** The byte that fills the buffer is stored, and refused like all that come after it. */
  lemma RefusedFrom(c: Config, s: State, d: nat)
    requires Inv(c, s) && Enabled(c, s, Call(Sent(d)))
    ensures Answer(c, s, Call(Sent(d))) == [0] <==> |s.offered| + 1 < c.bufLen
  {
    hide InFlight;
  }

  // ----- from the bus to the application -----

  /** What the buffer can hold of the writes to the slave, as the master makes them. */
  function BusWrites(c: Config, dev: nat, ts: seq<Transfer>): seq<seq<Byte>> {
    if ts == [] then []
    else
      var n := |ts| - 1;
      var t := ts[n];
      BusWrites(c, dev, ts[..n]) +
        if t.addr == dev && t.Write? && Stored(c, t.bytes) != [] then [Stored(c, t.bytes)] else []
  }

  /** All that has been written so far, ended or not. */
  function Written(c: Config, app: App, calls: seq<Callback>): seq<seq<Byte>> {
    Ended(c, Hears(c, app, calls), PhaseAfter(app, calls).Writing?)
  }

  lemma {:induction false} HearsBytes(c: Config, app: App, calls: seq<Callback>, bytes: seq<Byte>)
    requires PhaseAfter(app, calls).Writing?
    ensures var all := calls + WriteCalls(bytes);
      && PhaseAfter(app, all).Writing?
      && Hears(c, app, all) == Hears(c, app, calls).(offered := Hears(c, app, calls).offered + bytes)
    decreases |bytes|
  {
    hide PhaseAfter, Hears;
    if bytes == [] {
      assert calls + WriteCalls(bytes) == calls;
    } else {
      var n := |bytes| - 1;
      HearsBytes(c, app, calls, bytes[..n]);
      var init := calls + WriteCalls(bytes[..n]);
      PhaseExtends(app, init, Sent(bytes[n]));
      HearsMore(c, app, init, Sent(bytes[n]));
      assert calls + WriteCalls(bytes) == init + [Sent(bytes[n])];
    }
  }

  lemma {:induction false} HearsReads(c: Config, app: App, calls: seq<Callback>, n: nat)
    requires PhaseAfter(app, calls).Reading?
    ensures var all := calls + ReadCalls(n);
      PhaseAfter(app, all).Reading? && Hears(c, app, all) == Hears(c, app, calls)
    decreases n
  {
    hide PhaseAfter, Hears;
    if n == 0 {
      assert calls + ReadCalls(0) == calls;
    } else {
      HearsReads(c, app, calls, n - 1);
      var init := calls + ReadCalls(n - 1);
      PhaseExtends(app, init, Requires);
      HearsMore(c, app, init, Requires);
      assert calls + ReadCalls(n) == init + [Requires];
    }
  }

  lemma HearsAddress(c: Config, app: App, calls: seq<Callback>, call: Callback)
    requires !PhaseAfter(app, calls).Bad? && (call.AckRead? || call.AckWrite?)
    ensures var all := calls + [call];
      && Hears(c, app, all) == Heard([], Written(c, app, calls))
      && PhaseAfter(app, all) ==
           if !Acks(app, |calls|) then Refused else if call.AckRead? then Reading else Writing
  {
    hide PhaseAfter, Hears, Acks;
    PhaseExtends(app, calls, call);
    HearsMore(c, app, calls, call);
  }

  lemma HearsRefused(c: Config, app: App, calls: seq<Callback>, call: Callback)
    requires !PhaseAfter(app, calls).Bad? && (call.AckRead? || call.AckWrite?) && !Acks(app, |calls|)
    ensures !PhaseAfter(app, calls + [call]).Bad? && Written(c, app, calls + [call]) == Written(c, app, calls)
  {
    hide PhaseAfter, Hears, Acks;
    HearsAddress(c, app, calls, call);
  }

  lemma HearsWrite(c: Config, app: App, calls: seq<Callback>, bytes: seq<Byte>)
    requires !PhaseAfter(app, calls).Bad? && Acks(app, |calls|)
    ensures var all := calls + ([AckWrite] + WriteCalls(bytes));
      && !PhaseAfter(app, all).Bad?
      && Written(c, app, all) == Written(c, app, calls) +
           if Stored(c, bytes) != [] then [Stored(c, bytes)] else []
  {
    hide PhaseAfter, Hears, Acks, WriteCalls, Stored;
    var first := calls + [AckWrite];
    HearsAddress(c, app, calls, AckWrite);
    HearsBytes(c, app, first, bytes);
    assert calls + ([AckWrite] + WriteCalls(bytes)) == first + WriteCalls(bytes);
    assert [] + bytes == bytes;
  }

  lemma HearsRead(c: Config, app: App, calls: seq<Callback>, count: nat)
    requires !PhaseAfter(app, calls).Bad? && Acks(app, |calls|)
    ensures var all := calls + ([AckRead] + ReadCalls(count));
      !PhaseAfter(app, all).Bad? && Written(c, app, all) == Written(c, app, calls)
  {
    hide PhaseAfter, Hears, Acks, ReadCalls, Stored;
    var first := calls + [AckRead];
    HearsAddress(c, app, calls, AckRead);
    HearsReads(c, app, first, count);
    assert calls + ([AckRead] + ReadCalls(count)) == first + ReadCalls(count);
  }

  /** One transfer adds what it wrote. */
  lemma HearsTransfer(c: Config, dev: nat, app: App, calls: seq<Callback>, t: Transfer)
    requires !PhaseAfter(app, calls).Bad? && (t.addr == dev && t.Write? ==> Acks(app, |calls|))
    ensures var all := calls + Calls(dev, app, |calls|, t);
      && !PhaseAfter(app, all).Bad?
      && Written(c, app, all) == Written(c, app, calls) +
           if t.addr == dev && t.Write? && Stored(c, t.bytes) != [] then [Stored(c, t.bytes)] else []
  {
    hide PhaseAfter, Written, Acks, WriteCalls, ReadCalls, Stored;
    if t.addr != dev {
      assert calls + Calls(dev, app, |calls|, t) == calls;
    } else if !Acks(app, |calls|) {
      HearsRefused(c, app, calls, AddressCall(t));
    } else if t.Write? {
      HearsWrite(c, app, calls, t.bytes);
    } else {
      HearsRead(c, app, calls, t.count);
    }
  }

  lemma {:induction false} HearsTransfers(c: Config, dev: nat, app: App, ts: seq<Transfer>)
    requires var calls := AllCalls(dev, app, 0, ts); AcksWrites(app, calls, |calls|)
    ensures var calls := AllCalls(dev, app, 0, ts);
      !PhaseAfter(app, calls).Bad? && Written(c, app, calls) == BusWrites(c, dev, ts)
    decreases |ts|
  {
    hide Written, Acks, Calls;
    if ts == [] {
      NothingWritten(c, app);
    } else {
      hide PhaseAfter;
      var n := |ts| - 1;
      var before, calls := AllCalls(dev, app, 0, ts[..n]), AllCalls(dev, app, 0, ts);
      var added := Calls(dev, app, |before|, ts[n]);
      assert calls == before + added;
      assert forall k: nat | k < |before| :: calls[k] == before[k];
      HearsTransfers(c, dev, app, ts[..n]);
      if ts[n].addr == dev && ts[n].Write? {
        FirstIsAddress(dev, app, |before|, ts[n]);
        assert calls[|before|] == added[0];
      }
      HearsTransfer(c, dev, app, before, ts[n]);
    }
  }

  lemma NothingWritten(c: Config, app: App)
    ensures Written(c, app, []) == []
  {}

  lemma FirstIsAddress(dev: nat, app: App, k: nat, t: Transfer)
    requires t.addr == dev
    ensures Calls(dev, app, k, t) != [] && Calls(dev, app, k, t)[0] == AddressCall(t)
  {}

  /** The callbacks of a series of transfers up to the stop condition. */
  function SessionCalls(dev: nat, app: App, ts: seq<Transfer>): seq<Callback> {
    AllCalls(dev, app, 0, ts) + if Addressed(dev, ts) then [StopBit] else []
  }

  /** After the stop condition everything written counts as ended. */
  lemma StopEnds(c: Config, dev: nat, app: App, ts: seq<Transfer>, calls: seq<Callback>)
    requires calls == SessionCalls(dev, app, ts) && AcksWrites(app, calls, |calls|)
    ensures Hears(c, app, calls).writes == BusWrites(c, dev, ts)
  {
    hide Hears, Acks, BusWrites, AllCalls, Addressed, PhaseAfter;
    var all := AllCalls(dev, app, 0, ts);
    assert forall k: nat | k < |all| :: calls[k] == all[k];
    HearsTransfers(c, dev, app, ts);
    if Addressed(dev, ts) {
      HearsMore(c, app, all, StopBit);
    } else {
      NoCalls(dev, app, 0, ts);
      assert calls == all;
      NothingHeard(c, app);
    }
  }

  lemma NothingHeard(c: Config, app: App)
    ensures Hears(c, app, []) == Heard([], []) && PhaseAfter(app, []).Stopped?
  {}

  lemma {:induction false} NoCalls(dev: nat, app: App, k: nat, ts: seq<Transfer>)
    requires !Addressed(dev, ts)
    ensures AllCalls(dev, app, k, ts) == []
    decreases |ts|
  {
    if ts != [] {
      hide Addressed;
      AddressedLast(dev, ts);
      NoCalls(dev, app, k, ts[..|ts| - 1]);
    }
  }

  lemma {:induction false} PathIsFunction(dev: nat, app: App, b: Bus, actions: seq<Action>, c: Bus, d: Bus)
    requires Path(dev, app, b, actions, c) && Path(dev, app, b, actions, d)
    ensures c == d
    decreases |actions|
  {
    hide Act, Settled;
    if actions != [] {
      PathIsFunction(dev, app, Act(dev, app, b, actions[0]), actions[1..], c, d);
    }
  }

  lemma BusCalls(dev: nat, app: App, ts: seq<Transfer>, b: Bus)
    requires ts != [] && AllLegal(ts) && Path(dev, app, Start(), Actions(dev, app, 0, ts) + STOP, b)
    ensures b.slave.calls == SessionCalls(dev, app, ts)
  {
    hide Path, Actions, AllCalls, Addressed, AllLegal;
    StartIsFree();
    var x := SlaveDecodes(dev, app, Start(), ts);
    PathIsFunction(dev, app, Start(), Actions(dev, app, 0, ts) + STOP, b, x);
  }

  /** A stop condition leaves no address callback on its way. */
  lemma AllAnswered(c: Config, app: App, s: State, calls: seq<Callback>, n: nat)
    requires Follows(c, app, s, calls, n) && (calls != [] ==> calls[|calls| - 1].StopBit?)
    ensures AcksWrites(app, calls, |calls|) && s.writes == Hears(c, app, calls).writes
  {
    hide Hears, PhaseAfter, Acks;
  }

  lemma EndsWithStop(dev: nat, app: App, ts: seq<Transfer>)
    ensures var calls := SessionCalls(dev, app, ts); calls != [] ==> calls[|calls| - 1].StopBit?
  {
    hide AllCalls, Addressed;
    if !Addressed(dev, ts) {
      NoCalls(dev, app, 0, ts);
    }
  }

  /** From the lines of the bus to the application: the master makes any series of legal transfers,
      the automaton makes its callbacks, the driver answers them and hands over, in any
      interleaving with the application's thread. The rx callbacks
      have been given, in order and once, what the buffer holds of every write to the slave that is
      not empty, except for the last one as long as it is on its way. */
  lemma WritesArrive(dev: nat, c: Config, app: App, ts: seq<Transfer>, b: Bus,
                     buf: seq<Byte>, steps: seq<Step>, d: State)
    requires ts != [] && AllLegal(ts) && |buf| == c.bufLen
    requires Path(dev, app, Start(), Actions(dev, app, 0, ts) + STOP, b)
    requires Runs(c, Init(c, buf), steps, d) && Agrees(app, 0, Answers(c, Init(c, buf), steps, d))
    requires CallsMade(steps) == b.slave.calls
    ensures d.writes == BusWrites(c, dev, ts)
    ensures d.delivered == BusWrites(c, dev, ts) ||
            (BusWrites(c, dev, ts) == d.delivered + [Given(d)] && (d.unsent || InFlight(d, Rx)))
  {
    hide Path, Runs, Answers, Agrees, Actions, SessionCalls, BusWrites, Hears, InFlight, CallsMade, Follows, Given;
    BusCalls(dev, app, ts, b);
    EndsWithStop(dev, app, ts);
    RunFollowsFromStart(c, app, buf, steps, d);
    AllAnswered(c, app, d, b.slave.calls, |Answers(c, Init(c, buf), steps, d)|);
    StopEnds(c, dev, app, ts, b.slave.calls);
    WritesDeliveredOnce(c, buf, steps, d);
  }
}
