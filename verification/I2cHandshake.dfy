/** How the I2C slave driver hands transfers to the application: the callbacks of the bus thread
    on one side, the application's thread on the other, one channel each way and an event group
    that an interrupt sets. */
module I2cHandshake {
  import opened Basics
  import Arith
  import opened Bytes
  import opened I2cSlave

  /** The requests to the application's thread. */
  datatype Code = Rx | TxStart | TxDone

  /** Which callback the check for a complete transfer is part of. */
  datatype Purpose = ForRead | ForWrite | ForStop

  /** Where the bus thread is. */
  datatype Hil =
    | Running                     // between callbacks
    | Checking(f: Purpose)        // at the beginning of xfer_complete_check
    | AwaitOld(f: Purpose)        // for the request of the last stop
    | Deciding(f: Purpose)
    | AwaitNew(f: Purpose)        // for a request made now
    | Proceeding(f: Purpose)      // xfer_complete_check has returned
    | AwaitStart                  // for tx_start

  /** bufLen is RTOS_I2C_SLAVE_BUF_LEN; hasDone says whether there is a tx_done callback. */
  datatype Config = Config(bufLen: nat, hasDone: bool)

  datatype State = State(
    hil: Hil,
    phase: Phase,                 // of the callbacks; Refused while one of them is on its way
    dataBuf: seq<Byte>,
    rxI: nat,
    txData: Option<seq<Byte>>,
    txLen: nat,
    txI: nat,
    txSent: nat,
    waiting: bool,                // waiting_for_complete_cb
    requests: seq<Code>,          // channel to the interrupt
    replies: nat,                 // channel back
    events: set<Code>,            // the event group
    flags: set<Code>,             // taken from it, not handled completely
    busy: Option<Code>,           // the application callback that is running
    // history
    offered: seq<Byte>,           // bytes of the current write, stored or not
    supplied: seq<Byte>,          // bytes of the current read
    unsent: bool,                 // a finished transfer has not been looked at
    writes: seq<seq<Byte>>,       // what is stored of all finished writes that are not empty
    delivered: seq<seq<Byte>>,    // what rx callbacks were given
    atStart: seq<Byte>,           // what the last one found when it began
    fetches: seq<nat>,            // lengths of all finished reads that are not empty
    reported: seq<nat>)           // what tx_done callbacks were told

  function Init(c: Config, buf: seq<Byte>): State {
    State(Running, Stopped, buf, 0, None, 0, 0, 0, false, [], 0, {}, {}, None,
          [], [], false, [], [], [], [], [])
  }

  datatype Step =
    | Call(call: Callback)
    | Check | TakeOld | Decide | TakeNew | Proceed | TakeStart
    | Interrupt | Get
    | Begin(code: Code)
    | EndRx
    | EndStart(buf: seq<Byte>, data: Option<seq<Byte>>, len: nat)
    | EndDone

  predicate IsHilStep(step: Step) {
    step.Call? || step.Check? || step.TakeOld? || step.Decide? || step.TakeNew? || step.Proceed? || step.TakeStart?
  }

  predicate Enabled(c: Config, s: State, step: Step) {
    match step
    case Call(call) => s.hil.Running? && !Next(s.phase, call, true).Bad?
    case Check => s.hil.Checking?
    case TakeOld => s.hil.AwaitOld? && 0 < s.replies
    case Decide => s.hil.Deciding?
    case TakeNew => s.hil.AwaitNew? && 0 < s.replies
    case Proceed => s.hil.Proceeding?
    case TakeStart => s.hil.AwaitStart? && 0 < s.replies
    case Interrupt => s.requests != []
    case Get => s.flags == {} && s.events != {}
    case Begin(code) =>
      s.busy == None && code in s.flags &&
      (code.TxStart? ==> Rx !in s.flags) && (code.TxDone? ==> Rx !in s.flags && TxStart !in s.flags)
    case EndRx => s.busy == Some(Rx)
    case EndStart(buf, data, len) =>
      s.busy == Some(TxStart) && |buf| == c.bufLen && (data.Some? ==> len <= |data.value|)
    case EndDone => s.busy == Some(TxDone)
  }

  /** What the buffer can hold of a write. */
  function Stored(c: Config, offered: seq<Byte>): seq<Byte> {
    offered[..Min(|offered|, c.bufLen)]
  }

  /** The transfer that a start or stop condition ends, for the histories. */
  function Finished(c: Config, s: State): State {
    if s.phase.Writing? && Stored(c, s.offered) != [] then
      s.(writes := s.writes + [Stored(c, s.offered)], unsent := true)
    else if s.phase.Reading? && s.supplied != [] then
      s.(fetches := s.fetches + [|s.supplied|], unsent := true)
    else s
  }

  /** The byte that a read request is answered with. */
  function Supply(s: State): Byte {
    if s.txData.Some? && s.txI < |s.txData.value| then s.txData.value[s.txI] else 0
  }

  /** The steps of the bus thread. */
  function HilStep(c: Config, s: State, step: Step): State
    requires Enabled(c, s, step)
  {
    match step
    case Call(AckRead) => Finished(c, s).(hil := Checking(ForRead), phase := Refused)
    case Call(AckWrite) => Finished(c, s).(hil := Checking(ForWrite), phase := Refused)
    case Call(StopBit) => Finished(c, s).(hil := Checking(ForStop), phase := Stopped)
    case Call(Sent(d)) =>
      if s.rxI < c.bufLen && s.rxI < |s.dataBuf| then
        s.(dataBuf := s.dataBuf[s.rxI := Low(d)], rxI := s.rxI + 1, offered := s.offered + [Low(d)])
      else s.(offered := s.offered + [Low(d)])
    case Call(Requires) =>
      if 0 < s.txLen && s.txData.Some? then
        s.(txI := if s.txI + 1 == s.txLen then 0 else s.txI + 1, txSent := s.txSent + 1,
           supplied := s.supplied + [Supply(s)])
      else s
    case Check => s.(hil := if s.waiting then AwaitOld(s.hil.f) else Deciding(s.hil.f))
    case TakeOld =>
      if 0 < s.replies then s.(replies := s.replies - 1, waiting := false, hil := Deciding(s.hil.f)) else s
    case Decide =>
      var d := s.(unsent := false);
      if 0 < s.txSent && !c.hasDone then ClearTx(d).(hil := Proceeding(s.hil.f), reported := s.fetches)
      else if 0 < s.txSent || 0 < s.rxI then
        var r := d.(requests := s.requests + [if 0 < s.txSent then TxDone else Rx]);
        if s.hil.f.ForStop? then r.(waiting := true, hil := Running) else r.(hil := AwaitNew(s.hil.f))
      else d.(hil := Proceeding(s.hil.f))
    case TakeNew =>
      if 0 < s.replies then s.(replies := s.replies - 1, hil := Proceeding(s.hil.f)) else s
    case Proceed =>
      (match s.hil.f
       case ForStop => s.(hil := Running)
       case ForWrite => s.(rxI := 0, hil := Running, phase := Writing, offered := [])
       case ForRead => s.(txData := Some(s.dataBuf), requests := s.requests + [TxStart], hil := AwaitStart))
    case TakeStart =>
      if 0 < s.replies then
        s.(replies := s.replies - 1, txI := 0, txSent := 0, supplied := [], hil := Running,
           phase := if 0 < s.txLen && s.txData.Some? then Reading else Refused)
      else s
    case _ => s
  }

  function ClearTx(s: State): State {
    s.(txData := None, txLen := 0, txI := 0, txSent := 0)
  }

  /** The steps of the interrupt and of the application's thread. */
  function AppStep(s: State, step: Step): State {
    match step
    case Interrupt =>
      if s.requests != [] then s.(events := s.events + {s.requests[0]}, requests := s.requests[1..]) else s
    case Get => s.(flags := s.events, events := {})
    case Begin(code) =>
      s.(busy := Some(code), atStart := if code.Rx? then Given(s) else s.atStart)
    case EndRx =>
      s.(delivered := s.delivered + [Given(s)], rxI := 0, flags := s.flags - {Rx}, busy := None,
         replies := s.replies + 1)
    case EndStart(buf, data, len) =>
      s.(dataBuf := buf, txData := data, txLen := len, flags := s.flags - {TxStart}, busy := None,
         replies := s.replies + 1)
    case EndDone =>
      ClearTx(s).(reported := s.reported + [s.txSent], flags := s.flags - {TxDone}, busy := None,
                  replies := s.replies + 1)
    case _ => s
  }

  /** What the rx callback is given: the buffer and a length. */
  function Given(s: State): seq<Byte> {
    if s.rxI <= |s.dataBuf| then s.dataBuf[..s.rxI] else []
  }

  function Do(c: Config, s: State, step: Step): State
    requires Enabled(c, s, step)
  {
    if IsHilStep(step) then HilStep(c, s, step) else AppStep(s, step)
  }

  /** The state after some steps, and whether each of them could be taken. */
  ghost predicate Runs(c: Config, s: State, steps: seq<Step>, d: State)
    decreases |steps|
  {
    if steps == [] then s == d
    else Enabled(c, s, steps[0]) && Runs(c, Do(c, s, steps[0]), steps[1..], d)
  }

  // ----- the invariant -----

  predicate Quiet(s: State) {
    s.requests == [] && s.replies == 0 && s.events == {} && s.flags == {}
  }

  /** A request is on its way to the application's thread, or being handled by it. */
  predicate InFlight(s: State, code: Code) {
    s.replies == 0 &&
    ((s.requests == [code] && s.events == {} && s.flags == {}) ||
     (s.requests == [] && s.events == {code} && s.flags == {}) ||
     (s.requests == [] && s.events == {} && s.flags == {code}))
  }

  predicate Answered(s: State) {
    s.requests == [] && s.replies == 1 && s.events == {} && s.flags == {}
  }

  /** The bus thread has made a request and not taken the answer. */
  predicate Expecting(s: State) {
    s.hil.AwaitOld? || s.hil.AwaitNew? || s.hil.AwaitStart? || (s.waiting && (s.hil.Running? || s.hil.Checking?))
  }

  /** At most one request at a time, made and answered in turns. */
  predicate TakesTurns(s: State) {
    && (if s.hil.AwaitStart? then InFlight(s, TxStart) || Answered(s)
        else if Expecting(s) then InFlight(s, Rx) || InFlight(s, TxDone) || Answered(s)
        else Quiet(s))
    && (s.busy.Some? ==> s.flags == {s.busy.value})
    && (s.waiting ==> s.hil.Running? || s.hil.Checking? || s.hil.AwaitOld?)
    && (s.hil.AwaitOld? ==> s.waiting)
    && (s.hil.Running? && s.waiting ==> s.phase.Stopped?)
    && (s.phase.Writing? || s.phase.Reading? ==> s.hil.Running?)
    && !s.phase.Bad?
    && (!s.hil.Running? && !s.hil.AwaitStart? && s.hil.f.ForStop? ==> s.phase.Stopped? && !s.hil.AwaitNew?)
  }

  predicate AllDelivered(s: State) {
    s.delivered == s.writes && s.reported == s.fetches
  }

  /** The buffer holds the one write that has not been delivered. */
  predicate HoldsWrite(s: State) {
    0 < s.rxI && s.txSent == 0 && s.writes == s.delivered + [Given(s)] && s.reported == s.fetches
  }

  /** The counter is that of the one read that has not been reported. */
  predicate HoldsRead(s: State) {
    0 < s.txSent && s.rxI == 0 && s.fetches == s.reported + [s.txSent] && s.delivered == s.writes
  }

  /** Byte j of a read comes from this place of the data, which starts again at its end. */
  function Place(j: nat, len: nat): nat
    requires 0 < len
  {
    j % len
  }

  /** What has been supplied is the data from its beginning on, over and over, and i is next. */
  ghost predicate InTurn(data: seq<Byte>, len: nat, supplied: seq<Byte>, i: nat)
    requires i < len <= |data|
  {
    && i == Place(|supplied|, len)
    && forall j | 0 <= j < |supplied| :: Place(j, len) < len && supplied[j] == data[Place(j, len)]
  }

  ghost predicate Keeps(c: Config, s: State) {
    && |s.dataBuf| == c.bufLen && s.rxI <= c.bufLen
    && (s.busy == Some(Rx) ==> s.atStart == Given(s))
    && (if s.unsent then
          (s.hil.Checking? || s.hil.Deciding?) && !s.waiting && (HoldsWrite(s) || HoldsRead(s))
        else if s.phase.Writing? then
          AllDelivered(s) && s.txSent == 0 && s.rxI == |Stored(c, s.offered)| && Given(s) == Stored(c, s.offered)
        else if s.phase.Reading? then
          AllDelivered(s) && s.rxI == 0 && s.txSent == |s.supplied| && s.txData.Some? &&
          s.txI < s.txLen <= |s.txData.value| && InTurn(s.txData.value, s.txLen, s.supplied, s.txI)
        else if InFlight(s, Rx) then HoldsWrite(s)
        else if InFlight(s, TxDone) then HoldsRead(s)
        else AllDelivered(s) && s.rxI == 0 && s.txSent == 0)
    && (s.hil.AwaitStart? && Answered(s) ==> s.txData.Some? ==> s.txLen <= |s.txData.value|)
  }

  ghost predicate Inv(c: Config, s: State) {
    TakesTurns(s) && Keeps(c, s)
  }

  lemma InitInv(c: Config, buf: seq<Byte>)
    requires |buf| == c.bufLen
    ensures Inv(c, Init(c, buf))
  {}

  lemma QuietHasNone(s: State)
    requires Quiet(s)
    ensures forall code: Code :: !InFlight(s, code)
  {}

  lemma SameInFlight(s: State, d: State)
    requires d.requests == s.requests && d.replies == s.replies && d.events == s.events && d.flags == s.flags
    ensures forall code: Code :: InFlight(d, code) == InFlight(s, code)
  {}

  /** A start or stop condition ends the transfer. */
  lemma EndKeeps(c: Config, s: State, step: Step)
    requires Enabled(c, s, step) && Inv(c, s)
    requires step.Call? && (step.call.AckRead? || step.call.AckWrite? || step.call.StopBit?)
    ensures Inv(c, Do(c, s, step))
  {
    hide AppStep, InFlight;
    if !s.waiting {
      QuietHasNone(s);
    }
    SameInFlight(s, Do(c, s, step));
  }

  lemma SentKeeps(c: Config, s: State, step: Step)
    requires Enabled(c, s, step) && Inv(c, s) && step.Call? && step.call.Sent?
    ensures Inv(c, Do(c, s, step))
  {
    hide AppStep;
    var d := Do(c, s, step);
    assert s.phase.Writing? && !s.waiting;
    assert TakesTurns(d) && AllDelivered(d);
    var b := Low(step.call.data);
    assert Given(d) == Stored(c, d.offered) by {
      hide InFlight, TakesTurns;
      if s.rxI < c.bufLen {
        assert Stored(c, s.offered) == s.offered && Stored(c, d.offered) == s.offered + [b];
        assert Given(d) == Given(s) + [b];
      } else {
        assert Stored(c, d.offered) == Stored(c, s.offered);
      }
    }
  }

  lemma RequiresKeeps(c: Config, s: State, step: Step)
    requires Enabled(c, s, step) && Inv(c, s) && step.Call? && step.call.Requires?
    ensures Inv(c, Do(c, s, step))
  {
    hide AppStep, InTurn, InFlight;
    assert s.phase.Reading?;
    OneMoreInTurn(s.txData.value, s.txLen, s.supplied, s.txI);
    SameInFlight(s, Do(c, s, step));
  }

  lemma OneMoreInTurn(data: seq<Byte>, len: nat, supplied: seq<Byte>, i: nat)
    requires i < len <= |data| && InTurn(data, len, supplied, i)
    ensures InTurn(data, len, supplied + [data[i]], if i + 1 == len then 0 else i + 1)
  {
    NextPlace(|supplied|, len);
    hide Place;
  }

  lemma NextPlace(k: nat, len: nat)
    requires 0 < len
    ensures Place(k, len) < len
    ensures Place(k + 1, len) == if Place(k, len) + 1 == len then 0 else Place(k, len) + 1
  {
    Arith.DivMod(k, len);
    if k % len + 1 == len {
      Arith.DivModUnique(k + 1, len, k / len + 1, 0);
    } else {
      Arith.DivModUnique(k + 1, len, k / len, k % len + 1);
    }
  }

  lemma ProceedKeeps(c: Config, s: State, step: Step)
    requires Enabled(c, s, step) && Inv(c, s) && step.Proceed?
    ensures Inv(c, Do(c, s, step))
  {
    hide AppStep;
    var d := Do(c, s, step);
    QuietHasNone(s);
    if s.hil.f.ForRead? {
      assert d.requests == [TxStart] && InFlight(d, TxStart);
    } else {
      SameInFlight(s, d);
      if s.hil.f.ForWrite? {
        assert Given(d) == [] && Stored(c, d.offered) == [];
      }
    }
  }

  lemma HilKeeps(c: Config, s: State, step: Step)
    requires Enabled(c, s, step) && Inv(c, s) && IsHilStep(step) && !step.Call? && !step.Proceed?
    ensures Inv(c, Do(c, s, step))
  {
    hide AppStep;
    var d := Do(c, s, step);
    if step.Decide? && d.requests != [] {
      var code := if 0 < s.txSent then TxDone else Rx;
      assert d.requests == [code] && InFlight(d, code);
    }
  }

  lemma AppKeeps(c: Config, s: State, step: Step)
    requires Enabled(c, s, step) && Inv(c, s) && !IsHilStep(step)
    ensures Inv(c, Do(c, s, step))
  {
    hide HilStep;
  }

  lemma StepKeeps(c: Config, s: State, step: Step)
    requires Enabled(c, s, step) && Inv(c, s)
    ensures Inv(c, Do(c, s, step))
  {
    hide Inv, Enabled, Do;
    match step {
      case Call(AckRead) => EndKeeps(c, s, step);
      case Call(AckWrite) => EndKeeps(c, s, step);
      case Call(StopBit) => EndKeeps(c, s, step);
      case Call(Sent(_)) => SentKeeps(c, s, step);
      case Call(Requires) => RequiresKeeps(c, s, step);
      case Proceed => ProceedKeeps(c, s, step);
      case Interrupt => AppKeeps(c, s, step);
      case Get => AppKeeps(c, s, step);
      case Begin(_) => AppKeeps(c, s, step);
      case EndRx => AppKeeps(c, s, step);
      case EndStart(_, _, _) => AppKeeps(c, s, step);
      case EndDone => AppKeeps(c, s, step);
      case _ => HilKeeps(c, s, step);
    }
  }

  lemma {:induction false} RunsKeepInv(c: Config, s: State, steps: seq<Step>, d: State)
    requires Inv(c, s) && Runs(c, s, steps, d)
    ensures Inv(c, d)
    decreases |steps|
  {
    hide Inv, Enabled, Do;
    if steps != [] {
      StepKeeps(c, s, steps[0]);
      RunsKeepInv(c, Do(c, s, steps[0]), steps[1..], d);
    }
  }

  /** In every interleaving, for every series of callbacks that the bus thread can make: the rx
      callbacks were given, in order, exactly what is stored of the finished writes, except for
      the last one as long as it is under way; likewise the lengths of the finished reads and
      tx_done. At most one request is outstanding. What an rx callback found in the buffer when
      it began is still there. */
  lemma WritesDeliveredOnce(c: Config, buf: seq<Byte>, steps: seq<Step>, d: State)
    requires |buf| == c.bufLen && Runs(c, Init(c, buf), steps, d)
    ensures d.delivered == d.writes || (d.writes == d.delivered + [Given(d)] && (d.unsent || InFlight(d, Rx)))
    ensures d.reported == d.fetches || (d.fetches == d.reported + [d.txSent] && (d.unsent || InFlight(d, TxDone)))
    ensures Quiet(d) || Answered(d) || exists code: Code :: InFlight(d, code)
    ensures d.busy == Some(Rx) ==> Given(d) == d.atStart
  {
    hide Enabled, Do;
    InitInv(c, buf);
    RunsKeepInv(c, Init(c, buf), steps, d);
  }

  /** While a callback of the application runs, the bus thread writes neither the buffer nor the
      state of the transfers, whatever the bus does. */
  lemma NoInterference(c: Config, s: State, step: Step)
    requires Inv(c, s) && s.busy.Some? && IsHilStep(step) && Enabled(c, s, step)
    ensures var d := Do(c, s, step);
      d.dataBuf == s.dataBuf && d.rxI == s.rxI && d.txData == s.txData && d.txLen == s.txLen &&
      d.txI == s.txI && d.txSent == s.txSent && d.requests == s.requests && d.busy == s.busy
  {
    hide Keeps;
    assert !Quiet(s) && !Answered(s);
  }

  /** What a tx_start callback gave: the data, if any, and the length it returned. */
  datatype Offer = Offer(data: Option<seq<Byte>>, len: nat)
  {
    /** The driver takes the offer up only if there is something to send. */
    predicate Accepted() {
      0 < len && data.Some?
    }
  }

  /** What the tx_start callbacks of a run gave. */
  function Offers(steps: seq<Step>): seq<Offer> {
    if steps == [] then []
    else (if steps[0].EndStart? then [Offer(steps[0].data, steps[0].len)] else []) + Offers(steps[1..])
  }

  /** The driver sends from the last offer, as soon as it has been made and until the read ends. */
  predicate SendsFrom(s: State, offers: seq<Offer>) {
    s.phase.Reading? || (s.hil.AwaitStart? && Answered(s)) ==>
      offers != [] && offers[|offers| - 1] == Offer(s.txData, s.txLen)
  }

  lemma StepSends(c: Config, s: State, step: Step, offers: seq<Offer>)
    requires Enabled(c, s, step) && Inv(c, s) && SendsFrom(s, offers)
    ensures SendsFrom(Do(c, s, step), offers + Offers([step]))
  {
    assert [step][1..] == [];
    hide Keeps, Stored, Given;
    if IsHilStep(step) {
      HilSends(c, s, step, offers);
    } else {
      AppSends(c, s, step, offers);
    }
  }

  lemma HilSends(c: Config, s: State, step: Step, offers: seq<Offer>)
    requires Enabled(c, s, step) && TakesTurns(s) && SendsFrom(s, offers) && IsHilStep(step)
    ensures SendsFrom(Do(c, s, step), offers)
  {
    hide AppStep, Stored, Supply;
  }

  lemma AppSends(c: Config, s: State, step: Step, offers: seq<Offer>)
    requires Enabled(c, s, step) && TakesTurns(s) && SendsFrom(s, offers) && !IsHilStep(step)
    ensures SendsFrom(Do(c, s, step), offers + if step.EndStart? then [Offer(step.data, step.len)] else [])
  {
    hide HilStep, Given;
  }

  lemma {:induction false} RunSends(c: Config, s: State, steps: seq<Step>, d: State, offers: seq<Offer>)
    requires Runs(c, s, steps, d) && Inv(c, s) && SendsFrom(s, offers)
    ensures SendsFrom(d, offers + Offers(steps))
    decreases |steps|
  {
    hide Enabled, Do, Inv, SendsFrom;
    if steps == [] {
      assert offers + [] == offers;
    } else {
      StepKeeps(c, s, steps[0]);
      StepSends(c, s, steps[0], offers);
      assert [steps[0]][1..] == [];
      RunSends(c, Do(c, s, steps[0]), steps[1..], d, offers + Offers([steps[0]]));
      assert offers + Offers([steps[0]]) + Offers(steps[1..]) == offers + Offers(steps);
    }
  }

  /** In every interleaving, byte j of a read is byte j of what the last tx_start callback gave,
      counted around its end. */
  lemma SuppliedInTurn(c: Config, buf: seq<Byte>, steps: seq<Step>, d: State)
    requires |buf| == c.bufLen && Runs(c, Init(c, buf), steps, d) && d.phase.Reading?
    ensures Offers(steps) != []
    ensures var o := Offers(steps)[|Offers(steps)| - 1];
      && o.Accepted() && o.len <= |o.data.value| && o == Offer(d.txData, d.txLen)
      && forall j | 0 <= j < |d.supplied| :: d.supplied[j] == o.data.value[Place(j, o.len)]
  {
    hide Enabled, Do, Place, Offers;
    InitInv(c, buf);
    RunsKeepInv(c, Init(c, buf), steps, d);
    RunSends(c, Init(c, buf), steps, d, []);
    assert [] + Offers(steps) == Offers(steps);
  }

  // ----- progress -----

  /** How many steps of the interrupt and of the application's thread a request is from its answer. */
  function Distance(s: State): nat {
    if s.requests != [] then 4
    else if s.events != {} then 3
    else if s.flags != {} then if s.busy == None then 2 else 1
    else 0
  }

  /** With a request pending the bus thread can only begin another callback, or go to wait. */
  lemma OnlyTheseWait(c: Config, s: State, code: Code, step: Step)
    requires TakesTurns(s) && InFlight(s, code) && Enabled(c, s, step) && IsHilStep(step)
    ensures step.Check? || (step.Call? && (step.call.AckRead? || step.call.AckWrite?))
  {
    assert !Quiet(s) && !Answered(s) && s.replies == 0;
  }

  lemma BusLeavesRequest(c: Config, s: State, code: Code, step: Step)
    requires TakesTurns(s) && InFlight(s, code) && Enabled(c, s, step) && IsHilStep(step)
    ensures Distance(Do(c, s, step)) == Distance(s) && InFlight(Do(c, s, step), code)
  {
    hide AppStep, TakesTurns, InFlight, Stored;
    OnlyTheseWait(c, s, code, step);
    SameInFlight(s, Do(c, s, step));
  }

  lemma AppMovesRequest(c: Config, s: State, code: Code, step: Step)
    requires TakesTurns(s) && InFlight(s, code) && Enabled(c, s, step) && !IsHilStep(step)
    ensures var d := Do(c, s, step); Distance(d) == Distance(s) - 1 && (InFlight(d, code) || Answered(d))
  {
    hide HilStep;
  }

  /** Every step of the interrupt and of the application's thread brings a request closer to its
      answer, and no step of the bus thread puts it back. */
  lemma RequestMovesOn(c: Config, s: State, code: Code, step: Step)
    requires Inv(c, s) && InFlight(s, code) && Enabled(c, s, step)
    ensures Distance(Do(c, s, step)) == if IsHilStep(step) then Distance(s) else Distance(s) - 1
    ensures InFlight(Do(c, s, step), code) || Answered(Do(c, s, step))
  {
    hide Keeps, TakesTurns, InFlight, Enabled, Do, Distance;
    if IsHilStep(step) {
      BusLeavesRequest(c, s, code, step);
    } else {
      AppMovesRequest(c, s, code, step);
    }
  }

  /** A request that has not been answered can be moved on by the interrupt or the application's
      thread. */
  lemma RequestCanMove(c: Config, s: State, code: Code)
    requires TakesTurns(s) && InFlight(s, code)
    ensures exists step: Step :: Enabled(c, s, step) && !IsHilStep(step)
  {
    if s.requests != [] {
      assert Enabled(c, s, Interrupt);
    } else if s.events != {} {
      assert Enabled(c, s, Get);
    } else {
      assert s.flags == {code};
      if s.busy == None {
        assert Enabled(c, s, Begin(code));
      } else if code.Rx? {
        assert Enabled(c, s, EndRx);
      } else if code.TxStart? {
        assert Enabled(c, s, EndStart(seq(c.bufLen, _ => 0), None, 0));
      } else {
        assert Enabled(c, s, EndDone);
      }
    }
  }

  /** Nobody is ever left waiting. Unless the bus thread is between callbacks and no request is
      unanswered, some step is possible that does not depend on the bus. */
  lemma NobodyStuck(c: Config, s: State)
    requires Inv(c, s)
    ensures (s.hil.Running? && (Quiet(s) || Answered(s))) || exists step: Step :: Enabled(c, s, step) && !step.Call?
    ensures s.hil.Running? ==> exists step: Step :: Enabled(c, s, step) && step.Call?
  {
    hide Keeps, InFlight, Quiet;
    if s.hil.Running? {
      assert Enabled(c, s, Call(AckWrite));
    }
    if code: Code :| InFlight(s, code) {
      RequestCanMove(c, s, code);
    } else {
      var step := match s.hil
        case Checking(_) => Check
        case AwaitOld(_) => TakeOld
        case Deciding(_) => Decide
        case AwaitNew(_) => TakeNew
        case Proceeding(_) => Proceed
        case AwaitStart => TakeStart
        case Running => Interrupt;
      assert s.hil.Running? || Enabled(c, s, step);
    }
  }
}
