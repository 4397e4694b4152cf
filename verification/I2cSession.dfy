/** What a master sees of the I2C slave driver, and what the application is told of its reads: both
    follow from the transfers and from what the tx_start callbacks give, and from nothing else. */
module I2cSession {
  import opened Basics
  import opened Bytes
  import opened I2cSlave
  import opened I2cHandshake
  import opened I2cDriver

  // ----- the answers, from the callbacks and the offers -----

  /** How many reads of this slave have begun. */
  function ReadsIn(calls: seq<Callback>): nat {
    if calls == [] then 0
    else ReadsIn(calls[..|calls| - 1]) + if calls[|calls| - 1].AckRead? then 1 else 0
  }

  /** How many bytes have been transferred since the last address or stop. */
  function SinceStart(calls: seq<Callback>): nat {
    if calls == [] then 0
    else
      var n := |calls| - 1;
      if calls[n].Sent? || calls[n].Requires? then SinceStart(calls[..n]) + 1 else 0
  }

  lemma CountsGrow(calls: seq<Callback>, call: Callback)
    ensures ReadsIn(calls + [call]) == ReadsIn(calls) + if call.AckRead? then 1 else 0
    ensures SinceStart(calls + [call]) == if call.Sent? || call.Requires? then SinceStart(calls) + 1 else 0
  {
    assert (calls + [call])[..|calls|] == calls;
  }

  /** Read number r of this slave is acknowledged if its tx_start callback gives something. */
  predicate IsOffered(offers: seq<Offer>, r: nat) {
    r < |offers| && offers[r].Accepted()
  }

  /** Byte j of read number r: that of what tx_start gave, counted around its end. */
  function OfferedByte(offers: seq<Offer>, r: nat, j: nat): Byte {
    if IsOffered(offers, r) && Place(j, offers[r].len) < |offers[r].data.value|
    then offers[r].data.value[Place(j, offers[r].len)] else 0
  }

  /** How a callback has to be answered after the ones before. Writes are acknowledged until the buffer
      is full. */
  function Expected(c: Config, offers: seq<Offer>, before: seq<Callback>, call: Callback): nat {
    match call
    case AckRead => if IsOffered(offers, ReadsIn(before)) then 0 else 1
    case Sent(_) => if SinceStart(before) + 1 < c.bufLen then 0 else 1
    case Requires => if ReadsIn(before) == 0 then 0 else OfferedByte(offers, ReadsIn(before) - 1, SinceStart(before))
    case _ => 0
  }

  /** The first n callbacks are answered so. */
  predicate AnsweredSo(c: Config, app: App, offers: seq<Offer>, calls: seq<Callback>, n: nat) {
    forall k: nat | k < n && k < |calls| :: app(k) == Expected(c, offers, calls[..k], calls[k])
  }

  // ----- the driver answers so -----

  predicate Reads(s: State) {
    UnderWay(s) && AddressCallback(s).AckRead?
  }

  /** Each read has one offer, made before it is acknowledged. */
  predicate Tracks(s: State, calls: seq<Callback>, offers: seq<Offer>) {
    && |offers| + (if Reads(s) && !(s.hil.AwaitStart? && Answered(s)) then 1 else 0) == ReadsIn(calls)
    && SendsFrom(s, offers)
    && (s.phase.Reading? ==> |s.supplied| == SinceStart(calls))
    && (s.phase.Writing? ==> |s.offered| == SinceStart(calls))
  }

  lemma CallTracks(c: Config, app: App, s: State, call: Callback, calls: seq<Callback>, offers: seq<Offer>)
    requires Enabled(c, s, Call(call)) && Inv(c, s) && Tracks(s, calls, offers)
    requires Follows(c, app, s, calls, |calls|) && SendsFrom(Do(c, s, Call(call)), offers)
    ensures Tracks(Do(c, s, Call(call)), calls + [call], offers)
  {
    hide AppStep, SendsFrom, InFlight, Stored, Supply, ReadsIn, SinceStart, Low, Hears, PhaseAfter;
    CountsGrow(calls, call);
  }

  lemma NothingSince(c: Config, app: App, s: State, calls: seq<Callback>, n: nat)
    requires Follows(c, app, s, calls, n) && UnderWay(s)
    ensures SinceStart(calls) == 0
    ensures ReadsIn(calls) == ReadsIn(calls[..n]) + if Reads(s) then 1 else 0
  {
    hide Hears, PhaseAfter;
    assert calls == calls[..n] + [calls[n]];
    CountsGrow(calls[..n], calls[n]);
  }

  lemma HilTracks(c: Config, app: App, s: State, step: Step, calls: seq<Callback>, n: nat, offers: seq<Offer>)
    requires Enabled(c, s, step) && Inv(c, s) && Tracks(s, calls, offers) && IsHilStep(step) && !step.Call?
    requires Follows(c, app, s, calls, n) && SendsFrom(Do(c, s, step), offers)
    ensures Tracks(Do(c, s, step), calls, offers)
  {
    if UnderWay(s) {
      NothingSince(c, app, s, calls, n);
    }
    hide AppStep, SendsFrom, Stored, Supply, ReadsIn, SinceStart, Hears, PhaseAfter, Keeps;
  }

  lemma AppTracks(c: Config, s: State, step: Step, calls: seq<Callback>, offers: seq<Offer>)
    requires Enabled(c, s, step) && Inv(c, s) && Tracks(s, calls, offers) && !IsHilStep(step)
    requires SendsFrom(Do(c, s, step), offers + Offers([step]))
    ensures Tracks(Do(c, s, step), calls, offers + Offers([step]))
  {
    assert [step][1..] == [];
    hide HilStep, SendsFrom, Given, ReadsIn, SinceStart, Keeps;
  }

  /** A byte that is stored or supplied is answered as expected. */
  lemma ByteAnswer(c: Config, app: App, s: State, call: Callback, calls: seq<Callback>,
                   offers: seq<Offer>, all: seq<Offer>)
    requires Enabled(c, s, Call(call)) && Inv(c, s) && Tracks(s, calls, offers) && offers <= all
    requires Follows(c, app, s, calls, |calls|) && !call.AckRead? && !call.AckWrite?
    ensures Answer(c, s, Call(call)) == [Expected(c, all, calls, call)]
  {
    hide InFlight, ReadsIn, SinceStart, Hears, PhaseAfter, Place;
  }

  /** And so is an address, when its callback returns. */
  lemma AddressAnswer(c: Config, app: App, s: State, step: Step, calls: seq<Callback>, n: nat,
                      offers: seq<Offer>, all: seq<Offer>)
    requires Enabled(c, s, step) && Inv(c, s) && Tracks(s, calls, offers) && offers <= all
    requires Follows(c, app, s, calls, n) && !step.Call? && Answer(c, s, step) != []
    ensures n < |calls| && Answer(c, s, step) == [Expected(c, all, calls[..n], calls[n])]
  {
    NothingSince(c, app, s, calls, n);
    hide ReadsIn, SinceStart, Hears, PhaseAfter, Keeps, OfferedByte;
  }

  lemma AnsweredMore(c: Config, app: App, all: seq<Offer>, calls: seq<Callback>, n: nat, more: seq<Callback>, m: nat)
    requires AnsweredSo(c, app, all, calls, n) && n <= |calls| && n <= m <= n + 1
    requires m == n + 1 ==> n < |calls + more| && app(n) == Expected(c, all, (calls + more)[..n], (calls + more)[n])
    ensures AnsweredSo(c, app, all, calls + more, m)
  {
    hide Expected;
    forall k: nat | k < n ensures (calls + more)[..k] == calls[..k] {}
  }

  /** All that holds between the steps of a run. */
  ghost predicate Session(c: Config, app: App, all: seq<Offer>, s: State, calls: seq<Callback>, n: nat,
                          offers: seq<Offer>) {
    && Inv(c, s) && Follows(c, app, s, calls, n) && n <= |calls|
    && Tracks(s, calls, offers) && AnsweredSo(c, app, all, calls, n)
    && s.fetches == ReadsHeard(app, calls)
  }

  /** The lengths of the reads that have ended and were not empty. */
  function ReadsHeard(app: App, calls: seq<Callback>): seq<nat>
    decreases |calls|, 0
  {
    if calls == [] then []
    else
      var n := |calls| - 1;
      if calls[n].Sent? || calls[n].Requires? then ReadsHeard(app, calls[..n])
      else ReadsBy(app, calls[..n])
  }

  /** The same, counting one that has not ended. */
  function ReadsBy(app: App, calls: seq<Callback>): seq<nat>
    decreases |calls|, 1
  {
    ReadsHeard(app, calls) +
      if PhaseAfter(app, calls).Reading? && 0 < SinceStart(calls) then [SinceStart(calls)] else []
  }

  lemma ReadsHeardMore(app: App, calls: seq<Callback>, call: Callback)
    ensures ReadsHeard(app, calls + [call]) ==
      if call.Sent? || call.Requires? then ReadsHeard(app, calls) else ReadsBy(app, calls)
  {
    assert (calls + [call])[..|calls|] == calls;
  }

  lemma FetchesAfter(c: Config, app: App, s: State, step: Step, calls: seq<Callback>, n: nat, offers: seq<Offer>)
    requires Enabled(c, s, step) && Follows(c, app, s, calls, n) && Tracks(s, calls, offers)
    requires s.fetches == ReadsHeard(app, calls)
    ensures Do(c, s, step).fetches == ReadsHeard(app, calls + CallOf(step))
  {
    hide ReadsHeard, PhaseAfter, Hears, SinceStart, ReadsIn, SendsFrom, Stored, Given, AcksWrites;
    if step.Call? {
      ReadsHeardMore(app, calls, step.call);
    } else {
      assert calls + [] == calls;
    }
  }

  lemma SessionCall(c: Config, app: App, all: seq<Offer>, s: State, call: Callback, calls: seq<Callback>, n: nat,
                    offers: seq<Offer>)
    requires Session(c, app, all, s, calls, n, offers) && Enabled(c, s, Call(call)) && offers <= all
    requires Agrees(app, n, Answer(c, s, Call(call)))
    ensures Session(c, app, all, Do(c, s, Call(call)), calls + [call], n + |Answer(c, s, Call(call))|, offers)
  {
    hide Inv, Tracks, Do, Answer, AnsweredSo, ReadsHeard, Expected, SendsFrom, Hears, PhaseAfter, AcksWrites;
    var step := Call(call);
    assert !UnderWay(s) && n == |calls|;
    hide Follows, Enabled;
    StepKeeps(c, s, step);
    SendsOn(c, s, step, calls, offers);
    CallFollows(c, app, s, call, calls, n);
    CallTracks(c, app, s, call, calls, offers);
    FetchesAfter(c, app, s, step, calls, n, offers);
    NoAnswerYet(c, s, call);
    if !call.AckRead? && !call.AckWrite? {
      ByteAnswer(c, app, s, call, calls, offers, all);
      assert app(n + 0) == Answer(c, s, step)[0];
      assert (calls + [call])[..n] == calls;
    }
    AnsweredMore(c, app, all, calls, n, [call], n + |Answer(c, s, step)|);
  }

  lemma NoAnswerYet(c: Config, s: State, call: Callback)
    ensures call.AckRead? || call.AckWrite? ==> Answer(c, s, Call(call)) == []
  {}

  lemma SendsOn(c: Config, s: State, step: Step, calls: seq<Callback>, offers: seq<Offer>)
    requires Enabled(c, s, step) && Inv(c, s) && Tracks(s, calls, offers)
    ensures SendsFrom(Do(c, s, step), offers + Offers([step]))
    ensures !step.EndStart? ==> offers + Offers([step]) == offers
  {
    hide Inv, Do, SendsFrom;
    StepSends(c, s, step, offers);
    assert [step][1..] == [];
  }

  lemma SessionOther(c: Config, app: App, all: seq<Offer>, s: State, step: Step, calls: seq<Callback>, n: nat,
                     offers: seq<Offer>)
    requires Session(c, app, all, s, calls, n, offers) && Enabled(c, s, step) && !step.Call?
    requires offers + Offers([step]) <= all && Agrees(app, n, Answer(c, s, step))
    ensures Session(c, app, all, Do(c, s, step), calls, n + |Answer(c, s, step)|, offers + Offers([step]))
  {
    hide Inv, Tracks, Do, Answer, AnsweredSo, ReadsHeard, Expected, SendsFrom, Follows, Enabled, Offers;
    StepKeeps(c, s, step);
    SendsOn(c, s, step, calls, offers);
    FetchesAfter(c, app, s, step, calls, n, offers);
    assert calls + [] == calls;
    if IsHilStep(step) {
      HilFollows(c, app, s, step, calls, n);
      HilTracks(c, app, s, step, calls, n, offers);
    } else {
      AppFollows(c, app, s, step, calls, n);
      AppTracks(c, s, step, calls, offers);
    }
    if Answer(c, s, step) != [] {
      AddressAnswer(c, app, s, step, calls, n, offers, all);
      assert app(n + 0) == Answer(c, s, step)[0];
    }
    AnsweredMore(c, app, all, calls, n, [], n + |Answer(c, s, step)|);
  }

  lemma SessionStep(c: Config, app: App, all: seq<Offer>, s: State, step: Step, calls: seq<Callback>, n: nat,
                    offers: seq<Offer>)
    requires Session(c, app, all, s, calls, n, offers) && Enabled(c, s, step)
    requires offers + Offers([step]) <= all && Agrees(app, n, Answer(c, s, step))
    ensures Session(c, app, all, Do(c, s, step), calls + CallOf(step), n + |Answer(c, s, step)|,
                    offers + Offers([step]))
  {
    hide Session, Enabled, Do, Answer, Agrees;
    if step.Call? {
      assert [step][1..] == [] && offers + Offers([step]) == offers;
      SessionCall(c, app, all, s, step.call, calls, n, offers);
    } else {
      SessionOther(c, app, all, s, step, calls, n, offers);
      assert calls + [] == calls;
    }
  }

  lemma InParts(steps: seq<Step>)
    requires steps != []
    ensures Offers(steps) == Offers([steps[0]]) + Offers(steps[1..])
    ensures CallsMade(steps) == CallOf(steps[0]) + CallsMade(steps[1..])
  {
    assert [steps[0]][1..] == [];
  }

  lemma {:induction false} RunIsSession(c: Config, app: App, all: seq<Offer>, s: State, steps: seq<Step>, d: State,
                                        calls: seq<Callback>, n: nat, offers: seq<Offer>) returns (m: nat)
    requires Runs(c, s, steps, d) && Session(c, app, all, s, calls, n, offers)
    requires Agrees(app, n, I2cDriver.Answers(c, s, steps, d)) && offers + Offers(steps) == all
    ensures Session(c, app, all, d, calls + CallsMade(steps), m, all)
    decreases |steps|
  {
    hide Session, Enabled, Do, Answer, Agrees;
    if steps == [] {
      assert calls + [] == calls && offers + [] == offers;
      m := n;
    } else {
      hide CallsMade, Offers, CallOf;
      var step, rest := steps[0], steps[1..];
      var x, now := Do(c, s, step), Answer(c, s, step);
      InParts(steps);
      AgreesInParts(app, n, now, I2cDriver.Answers(c, x, rest, d));
      assert offers + Offers([step]) + Offers(rest) == all;
      SessionStep(c, app, all, s, step, calls, n, offers);
      m := RunIsSession(c, app, all, x, rest, d, calls + CallOf(step), n + |now|, offers + Offers([step]));
      assert calls + CallOf(step) + CallsMade(rest) == calls + CallsMade(steps);
    }
  }

  lemma RunIsSessionFromStart(c: Config, app: App, buf: seq<Byte>, steps: seq<Step>, d: State) returns (m: nat)
    requires |buf| == c.bufLen && Runs(c, Init(c, buf), steps, d)
    requires Agrees(app, 0, I2cDriver.Answers(c, Init(c, buf), steps, d))
    ensures Session(c, app, Offers(steps), d, CallsMade(steps), m, Offers(steps))
  {
    InitInv(c, buf);
    hide Runs, I2cDriver.Answers, Agrees, Inv;
    assert Session(c, app, Offers(steps), Init(c, buf), [], 0, []);
    hide Session;
    assert [] + Offers(steps) == Offers(steps) && [] + CallsMade(steps) == CallsMade(steps);
    m := RunIsSession(c, app, Offers(steps), Init(c, buf), steps, d, [], 0, []);
  }

  // ----- the data line -----

  /** What is on the data line while a write is answered: each byte, and whether there is room for
      another one after it. */
  function WriteLine(c: Config, bytes: seq<Byte>): seq<Bit> {
    if bytes == [] then []
    else
      var n := |bytes| - 1;
      WriteLine(c, bytes[..n]) + (MsbBits(bytes[n], 8) + [if n + 1 < c.bufLen then 0 else 1])
  }

  /** And while n bytes of a read are acknowledged: those of the offer. */
  function ReadLine(offers: seq<Offer>, r: nat, n: nat): seq<Bit>
    decreases n
  {
    if n == 0 then [] else ReadLine(offers, r, n - 1) + (MsbBits(OfferedByte(offers, r, n - 1), 8) + [0])
  }

  function BodyLine(c: Config, dev: nat, offers: seq<Offer>, r: nat, t: Transfer): seq<Bit> {
    if t.addr != dev then [t.slot] + t.others
    else if t.Write? then [0] + WriteLine(c, t.bytes)
    else if !IsOffered(offers, r) then [1] + t.others
    else if t.count == 0 then [0]
    else [0] + (ReadLine(offers, r, t.count - 1) + (MsbBits(OfferedByte(offers, r, t.count - 1), 8) + [1]))
  }

  /** The reads of this slave among some transfers. */
  function ReadsTo(dev: nat, ts: seq<Transfer>): nat {
    if ts == [] then 0
    else
      var t := ts[|ts| - 1];
      ReadsTo(dev, ts[..|ts| - 1]) + if t.addr == dev && t.Read? then 1 else 0
  }

  /** The data line during a series of transfers, from the transfers and the offers alone. */
  function Line(c: Config, dev: nat, offers: seq<Offer>, ts: seq<Transfer>): seq<Bit> {
    if ts == [] then []
    else
      var n := |ts| - 1;
      var t := ts[n];
      Line(c, dev, offers, ts[..n]) + (if n == 0 then [] else [1]) +
        (MsbBits(t.addr, 7) + [t.Rw()] + BodyLine(c, dev, offers, ReadsTo(dev, ts[..n]), t))
  }

  /** The lengths of the reads that are acknowledged. */
  function BusReads(dev: nat, offers: seq<Offer>, ts: seq<Transfer>): seq<nat> {
    if ts == [] then []
    else
      var n := |ts| - 1;
      var t := ts[n];
      BusReads(dev, offers, ts[..n]) +
        if t.addr == dev && t.Read? && IsOffered(offers, ReadsTo(dev, ts[..n])) && 0 < t.count then [t.count] else []
  }

  predicate Begins(part: seq<Callback>, all: seq<Callback>) {
    part <= all
  }

  lemma BeginsWith(head: seq<Callback>, more: seq<Callback>, rest: seq<Callback>, all: seq<Callback>)
    requires Begins(head + (more + rest), all)
    ensures Begins(head + more, all) && head + (more + rest) == (head + more) + rest
  {
    assert head + (more + rest) == (head + more) + rest;
  }

  lemma BeginsEarlier(head: seq<Callback>, more: seq<Callback>, all: seq<Callback>)
    requires Begins(head + more, all)
    ensures Begins(head, all)
  {
    assert head <= head + more;
  }

  lemma AnswerAt(c: Config, app: App, offers: seq<Offer>, all: seq<Callback>, head: seq<Callback>, call: Callback)
    requires AnsweredSo(c, app, offers, all, |all|) && Begins(head + [call], all)
    ensures app(|head|) == Expected(c, offers, head, call)
  {
    hide Expected;
    assert all[..|head|] == head && all[|head|] == call;
  }

  lemma {:induction false} WriteIsSeen(c: Config, app: App, offers: seq<Offer>, all: seq<Callback>,
                                       head: seq<Callback>, bytes: seq<Byte>)
    requires AnsweredSo(c, app, offers, all, |all|) && Begins(head + WriteCalls(bytes), all) && SinceStart(head) == 0
    ensures WriteSeen(app, |head|, bytes) == WriteLine(c, bytes)
    ensures SinceStart(head + WriteCalls(bytes)) == |bytes| && ReadsIn(head + WriteCalls(bytes)) == ReadsIn(head)
    decreases |bytes|
  {
    hide AnsweredSo, SinceStart, ReadsIn, MsbBits, Begins;
    if bytes == [] {
      assert head + WriteCalls(bytes) == head;
    } else {
      var n := |bytes| - 1;
      var init, call := head + WriteCalls(bytes[..n]), Sent(bytes[n]);
      BeginsWith(head, WriteCalls(bytes[..n]), [call], all);
      WriteIsSeen(c, app, offers, all, head, bytes[..n]);
      AnswerAt(c, app, offers, all, init, call);
      CountsGrow(init, call);
    }
  }

  lemma {:induction false} ReadIsSeen(c: Config, app: App, offers: seq<Offer>, all: seq<Callback>,
                                      head: seq<Callback>, n: nat)
    requires AnsweredSo(c, app, offers, all, |all|) && Begins(head + ReadCalls(n), all)
    requires SinceStart(head) == 0 && 0 < ReadsIn(head)
    ensures ReadSeen(app, |head|, n) == ReadLine(offers, ReadsIn(head) - 1, n)
    ensures 0 < n ==> Supplied(app, |head| + n - 1) == OfferedByte(offers, ReadsIn(head) - 1, n - 1)
    ensures SinceStart(head + ReadCalls(n)) == n && ReadsIn(head + ReadCalls(n)) == ReadsIn(head)
    decreases n
  {
    hide AnsweredSo, SinceStart, ReadsIn, MsbBits, OfferedByte, Begins;
    if n == 0 {
      assert head + ReadCalls(n) == head;
    } else {
      var init := head + ReadCalls(n - 1);
      BeginsWith(head, ReadCalls(n - 1), [Requires], all);
      ReadIsSeen(c, app, offers, all, head, n - 1);
      AnswerAt(c, app, offers, all, init, Requires);
      CountsGrow(init, Requires);
    }
  }

  /** The callbacks after the address. */
  function CallsAfter(app: App, k: nat, t: Transfer): seq<Callback> {
    if !Acks(app, k) then [] else if t.Write? then WriteCalls(t.bytes) else ReadCalls(t.count)
  }

  lemma CallsAre(dev: nat, app: App, k: nat, t: Transfer)
    ensures Calls(dev, app, k, t) == if t.addr != dev then [] else [AddressCall(t)] + CallsAfter(app, k, t)
  {
    hide WriteCalls, ReadCalls, Acks;
  }

  /** The address of a transfer to this slave is answered as expected. */
  lemma AddressIsAnswered(c: Config, app: App, offers: seq<Offer>, all: seq<Callback>, head: seq<Callback>, t: Transfer)
    requires AnsweredSo(c, app, offers, all, |all|)
    requires Begins(head + ([AddressCall(t)] + CallsAfter(app, |head|, t)), all)
    ensures Acks(app, |head|) <==> t.Write? || IsOffered(offers, ReadsIn(head))
    ensures Begins((head + [AddressCall(t)]) + CallsAfter(app, |head|, t), all)
    ensures head + ([AddressCall(t)] + CallsAfter(app, |head|, t)) ==
            (head + [AddressCall(t)]) + CallsAfter(app, |head|, t)
  {
    hide AnsweredSo, SinceStart, ReadsIn, IsOffered, CallsAfter, Begins;
    BeginsWith(head, [AddressCall(t)], CallsAfter(app, |head|, t), all);
    AnswerAt(c, app, offers, all, head, AddressCall(t));
  }

  lemma ReadBodyIsSeen(c: Config, app: App, offers: seq<Offer>, all: seq<Callback>, first: seq<Callback>, count: nat)
    requires AnsweredSo(c, app, offers, all, |all|) && Begins(first + ReadCalls(count), all)
    requires SinceStart(first) == 0 && 0 < ReadsIn(first)
    ensures ReadsIn(first + ReadCalls(count)) == ReadsIn(first)
    ensures 0 < count ==>
      && ReadSeen(app, |first|, count - 1) == ReadLine(offers, ReadsIn(first) - 1, count - 1)
      && Supplied(app, |first| + count - 1) == OfferedByte(offers, ReadsIn(first) - 1, count - 1)
  {
    hide AnsweredSo, SinceStart, ReadsIn, ReadCalls, ReadLine, ReadSeen, Supplied, OfferedByte, Begins;
    ReadIsSeen(c, app, offers, all, first, count);
    if 0 < count {
      FewerReads(count);
      BeginsWith(first, ReadCalls(count - 1), [Requires], all);
      ReadIsSeen(c, app, offers, all, first, count - 1);
    }
  }

  /** How a transfer to this slave with callbacks from number k on is answered; r is its number as a read. */
  predicate OwnParts(c: Config, app: App, offers: seq<Offer>, k: nat, r: nat, t: Transfer) {
    && (Acks(app, k) <==> t.Write? || IsOffered(offers, r))
    && (Acks(app, k) && t.Write? ==> WriteSeen(app, k + 1, t.bytes) == WriteLine(c, t.bytes))
    && (Acks(app, k) && t.Read? && 0 < t.count ==>
          && ReadSeen(app, k + 1, t.count - 1) == ReadLine(offers, r, t.count - 1)
          && Supplied(app, k + t.count) == OfferedByte(offers, r, t.count - 1))
  }

  /** The body of a transfer, once its parts are known. */
  lemma BodyIs(c: Config, dev: nat, app: App, offers: seq<Offer>, k: nat, r: nat, t: Transfer)
    requires t.addr == dev ==> OwnParts(c, app, offers, k, r, t)
    ensures BodySeen(dev, app, k, t) == BodyLine(c, dev, offers, r, t)
  {
    hide MsbBits, OfferedByte, WriteLine, ReadLine, WriteSeen, ReadSeen, Supplied, Acks, IsOffered;
  }

  /** What follows the address of a transfer to this slave. */
  lemma RestIsSeen(c: Config, app: App, offers: seq<Offer>, all: seq<Callback>, first: seq<Callback>, k: nat, r: nat,
                   t: Transfer)
    requires AnsweredSo(c, app, offers, all, |all|) && Begins(first + CallsAfter(app, k, t), all)
    requires |first| == k + 1 && SinceStart(first) == 0 && ReadsIn(first) == r + if t.Read? then 1 else 0
    ensures ReadsIn(first + CallsAfter(app, k, t)) == ReadsIn(first)
    ensures Acks(app, k) && t.Write? ==> WriteSeen(app, k + 1, t.bytes) == WriteLine(c, t.bytes)
    ensures Acks(app, k) && t.Read? && 0 < t.count ==>
      && ReadSeen(app, k + 1, t.count - 1) == ReadLine(offers, r, t.count - 1)
      && Supplied(app, k + t.count) == OfferedByte(offers, r, t.count - 1)
  {
    hide AnsweredSo, ReadsIn, OfferedByte, WriteLine, ReadLine, WriteSeen, ReadSeen, WriteCalls, ReadCalls,
      Supplied, Acks, Begins, SinceStart;
    if !Acks(app, k) {
      assert first + [] == first;
    } else if t.Write? {
      WriteIsSeen(c, app, offers, all, first, t.bytes);
    } else {
      ReadBodyIsSeen(c, app, offers, all, first, t.count);
    }
  }

  lemma CallOfTransfer(t: Transfer)
    ensures AddressCall(t) == if t.Read? then AckRead else AckWrite
  {}

  /** A transfer to this slave, from its address on. */
  lemma OwnTransferIsSeen(c: Config, app: App, offers: seq<Offer>, all: seq<Callback>, head: seq<Callback>,
                          r: nat, t: Transfer)
    requires AnsweredSo(c, app, offers, all, |all|) && ReadsIn(head) == r
    requires Begins(head + ([AddressCall(t)] + CallsAfter(app, |head|, t)), all)
    ensures ReadsIn(head + ([AddressCall(t)] + CallsAfter(app, |head|, t))) == r + if t.Read? then 1 else 0
    ensures OwnParts(c, app, offers, |head|, r, t)
  {
    hide AnsweredSo, ReadsIn, OfferedByte, WriteLine, ReadLine, WriteSeen, ReadSeen, CallsAfter, Supplied, Acks,
      IsOffered, Begins, SinceStart, AddressCall;
    CallOfTransfer(t);
    AddressIsAnswered(c, app, offers, all, head, t);
    CountsGrow(head, AddressCall(t));
    RestIsSeen(c, app, offers, all, head + [AddressCall(t)], |head|, r, t);
  }

  /** One transfer: its part of the line, and what it adds to the counts. */
  lemma TransferIsSeen(c: Config, dev: nat, app: App, offers: seq<Offer>, all: seq<Callback>,
                       head: seq<Callback>, t: Transfer)
    requires AnsweredSo(c, app, offers, all, |all|) && Begins(head + Calls(dev, app, |head|, t), all)
    ensures BodySeen(dev, app, |head|, t) == BodyLine(c, dev, offers, ReadsIn(head), t)
    ensures ReadsIn(head + Calls(dev, app, |head|, t)) == ReadsIn(head) + if t.addr == dev && t.Read? then 1 else 0
  {
    hide AnsweredSo, ReadsIn, BodySeen, BodyLine, Calls, CallsAfter, Begins, OwnParts, AddressCall;
    CallsAre(dev, app, |head|, t);
    if t.addr != dev {
      assert head + [] == head;
    } else {
      OwnTransferIsSeen(c, app, offers, all, head, ReadsIn(head), t);
    }
    BodyIs(c, dev, app, offers, |head|, ReadsIn(head), t);
  }

  lemma FewerReads(n: nat)
    requires 0 < n
    ensures ReadCalls(n) == ReadCalls(n - 1) + [Requires]
  {}

  lemma {:induction false} LineIsSeen(c: Config, dev: nat, app: App, offers: seq<Offer>, all: seq<Callback>,
                                      ts: seq<Transfer>)
    requires AnsweredSo(c, app, offers, all, |all|) && Begins(AllCalls(dev, app, 0, ts), all)
    ensures AllSeen(dev, app, 0, ts) == Line(c, dev, offers, ts)
    ensures ReadsIn(AllCalls(dev, app, 0, ts)) == ReadsTo(dev, ts)
    decreases |ts|
  {
    hide AnsweredSo, BodySeen, BodyLine, Calls, MsbBits, Begins;
    if ts != [] {
      var n := |ts| - 1;
      var head := AllCalls(dev, app, 0, ts[..n]);
      BeginsEarlier(head, Calls(dev, app, |head|, ts[n]), all);
      LineIsSeen(c, dev, app, offers, all, ts[..n]);
      hide ReadsIn;
      TransferIsSeen(c, dev, app, offers, all, head, ts[n]);
    }
  }

  /** What the master sees: whatever it transfers, and in any interleaving of the driver with the
      application, the bits on the data line are those of the transfers, the acknowledgements of the
      writes as long as there is room, and for the reads the bytes that the tx_start callbacks gave. */
  lemma MasterSees(dev: nat, c: Config, app: App, ts: seq<Transfer>, b: Bus,
                   buf: seq<Byte>, steps: seq<Step>, d: State)
    requires ts != [] && AllLegal(ts) && |buf| == c.bufLen
    requires Path(dev, app, Start(), Actions(dev, app, 0, ts) + STOP, b)
    requires Runs(c, Init(c, buf), steps, d) && Agrees(app, 0, I2cDriver.Answers(c, Init(c, buf), steps, d))
    requires CallsMade(steps) == b.slave.calls
    ensures b.seen == Line(c, dev, Offers(steps), ts) + [0]
  {
    hide Path, Runs, I2cDriver.Answers, Agrees, Actions, AllCalls, CallsMade, Line, AllSeen, Addressed, Offers;
    StartIsFree();
    var x := SlaveDecodes(dev, app, Start(), ts);
    PathIsFunction(dev, app, Start(), Actions(dev, app, 0, ts) + STOP, b, x);
    var all := AllAnswered(dev, c, app, ts, b, buf, steps, d);
    LineIsSeen(c, dev, app, Offers(steps), all, ts);
  }

  /** At the stop condition every callback has been answered as expected. */
  lemma AllAnswered(dev: nat, c: Config, app: App, ts: seq<Transfer>, b: Bus,
                    buf: seq<Byte>, steps: seq<Step>, d: State) returns (all: seq<Callback>)
    requires ts != [] && AllLegal(ts) && |buf| == c.bufLen
    requires Path(dev, app, Start(), Actions(dev, app, 0, ts) + STOP, b)
    requires Runs(c, Init(c, buf), steps, d) && Agrees(app, 0, I2cDriver.Answers(c, Init(c, buf), steps, d))
    requires CallsMade(steps) == b.slave.calls
    ensures all == b.slave.calls && AnsweredSo(c, app, Offers(steps), all, |all|)
    ensures Begins(AllCalls(dev, app, 0, ts), all) && all == SessionCalls(dev, app, ts)
    ensures d.fetches == ReadsHeard(app, all)
  {
    hide Path, Runs, I2cDriver.Answers, Agrees, Actions, AllCalls, CallsMade, Addressed, Offers, Tracks, Inv, Hears,
      PhaseAfter, ReadsHeard, Expected;
    BusCalls(dev, app, ts, b);
    EndsWithStop(dev, app, ts);
    var m := RunIsSessionFromStart(c, app, buf, steps, d);
    all := b.slave.calls;
  }

  lemma {:induction false} ReadsAreBus(c: Config, dev: nat, app: App, offers: seq<Offer>, all: seq<Callback>,
                                       ts: seq<Transfer>)
    requires AnsweredSo(c, app, offers, all, |all|) && Begins(AllCalls(dev, app, 0, ts), all)
    ensures var calls := AllCalls(dev, app, 0, ts);
      !PhaseAfter(app, calls).Bad? && ReadsBy(app, calls) == BusReads(dev, offers, ts)
    decreases |ts|
  {
    hide AnsweredSo, Calls, ReadsBy, IsOffered, Begins;
    if ts == [] {
      NoReads(app);
    } else {
      hide PhaseAfter;
      var n := |ts| - 1;
      var head := AllCalls(dev, app, 0, ts[..n]);
      BeginsEarlier(head, Calls(dev, app, |head|, ts[n]), all);
      ReadsAreBus(c, dev, app, offers, all, ts[..n]);
      LineIsSeen(c, dev, app, offers, all, ts[..n]);
      TransferIsRead(c, dev, app, offers, all, head, ts[n]);
    }
  }

  lemma NoReads(app: App)
    ensures ReadsBy(app, []) == []
  {}

  lemma TransferIsRead(c: Config, dev: nat, app: App, offers: seq<Offer>, all: seq<Callback>,
                       head: seq<Callback>, t: Transfer)
    requires AnsweredSo(c, app, offers, all, |all|) && Begins(head + Calls(dev, app, |head|, t), all)
    requires !PhaseAfter(app, head).Bad?
    ensures var calls := head + Calls(dev, app, |head|, t);
      && !PhaseAfter(app, calls).Bad?
      && ReadsBy(app, calls) == ReadsBy(app, head) +
           if t.addr == dev && t.Read? && IsOffered(offers, ReadsIn(head)) && 0 < t.count then [t.count] else []
  {
    hide AnsweredSo, ReadsIn, ReadsBy, PhaseAfter, WriteCalls, ReadCalls, IsOffered, Acks, SinceStart, Begins, Calls;
    CallsAre(dev, app, |head|, t);
    if t.addr != dev {
      assert head + [] == head;
    } else {
      var first := head + [AddressCall(t)];
      AddressIsAnswered(c, app, offers, all, head, t);
      AddressEnds(c, app, head, AddressCall(t));
      if !Acks(app, |head|) {
        assert first + [] == first;
      } else if t.Write? {
        WritesAreNoReads(app, first, t.bytes);
      } else {
        ReadsAdd(app, first, t.count);
      }
    }
  }

  lemma AddressEnds(c: Config, app: App, head: seq<Callback>, call: Callback)
    requires !PhaseAfter(app, head).Bad? && (call.AckRead? || call.AckWrite?)
    ensures var all := head + [call];
      && ReadsHeard(app, all) == ReadsBy(app, head) && ReadsBy(app, all) == ReadsBy(app, head) && SinceStart(all) == 0
      && PhaseAfter(app, all) == if !Acks(app, |head|) then Refused else if call.AckRead? then Reading else Writing
  {
    HearsAddress(c, app, head, call);
    hide ReadsHeard, PhaseAfter, SinceStart, ReadsIn, Hears, I2cDriver.Written;
    ReadsHeardMore(app, head, call);
    CountsGrow(head, call);
    assert ReadsBy(app, head + [call]) == ReadsHeard(app, head + [call]) + [];
  }

  lemma {:induction false} WritesAreNoReads(app: App, head: seq<Callback>, bytes: seq<Byte>)
    requires PhaseAfter(app, head).Writing?
    ensures var all := head + WriteCalls(bytes);
      && PhaseAfter(app, all).Writing?
      && ReadsHeard(app, all) == ReadsHeard(app, head) == ReadsBy(app, all) == ReadsBy(app, head)
    decreases |bytes|
  {
    hide ReadsHeard, PhaseAfter, SinceStart;
    if bytes == [] {
      assert head + WriteCalls(bytes) == head;
    } else {
      var n := |bytes| - 1;
      var init, call := head + WriteCalls(bytes[..n]), Sent(bytes[n]);
      assert head + WriteCalls(bytes) == init + [call];
      WritesAreNoReads(app, head, bytes[..n]);
      PhaseExtends(app, init, call);
      ReadsHeardMore(app, init, call);
    }
  }

  lemma {:induction false} ReadsAdd(app: App, head: seq<Callback>, n: nat)
    requires PhaseAfter(app, head).Reading? && SinceStart(head) == 0
    ensures var all := head + ReadCalls(n);
      && PhaseAfter(app, all).Reading? && SinceStart(all) == n && ReadsHeard(app, all) == ReadsHeard(app, head)
      && ReadsBy(app, all) == ReadsBy(app, head) + if 0 < n then [n] else []
    decreases n
  {
    hide ReadsHeard, PhaseAfter, SinceStart, ReadsIn;
    if n == 0 {
      assert head + ReadCalls(n) == head;
    } else {
      var init := head + ReadCalls(n - 1);
      assert head + ReadCalls(n) == init + [Requires];
      ReadsAdd(app, head, n - 1);
      PhaseExtends(app, init, Requires);
      ReadsHeardMore(app, init, Requires);
      CountsGrow(init, Requires);
    }
  }

  /** What the application is told: the tx_done callbacks get, in order and once, how many bytes were read
      of every offer that was taken up, except for the last read as long as it is on its way. */
  lemma ReadsAreReported(dev: nat, c: Config, app: App, ts: seq<Transfer>, b: Bus,
                         buf: seq<Byte>, steps: seq<Step>, d: State)
    requires ts != [] && AllLegal(ts) && |buf| == c.bufLen
    requires Path(dev, app, Start(), Actions(dev, app, 0, ts) + STOP, b)
    requires Runs(c, Init(c, buf), steps, d) && Agrees(app, 0, I2cDriver.Answers(c, Init(c, buf), steps, d))
    requires CallsMade(steps) == b.slave.calls
    ensures d.fetches == BusReads(dev, Offers(steps), ts)
    ensures d.reported == BusReads(dev, Offers(steps), ts) ||
            (BusReads(dev, Offers(steps), ts) == d.reported + [d.txSent] && (d.unsent || InFlight(d, TxDone)))
  {
    hide Path, Runs, I2cDriver.Answers, Agrees, Actions, AllCalls, CallsMade, Offers, BusReads, ReadsHeard, ReadsBy,
      AnsweredSo, InFlight, PhaseAfter;
    var all := AllAnswered(dev, c, app, ts, b, buf, steps, d);
    ReadsAreBus(c, dev, app, Offers(steps), all, ts);
    if Addressed(dev, ts) {
      ReadsHeardMore(app, AllCalls(dev, app, 0, ts), StopBit);
    } else {
      NoCalls(dev, app, 0, ts);
      NoReads(app);
      NothingRead(app);
    }
    WritesDeliveredOnce(c, buf, steps, d);
  }

  lemma NothingRead(app: App)
    ensures ReadsHeard(app, []) == []
  {}
}
