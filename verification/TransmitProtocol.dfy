/** The I2S transmit path as it runs: an application thread in i2s_local_tx, the I/O thread in
    i2s_send, and the interrupt that wakes the application. A step is one access to what they
    share; the steps may interleave in any order. */
module TransmitProtocol {
  import opened Basics
  import opened Memory
  import opened Ring

  /** Words in the buffer, words in a frame, and bytes that the streaming channel to the
      interrupt holds. */
  datatype Config = Config(size: nat, frame: nat, capacity: nat)
  {
    predicate Valid() {
      0 < size < U32 && 0 < frame && Aligned(size, frame) && 0 < capacity
    }
  }

  /** isr_cmd: which of the two semaphores to put. */
  datatype Command = Command(send: bool, recv: bool)

  const NO_COMMAND := Command(false, false)

  /** Where i2s_local_tx is. */
  datatype Application =
    | Idle
    | Asking(data: seq<int>)                   // found too little room, required count not set yet
    | Getting(data: seq<int>)                  // about to get the semaphore
    | Copying(rest: seq<int>, all: seq<int>)

  /** Where i2s_send is. */
  datatype Hardware = Rest | Taking | Releasing | Testing | Deciding | Answering

  datatype State = State(
    ring: Ring,
    required: nat,                             // required_free_count
    blocked: bool,                             // send_blocked
    semaphore: bool,
    command: Command,
    channel: seq<Command>,
    app: Application,
    hw: Hardware,
    // history
    asked: nat,                                // words of the request that blocked
    accepted: seq<int>,                        // samples of all calls that returned success
    wire: seq<int>)                            // samples handed to the I2S interface
  {
    /** Everything copied into the ring, announced or not. */
    function Stream(): seq<int> {
      if app.Copying? && |app.rest| <= |app.all| then accepted + app.all[..|app.all| - |app.rest|] else accepted
    }

    /** Words whose room has been given back. */
    function Returned(c: Config): int {
      if hw.Releasing? then |wire| - c.frame else |wire|
    }
  }

  function Init(c: Config, filler: seq<int>): State
    requires |filler| == c.size
  {
    State(Empty(c.size, filler), 0, false, false, NO_COMMAND, [], Idle, Rest, 0, [], [])
  }

  datatype Step =
    | Call(data: seq<int>) | Ask | Wake | TimeOut | Copy | Announce
    | Begin | Take | GiveBack | Test | Decide | Answer | Receive
    | Interrupt

  /** Calls pass whole frames, of the size that i2s_send is asked for. disciplined: one that follows
      a call that timed out passes no more than that one did. */
  predicate Enabled(c: Config, s: State, step: Step, disciplined: bool) {
    match step
    case Call(data) =>
      s.app.Idle? && |data| <= c.size && Aligned(|data|, c.frame) && (disciplined && s.blocked ==> |data| <= s.asked)
    case Ask => s.app.Asking?
    case Wake => s.app.Getting? && s.semaphore
    case TimeOut => s.app.Getting?
    case Copy => s.app.Copying? && s.app.rest != []
    case Announce => s.app.Copying? && s.app.rest == []
    case Begin => s.hw.Rest?
    case Take => s.hw.Taking?
    case GiveBack => s.hw.Releasing?
    case Test => s.hw.Testing?
    case Decide => s.hw.Deciding?
    case Answer => s.hw.Answering? && (s.command != NO_COMMAND ==> |s.channel| < c.capacity)
    case Receive => s.hw.Rest?
    case Interrupt => s.channel != []
  }

  /** The steps of i2s_local_tx. */
  function AppStep(c: Config, s: State, step: Step): State
  {
    match step
    case Call(data) =>
      if s.blocked then s.(app := Getting(data))
      else if |data| > s.ring.Free() then s.(app := Asking(data))
      else s.(app := Copying(data, data))
    case Ask =>
      if s.app.Asking? then
        s.(required := |s.app.data|, blocked := true, asked := |s.app.data|, app := Getting(s.app.data))
      else s
    case Wake =>
      if s.app.Getting? then s.(semaphore := false, blocked := false, app := Copying(s.app.data, s.app.data)) else s
    case TimeOut => s.(app := Idle)
    case Copy =>
      if s.app.Copying? && s.ring.Indexed() then
        var n := Min(|s.app.rest|, s.ring.Size() - s.ring.writeIndex);
        s.(ring := ChunkIn(s.ring, s.app.rest[..n]), app := Copying(s.app.rest[n..], s.app.all))
      else s
    case Announce =>
      if s.app.Copying? then
        s.(ring := Publish(s.ring, |s.app.all|), accepted := s.accepted + s.app.all, app := Idle)
      else s
    case _ => s
  }

  /** The words that memcpy takes from the buffer, should they all be inside it. */
  function Frame(c: Config, s: State): seq<int> {
    if s.ring.readIndex + c.frame <= s.ring.Size()
    then s.ring.buf[s.ring.readIndex..s.ring.readIndex + c.frame] else []
  }

  /** The steps of i2s_send, of i2s_receive where it shares isr_cmd, and of the interrupt. */
  function HwStep(c: Config, s: State, step: Step): State {
    match step
    case Begin => s.(hw := if s.ring.Available() >= c.frame then Taking else Testing)
    case Take =>
      s.(wire := s.wire + Frame(c, s), hw := Releasing,
         ring := s.ring.(readIndex := Advanced(s.ring.readIndex, c.frame, s.ring.Size())))
    case GiveBack => s.(ring := Release(s.ring, c.frame), hw := Testing)
    case Test => s.(hw := if s.required > 0 then Deciding else Answering)
    case Decide =>
      if s.ring.Free() >= s.required then
        s.(required := 0, command := s.command.(send := true), hw := Answering)
      else s.(hw := Answering)
    case Answer =>
      if s.command != NO_COMMAND then
        s.(channel := s.channel + [s.command], command := NO_COMMAND, hw := Rest)
      else s.(hw := Rest)
    case Receive => s.(command := s.command.(recv := true))
    case Interrupt =>
      if s.channel != [] then
        s.(semaphore := s.semaphore || s.channel[0].send, channel := s.channel[1..])
      else s
    case _ => s
  }

  predicate IsAppStep(step: Step) {
    step.Call? || step.Ask? || step.Wake? || step.TimeOut? || step.Copy? || step.Announce?
  }

  function Do(c: Config, s: State, step: Step): State {
    if IsAppStep(step) then AppStep(c, s, step) else HwStep(c, s, step)
  }

  /** The state after some steps, and whether each of them could be taken. */
  function After(c: Config, s: State, steps: seq<Step>): State {
    if steps == [] then s else Do(c, After(c, s, steps[..|steps| - 1]), steps[|steps| - 1])
  }

  predicate Runs(c: Config, s: State, steps: seq<Step>, disciplined: bool) {
    steps == [] ||
    (Runs(c, s, steps[..|steps| - 1], disciplined) &&
     Enabled(c, After(c, s, steps[..|steps| - 1]), steps[|steps| - 1], disciplined))
  }

  // ----- the invariant -----

  /** The ring holds the stream; what went out is its beginning. */
  ghost predicate Flows(c: Config, s: State) {
    && s.ring.Size() == c.size
    && 0 <= s.Returned(c)
    && Stores(s.ring, s.Stream(), |s.accepted|, s.Returned(c), |s.wire|)
    && s.wire <= s.accepted
    && Aligned(|s.wire|, c.frame) && Aligned(|s.accepted|, c.frame)
    && (s.hw.Taking? ==> |s.wire| + c.frame <= |s.accepted|)
  }

  /** The application writes only where it knows of room. */
  predicate HasRoom(c: Config, s: State) {
    match s.app
    case Idle => true
    case Asking(data) => !s.blocked && 0 < |data| <= c.size && Aligned(|data|, c.frame)
    case Getting(data) => s.blocked && |data| <= s.asked && Aligned(|data|, c.frame)
    case Copying(rest, all) =>
      !s.blocked && |rest| <= |all| && Aligned(|all|, c.frame) && rest == all[|all| - |rest|..] &&
      |s.accepted| + |all| <= s.Returned(c) + c.size
  }

  function Count(channel: seq<Command>): (n: nat) {
    if channel == [] then 0 else (if channel[0].send then 1 else 0) + Count(channel[1..])
  }

  /** Everything a blocked application may wait for: its request, still to be granted; the
      wake-up on its way; the semaphore. */
  function WakeUps(s: State): nat {
    (if s.required > 0 then 1 else 0) + (if s.command.send then 1 else 0) + Count(s.channel) +
    (if s.semaphore then 1 else 0)
  }

  /** A blocked application has exactly one of these; and once the request is granted, the room
      stays. */
  predicate WillWake(c: Config, s: State) {
    && WakeUps(s) == (if s.blocked then 1 else 0)
    && (s.blocked ==> 0 < s.asked <= c.size && !s.app.Asking? && !s.app.Copying?)
    && (s.required > 0 ==> s.required == s.asked)
    && (s.blocked && s.required == 0 ==> |s.accepted| + s.asked <= s.Returned(c) + c.size)
    && (s.hw.Deciding? ==> s.required > 0)
  }

  ghost predicate Inv(c: Config, s: State) {
    Flows(c, s) && HasRoom(c, s) && WillWake(c, s)
  }

  lemma InvIndexed(c: Config, s: State)
    requires Flows(c, s)
    ensures s.ring.Indexed()
  {
    hide Place;
  }

  lemma {:induction false} CountAppends(channel: seq<Command>, x: Command)
    ensures Count(channel + [x]) == Count(channel) + (if x.send then 1 else 0)
  {
    if channel == [] {
      assert channel + [x] == [x];
    } else {
      CountAppends(channel[1..], x);
      assert (channel + [x])[1..] == channel[1..] + [x];
    }
  }

  // ----- the data -----

  /** What copying a chunk does to the state. */
  lemma CopyIs(c: Config, s: State, chunk: seq<int>) returns (d: State)
    requires Enabled(c, s, Copy, true) && HasRoom(c, s) && s.ring.Indexed()
    requires chunk == s.app.rest[..Min(|s.app.rest|, s.ring.Size() - s.ring.writeIndex)]
    ensures d == Do(c, s, Copy) && d == s.(ring := ChunkIn(s.ring, chunk), app := d.app)
    ensures d.Stream() == s.Stream() + chunk
    ensures HasRoom(c, d) && |s.Stream()| + |chunk| <= s.Returned(c) + c.size
  {
    hide ChunkIn, Do, Aligned;
    d := CopyDoes(c, s, chunk);
    SuffixMoves(s.app.all, s.app.rest, |chunk|);
    assert s.accepted + (s.app.all[..|s.app.all| - |s.app.rest|] + chunk) == s.Stream() + chunk;
  }

  lemma CopyDoes(c: Config, s: State, chunk: seq<int>) returns (d: State)
    requires s.app.Copying? && s.ring.Indexed()
    requires chunk == s.app.rest[..Min(|s.app.rest|, s.ring.Size() - s.ring.writeIndex)]
    ensures d == Do(c, s, Copy)
    ensures d == s.(ring := ChunkIn(s.ring, chunk), app := Copying(s.app.rest[|chunk|..], s.app.all))
  {
    hide ChunkIn, HwStep;
    d := Do(c, s, Copy);
  }

  lemma CopyFlows(c: Config, s: State)
    requires c.Valid() && Enabled(c, s, Copy, true) && Flows(c, s) && HasRoom(c, s)
    ensures Flows(c, Do(c, s, Copy)) && HasRoom(c, Do(c, s, Copy))
  {
    hide Stores, Advanced, Place, Overwritten, Aligned, Do, HasRoom;
    InvIndexed(c, s);
    var chunk := s.app.rest[..Min(|s.app.rest|, s.ring.Size() - s.ring.writeIndex)];
    var d := CopyIs(c, s, chunk);
    ChunkInStores(s.ring, chunk, s.Stream(), |s.accepted|, s.Returned(c), |s.wire|);
  }

  /** What announcing does to the state. */
  lemma AnnounceIs(c: Config, s: State) returns (d: State)
    requires s.app.Copying? && s.app.rest == []
    ensures d == Do(c, s, Announce)
    ensures d == s.(ring := Publish(s.ring, |s.app.all|), accepted := s.accepted + s.app.all, app := Idle)
    ensures d.Stream() == s.Stream() == s.accepted + s.app.all && d.Returned(c) == s.Returned(c)
  {
    hide Publish, HwStep;
    d := Do(c, s, Announce);
  }

  lemma AnnounceFlows(c: Config, s: State)
    requires c.Valid() && Enabled(c, s, Announce, true) && Flows(c, s) && HasRoom(c, s)
    ensures Flows(c, Do(c, s, Announce))
  {
    hide Stores, Place, Do, Aligned;
    var d := AnnounceIs(c, s);
    AlignedSum(|s.accepted|, |s.app.all|, c.frame);
    PublishStores(s.ring, |s.app.all|, s.Stream(), |s.accepted|, s.Returned(c), |s.wire|);
  }

  /** The memcpy out of the buffer stays inside it, and takes the next frame of the stream. */
  lemma TakesNextFrame(c: Config, s: State)
    requires c.Valid() && s.hw.Taking? && Flows(c, s)
    ensures s.ring.readIndex + c.frame <= s.ring.Size()
    ensures Frame(c, s) == s.accepted[|s.wire|..|s.wire| + c.frame]
    ensures Stores(ChunkOut(s.ring, c.frame), s.Stream(), |s.accepted|, |s.wire|, |s.wire| + c.frame)
  {
    hide Advanced, Place;
    FrameFits(|s.wire|, c.frame, c.size);
    ChunkOutStores(s.ring, c.frame, s.Stream(), |s.accepted|, s.Returned(c), |s.wire|);
    assert s.Stream()[..|s.accepted|] == s.accepted;
    assert s.Stream()[|s.wire|..|s.wire| + c.frame] == s.accepted[|s.wire|..|s.wire| + c.frame];
  }

  lemma TakeFlows(c: Config, s: State)
    requires c.Valid() && s.hw.Taking? && Flows(c, s)
    ensures Flows(c, Do(c, s, Take)) && Do(c, s, Take).Returned(c) == |s.wire|
  {
    hide Stores, Advanced, Place, AppStep;
    TakesNextFrame(c, s);
    var d := Do(c, s, Take);
    assert d.ring == ChunkOut(s.ring, c.frame) && d.Stream() == s.Stream();
    assert |d.wire| == |s.wire| + c.frame && d.wire == s.accepted[..|d.wire|];
    FrameMultiple(|s.wire|, c.frame);
    hide HwStep, Aligned;
  }

  lemma GiveBackFlows(c: Config, s: State)
    requires c.Valid() && s.hw.Releasing? && Flows(c, s)
    ensures Flows(c, Do(c, s, GiveBack))
  {
    hide Stores, Place, AppStep, Aligned;
    var d := Do(c, s, GiveBack);
    assert d.Stream() == s.Stream();
    ReleaseStores(s.ring, c.frame, s.Stream(), |s.accepted|, s.Returned(c), |s.wire|);
  }

  /** The steps that leave the ring and both histories alone. */
  lemma OthersFlow(c: Config, s: State, d: State)
    requires c.Valid() && Flows(c, s)
    requires d.ring == s.ring && d.accepted == s.accepted && d.wire == s.wire
    requires d.Stream() == s.Stream() && d.Returned(c) == s.Returned(c)
    requires d.hw.Taking? ==> |s.wire| + c.frame <= |s.accepted|
    ensures Flows(c, d)
  {
    hide Stores, Place, Aligned;
  }

  lemma AppFlows(c: Config, s: State, step: Step)
    requires c.Valid() && Enabled(c, s, step, true) && IsAppStep(step) && Flows(c, s) && HasRoom(c, s)
    ensures Flows(c, Do(c, s, step))
  {
    hide Stores, Place, Aligned, HwStep;
    if step.Copy? {
      CopyFlows(c, s);
    } else if step.Announce? {
      AnnounceFlows(c, s);
    } else {
      assert Do(c, s, step).Stream() == s.Stream();
      OthersFlow(c, s, Do(c, s, step));
    }
  }

  lemma HwFlows(c: Config, s: State, step: Step)
    requires c.Valid() && Enabled(c, s, step, true) && !IsAppStep(step) && Flows(c, s)
    ensures Flows(c, Do(c, s, step)) && Do(c, s, step).Returned(c) >= s.Returned(c)
  {
    hide Stores, Place, Aligned, AppStep;
    if step.Take? {
      TakeFlows(c, s);
    } else if step.GiveBack? {
      GiveBackFlows(c, s);
    } else {
      LevelIsExact(s.ring, s.Stream(), |s.accepted|, s.Returned(c), |s.wire|);
      assert Do(c, s, step).Stream() == s.Stream();
      OthersFlow(c, s, Do(c, s, step));
    }
  }

  // ----- the wake-up -----

  lemma AppKeeps(c: Config, s: State, step: Step)
    requires c.Valid() && Enabled(c, s, step, true) && IsAppStep(step) && Inv(c, s)
    ensures HasRoom(c, Do(c, s, step)) && WillWake(c, Do(c, s, step))
  {
    hide Stores, Count, Place, HwStep, Aligned, ChunkIn;
    if step.Copy? {
      CopyFlows(c, s);
    } else if step.Call? {
      LevelIsExact(s.ring, s.Stream(), |s.accepted|, s.Returned(c), |s.wire|);
    }
  }

  lemma CountFirst(channel: seq<Command>)
    requires channel != []
    ensures Count(channel) == (if channel[0].send then 1 else 0) + Count(channel[1..])
  {}

  lemma ChannelKeeps(c: Config, s: State, step: Step)
    requires c.Valid() && Enabled(c, s, step, true) && (step.Answer? || step.Interrupt?) && Inv(c, s)
    ensures HasRoom(c, Do(c, s, step)) && WillWake(c, Do(c, s, step))
  {
    hide Count, AppStep, Flows;
    if step.Answer? {
      CountAppends(s.channel, s.command);
    } else {
      CountFirst(s.channel);
    }
  }

  lemma DecideKeeps(c: Config, s: State)
    requires c.Valid() && s.hw.Deciding? && Inv(c, s)
    ensures HasRoom(c, Do(c, s, Decide)) && WillWake(c, Do(c, s, Decide))
  {
    hide Stores, Count, AppStep, Aligned;
    LevelIsExact(s.ring, s.Stream(), |s.accepted|, s.Returned(c), |s.wire|);
  }

  lemma HwKeeps(c: Config, s: State, step: Step)
    requires c.Valid() && Enabled(c, s, step, true) && !IsAppStep(step) && Inv(c, s)
    ensures HasRoom(c, Do(c, s, step)) && WillWake(c, Do(c, s, step))
  {
    hide Count, AppStep, Flows;
    if step.Answer? || step.Interrupt? {
      ChannelKeeps(c, s, step);
    } else if step.Decide? {
      DecideKeeps(c, s);
    } else {
      HwFlows(c, s, step);
    }
  }

  // ----- whole runs -----

  lemma {:induction false} RunsKeepInv(c: Config, filler: seq<int>, steps: seq<Step>)
    requires c.Valid() && |filler| == c.size && Runs(c, Init(c, filler), steps, true)
    ensures Inv(c, After(c, Init(c, filler), steps))
    decreases |steps|
  {
    hide Enabled, Do, Stores;
    if steps == [] {
      EmptyStores(c.size, filler);
      Arith.SmallMod(0, c.frame);
    } else {
      hide Flows, HasRoom, WillWake, Init;
      var step := steps[|steps| - 1];
      var s := After(c, Init(c, filler), steps[..|steps| - 1]);
      RunsKeepInv(c, filler, steps[..|steps| - 1]);
      if IsAppStep(step) {
        AppFlows(c, s, step);
        AppKeeps(c, s, step);
      } else {
        HwFlows(c, s, step);
        HwKeeps(c, s, step);
      }
    }
  }

  /** The samples passed by the last call. */
  function LastCall(steps: seq<Step>): seq<int> {
    if steps == [] then []
    else
      var n := |steps| - 1;
      if steps[n].Call? then steps[n].data else LastCall(steps[..n])
  }

  /** How many samples the last call that asked for room had. */
  function LastAsked(steps: seq<Step>): nat {
    if steps == [] then 0
    else
      var n := |steps| - 1;
      if steps[n].Ask? then |LastCall(steps[..n])| else LastAsked(steps[..n])
  }

  /** The samples of the calls that have returned success, from the steps alone: a call does so with
      its announcement, and does not when it times out. */
  function Accepted(steps: seq<Step>): seq<int> {
    if steps == [] then []
    else
      var n := |steps| - 1;
      Accepted(steps[..n]) + if steps[n].Announce? then LastCall(steps[..n]) else []
  }

  /** How many words have been taken, a frame at a time. */
  function WordsTaken(c: Config, steps: seq<Step>): nat {
    if steps == [] then 0
    else
      var n := |steps| - 1;
      WordsTaken(c, steps[..n]) + if steps[n].Take? then c.frame else 0
  }

  /** The histories are those of the steps, and the call under way is the last one. */
  predicate Agrees(s: State, steps: seq<Step>) {
    && s.accepted == Accepted(steps) && (s.blocked ==> s.asked == LastAsked(steps))
    && (match s.app
        case Idle => true
        case Asking(data) => data == LastCall(steps)
        case Getting(data) => data == LastCall(steps)
        case Copying(_, all) => all == LastCall(steps))
  }

  lemma CallsGrow(steps: seq<Step>, step: Step)
    ensures LastCall(steps + [step]) == if step.Call? then step.data else LastCall(steps)
    ensures LastAsked(steps + [step]) == if step.Ask? then |LastCall(steps)| else LastAsked(steps)
    ensures Accepted(steps + [step]) == Accepted(steps) + if step.Announce? then LastCall(steps) else []
  {
    assert (steps + [step])[..|steps|] == steps;
  }

  lemma StepAgrees(c: Config, s: State, steps: seq<Step>, step: Step, disciplined: bool)
    requires Enabled(c, s, step, disciplined) && Agrees(s, steps) && IsAppStep(step)
    ensures Agrees(Do(c, s, step), steps + [step])
  {
    hide ChunkIn, Publish, HwStep, Aligned, LastCall, LastAsked, Accepted;
    CallsGrow(steps, step);
  }

  lemma HwStepAgrees(c: Config, s: State, steps: seq<Step>, step: Step)
    requires Agrees(s, steps) && !IsAppStep(step)
    ensures Agrees(Do(c, s, step), steps + [step])
  {
    hide AppStep, Frame, Release, LastCall, LastAsked, Accepted;
    CallsGrow(steps, step);
  }

  /** In every run, disciplined or not, what counts as accepted is what the calls passed. */
  lemma {:induction false} AcceptedIsCalled(c: Config, filler: seq<int>, steps: seq<Step>, disciplined: bool)
    requires |filler| == c.size && Runs(c, Init(c, filler), steps, disciplined)
    ensures Agrees(After(c, Init(c, filler), steps), steps)
    decreases |steps|
  {
    hide Enabled, Do;
    if steps != [] {
      hide Init, Agrees;
      var init := steps[..|steps| - 1];
      AcceptedIsCalled(c, filler, init, disciplined);
      var s, step := After(c, Init(c, filler), init), steps[|steps| - 1];
      assert init + [step] == steps;
      if IsAppStep(step) {
        StepAgrees(c, s, init, step, disciplined);
      } else {
        HwStepAgrees(c, s, init, step);
      }
    }
  }

  /** Each frame taken is a whole one. */
  lemma {:induction false} WireIsFrames(c: Config, filler: seq<int>, steps: seq<Step>)
    requires c.Valid() && |filler| == c.size && Runs(c, Init(c, filler), steps, true)
    ensures |After(c, Init(c, filler), steps).wire| == WordsTaken(c, steps)
    decreases |steps|
  {
    hide Enabled, Do;
    if steps != [] {
      hide Init, Inv;
      var init, step := steps[..|steps| - 1], steps[|steps| - 1];
      var s := After(c, Init(c, filler), init);
      WireIsFrames(c, filler, init);
      RunsKeepInv(c, filler, init);
      WireGrows(c, s, step);
    }
  }

  lemma WireGrows(c: Config, s: State, step: Step)
    requires c.Valid() && Enabled(c, s, step, true) && Inv(c, s)
    ensures |Do(c, s, step).wire| == |s.wire| + if step.Take? then c.frame else 0
  {
    hide ChunkIn, Publish, Release, Aligned, HasRoom, WillWake, Stores;
    if step.Take? {
      TakesNextFrame(c, s);
    }
  }

  /** The ring refines a queue, in every interleaving: the samples sent are the first of those
      that the successful calls passed, in order, a frame at a time; there are never more than the
      buffer holds between the two, and the wrapped totals say how many; each frame is copied from
      inside the buffer. No wake-up is lost or duplicated: a blocked application has exactly one of a
      pending request, a wake-up on its way, and the semaphore; one that is not blocked has none. */
  lemma RunsAreFifo(c: Config, filler: seq<int>, steps: seq<Step>)
    requires c.Valid() && |filler| == c.size && Runs(c, Init(c, filler), steps, true)
    ensures var s, accepted := After(c, Init(c, filler), steps), Accepted(steps);
      && s.wire <= accepted && |s.wire| == WordsTaken(c, steps) && |accepted| - |s.wire| <= c.size
      && s.ring.Available() == |accepted| - s.Returned(c)
      && (s.hw.Taking? ==> s.ring.readIndex + c.frame <= |s.ring.buf|)
      && WakeUps(s) == (if s.blocked then 1 else 0)
  {
    hide Init, Enabled, Do, Accepted, WordsTaken;
    RunsKeepInv(c, filler, steps);
    AcceptedIsCalled(c, filler, steps, true);
    WireIsFrames(c, filler, steps);
    var s := After(c, Init(c, filler), steps);
    LevelIsExact(s.ring, s.Stream(), |s.accepted|, s.Returned(c), |s.wire|);
    if s.hw.Taking? {
      TakesNextFrame(c, s);
    }
  }

  /** i2s_send finds a frame exactly if one has been accepted and not been sent, and a call that is
      not a retry copies at once exactly if there is room for its samples. */
  lemma SendsIfThereIsOne(c: Config, filler: seq<int>, steps: seq<Step>, data: seq<int>)
    requires c.Valid() && |filler| == c.size && Runs(c, Init(c, filler), steps, true)
    ensures var s, accepted := After(c, Init(c, filler), steps), Accepted(steps);
      && (Enabled(c, s, Begin, true) ==>
            (Do(c, s, Begin).hw.Taking? <==> |s.wire| + c.frame <= |accepted|))
      && (Enabled(c, s, Call(data), true) && !s.blocked ==>
            (Do(c, s, Call(data)).app.Copying? <==> |accepted| + |data| <= s.Returned(c) + c.size))
  {
    hide Init, After, Runs, Accepted;
    RunsKeepInv(c, filler, steps);
    AcceptedIsCalled(c, filler, steps, true);
    var s := After(c, Init(c, filler), steps);
    LevelIsExact(s.ring, s.Stream(), |s.accepted|, s.Returned(c), |s.wire|);
    FreeIs(c, s);
    hide Inv, Stores, Agrees;
  }

  // ----- the wake-up comes -----

  /** One call of i2s_send and the interrupt it may raise, with the application waiting. */
  function Round(c: Config, s: State): State {
    var a := Do(c, s, Begin);
    var b := if a.hw.Taking? then Do(c, Do(c, a, Take), GiveBack) else a;
    var d := Do(c, b, Test);
    var e := if d.hw.Deciding? then Do(c, d, Decide) else d;
    Do(c, Do(c, e, Answer), Interrupt)
  }

  function Rounds(c: Config, s: State, n: nat): State
    decreases n
  {
    if n == 0 then s else Rounds(c, Round(c, s), n - 1)
  }

  /** Between two calls of i2s_send, the request of an application, which still waits or has timed
      out, has not been granted. */
  ghost predicate Waits(c: Config, s: State) {
    Inv(c, s) && s.hw.Rest? && s.channel == [] && s.command == NO_COMMAND && s.required > 0
  }

  lemma FrameLeft(accepted: nat, wire: nat, frame: nat)
    requires Aligned(accepted, frame) && Aligned(wire, frame) && wire < accepted
    ensures wire + frame <= accepted
  {
    Arith.DivMod(accepted, frame);
    Arith.DivMod(wire, frame);
    var q := accepted / frame - wire / frame;
    assert accepted - wire == q * frame;
    if q <= 0 {
      Arith.MulMonotone(q, 0, frame);
    } else {
      Arith.MulMonotone(1, q, frame);
    }
  }

  /** Up to the check of the request, a round sends one frame if there is any. */
  lemma Sends(c: Config, s: State) returns (b: State)
    requires c.Valid() && Waits(c, s)
    ensures b == var a := Do(c, s, Begin); if a.hw.Taking? then Do(c, Do(c, a, Take), GiveBack) else a
    ensures Inv(c, b) && b.hw.Testing? && b.app == s.app && b.required == s.required
    ensures b.channel == [] && b.command == NO_COMMAND && b.accepted == s.accepted
    ensures |s.wire| < |s.accepted| ==> |b.wire| == |s.wire| + c.frame
    ensures |s.wire| == |s.accepted| ==> b.wire == s.wire
  {
    hide Stores, Count, Place, AppStep, Aligned;
    LevelIsExact(s.ring, s.Stream(), |s.accepted|, s.Returned(c), |s.wire|);
    if |s.wire| < |s.accepted| {
      FrameLeft(|s.accepted|, |s.wire|, c.frame);
    }
    var a := Do(c, s, Begin);
    HwFlows(c, s, Begin);
    HwKeeps(c, s, Begin);
    b := a;
    if a.hw.Taking? {
      TakesNextFrame(c, a);
      HwFlows(c, a, Take);
      HwKeeps(c, a, Take);
      b := Do(c, a, Take);
      HwFlows(c, b, GiveBack);
      HwKeeps(c, b, GiveBack);
      b := Do(c, b, GiveBack);
    }
  }

  /** The check grants the request or finds too little room. */
  lemma Checks(c: Config, b: State) returns (e: State)
    requires c.Valid() && Inv(c, b) && b.hw.Testing? && b.required > 0 && b.command == NO_COMMAND
    ensures e == Do(c, Do(c, b, Test), Decide) && Do(c, b, Test).hw.Deciding?
    ensures Inv(c, e) && e.hw.Answering? && e.app == b.app && e.channel == b.channel
    ensures e.accepted == b.accepted && e.wire == b.wire
    ensures e.command == if c.size - (|b.accepted| - |b.wire|) >= b.required then Command(true, false) else NO_COMMAND
    ensures e.command == NO_COMMAND ==> e.required == b.required
  {
    hide Stores, Count, Place, AppStep, Aligned, HasRoom, WillWake;
    LevelIsExact(b.ring, b.Stream(), |b.accepted|, b.Returned(c), |b.wire|);
    var d := Do(c, b, Test);
    HwFlows(c, b, Test);
    HwKeeps(c, b, Test);
    HwFlows(c, d, Decide);
    HwKeeps(c, d, Decide);
    e := Do(c, d, Decide);
  }

  lemma Answers(c: Config, e: State)
    requires e.hw.Answering? && e.channel == []
    ensures e.command.send ==> Do(c, Do(c, e, Answer), Interrupt).semaphore
    ensures e.command == NO_COMMAND ==> Do(c, Do(c, e, Answer), Interrupt) == e.(hw := Rest)
  {
    hide AppStep;
  }

  lemma RestKeepsInv(c: Config, e: State)
    requires Inv(c, e) && e.hw.Answering?
    ensures Inv(c, e.(hw := Rest))
  {
    hide Stores, Count, Aligned;
    assert e.(hw := Rest).Stream() == e.Stream();
  }

  lemma RequestFits(c: Config, s: State)
    requires WillWake(c, s) && 0 < s.required
    ensures s.required <= c.size
  {
    hide Count;
  }

  lemma RoundProgresses(c: Config, s: State)
    requires c.Valid() && Waits(c, s)
    ensures Round(c, s).semaphore ||
      (Waits(c, Round(c, s)) && Round(c, s).accepted == s.accepted && |s.wire| < |Round(c, s).wire| <= |s.accepted|)
  {
    hide Do, Stores, Count, AppStep, Aligned, HasRoom, WillWake;
    var b := Sends(c, s);
    var e := Checks(c, b);
    Answers(c, e);
    assert Round(c, s) == Do(c, Do(c, e, Answer), Interrupt);
    hide Round;
    if e.command == NO_COMMAND {
      RequestFits(c, s);
      RestKeepsInv(c, e);
    }
  }

  /** However long the request, the I2S side wakes the application by itself. */
  lemma {:induction false} ApplicationIsWoken(c: Config, s: State)
    requires c.Valid() && Waits(c, s)
    ensures exists n: nat :: Rounds(c, s, n).semaphore
    decreases |s.accepted| - |s.wire|
  {
    hide Round, Waits;
    RoundProgresses(c, s);
    var t := Round(c, s);
    if t.semaphore {
      assert Rounds(c, t, 0) == t;
      assert Rounds(c, s, 1).semaphore;
    } else {
      ApplicationIsWoken(c, t);
      var n: nat :| Rounds(c, t, n).semaphore;
      assert Rounds(c, s, n + 1).semaphore;
    }
  }

  // ----- calls after a timeout -----

  /** In every run, when a call for asked words has timed out and then been woken, there is room
      for words words. */
  ghost predicate RetryFits(c: Config, asked: nat, words: nat) {
    forall filler: seq<int>, steps: seq<Step> |
      |filler| == c.size && Runs(c, Init(c, filler), steps, true) && TimedOutWoken(c, filler, steps, asked) ::
      HasRoomFor(c, After(c, Init(c, filler), steps), words)
  }

  predicate HasRoomFor(c: Config, s: State, words: nat) {
    |s.accepted| + words <= s.Returned(c) + c.size
  }

  predicate TimedOutWoken(c: Config, filler: seq<int>, steps: seq<Step>, asked: nat)
    requires |filler| == c.size
  {
    var s := After(c, Init(c, filler), steps);
    s.app.Idle? && s.blocked && s.semaphore && LastAsked(steps) == asked
  }

  lemma Goes(c: Config, i: State, steps: seq<Step>, step: Step, disciplined: bool) returns (r: seq<Step>, t: State)
    requires Runs(c, i, steps, disciplined) && Enabled(c, After(c, i, steps), step, disciplined)
    ensures Runs(c, i, r, disciplined) && After(c, i, r) == t == Do(c, After(c, i, steps), step)
  {
    hide Enabled, Do;
    r := steps + [step];
    assert r[..|r| - 1] == steps;
    t := Do(c, After(c, i, steps), step);
  }

  lemma GoesOn(c: Config, i: State, steps: seq<Step>, step: Step) returns (r: seq<Step>, t: State)
    requires c.Valid() && Runs(c, i, steps, true) && Inv(c, After(c, i, steps))
    requires Enabled(c, After(c, i, steps), step, true)
    ensures Runs(c, i, r, true) && After(c, i, r) == t == Do(c, After(c, i, steps), step) && Inv(c, t)
  {
    hide Enabled, Do, Flows, HasRoom, WillWake;
    r, t := Goes(c, i, steps, step, true);
    var s := After(c, i, steps);
    if IsAppStep(step) {
      AppFlows(c, s, step);
      AppKeeps(c, s, step);
    } else {
      HwFlows(c, s, step);
      HwKeeps(c, s, step);
    }
  }

  lemma Started(c: Config, filler: seq<int>)
    requires c.Valid() && |filler| == c.size
    ensures Runs(c, Init(c, filler), [], true) && After(c, Init(c, filler), []) == Init(c, filler)
    ensures Inv(c, Init(c, filler)) && Init(c, filler).ring.Free() == c.size
  {
    hide Stores;
    RunsKeepInv(c, filler, []);
    var s := Init(c, filler);
    LevelIsExact(s.ring, s.Stream(), |s.accepted|, s.Returned(c), |s.wire|);
  }

  /** A call copies all it was given. */
  lemma {:induction false} CopiesAll(c: Config, i: State, steps: seq<Step>) returns (r: seq<Step>, t: State)
    requires c.Valid() && Runs(c, i, steps, true) && Inv(c, After(c, i, steps)) && After(c, i, steps).app.Copying?
    ensures Runs(c, i, r, true) && After(c, i, r) == t && Inv(c, t)
    ensures t.app == Copying([], After(c, i, steps).app.all)
    ensures t == After(c, i, steps).(app := t.app, ring := t.ring)
    decreases |After(c, i, steps).app.rest|
  {
    hide Runs, After, HwStep, WillWake, ChunkIn, Aligned, Stores, Place;
    var u := After(c, i, steps);
    if u.app.rest == [] {
      r, t := steps, u;
    } else {
      InvIndexed(c, u);
      r, t := GoesOn(c, i, steps, Copy);
      r, t := CopiesAll(c, i, r);
    }
  }

  /** A full buffer, after the first call. */
  lemma Fills(c: Config, filler: seq<int>, data: seq<int>) returns (r: seq<Step>, t: State)
    requires c.Valid() && |filler| == |data| == c.size
    ensures Runs(c, Init(c, filler), r, true) && After(c, Init(c, filler), r) == t && Inv(c, t)
    ensures t == Init(c, filler).(accepted := data, ring := t.ring) && t.ring.Free() == 0
  {
    hide Runs, After, HwStep, Aligned, Stores, Place, ChunkIn, Inv;
    var i := Init(c, filler);
    Started(c, filler);
    r, t := GoesOn(c, i, [], Call(data));
    r, t := CopiesAll(c, i, r);
    r, t := GoesOn(c, i, r, Announce);
    assert t.accepted == data;
    FreeIs(c, t);
  }

  lemma FreeIs(c: Config, s: State)
    requires Inv(c, s)
    ensures s.ring.Free() == c.size - (|s.accepted| - s.Returned(c))
    ensures s.ring.Available() == |s.accepted| - s.Returned(c)
    ensures s.ring.Size() == c.size && 0 < c.size < U32 && s.Returned(c) <= |s.wire| <= |s.accepted|
    ensures s.ring.writeIndex == Place(|s.Stream()|, c.size) && s.ring.readIndex == Place(|s.wire|, c.size)
  {
    hide Place, Aligned;
    LevelIsExact(s.ring, s.Stream(), |s.accepted|, s.Returned(c), |s.wire|);
  }

  /** A call for asked words finds the buffer full and times out. */
  lemma TimesOut(c: Config, filler: seq<int>, data: seq<int>, asked: nat) returns (r: seq<Step>, t: State)
    requires c.Valid() && |filler| == |data| == c.size && 0 < asked <= c.size && Aligned(asked, c.frame)
    ensures Runs(c, Init(c, filler), r, true) && After(c, Init(c, filler), r) == t && Waits(c, t)
    ensures t.app.Idle? && t.blocked && t.required == t.asked == asked && t.accepted == data && t.wire == []
  {
    hide Runs, After, HwStep, Aligned, Inv;
    var i := Init(c, filler);
    r, t := Fills(c, filler, data);
    var more := seq(asked, _ => 0);
    r, t := GoesOn(c, i, r, Call(more));
    r, t := GoesOn(c, i, r, Ask);
    r, t := GoesOn(c, i, r, TimeOut);
  }

  /** One call of i2s_send, as steps of a run. */
  lemma RoundRuns(c: Config, i: State, steps: seq<Step>) returns (r: seq<Step>, t: State)
    requires c.Valid() && Runs(c, i, steps, true) && Waits(c, After(c, i, steps))
    requires |After(c, i, steps).wire| < |After(c, i, steps).accepted|
    ensures Runs(c, i, r, true) && After(c, i, r) == t && Inv(c, t) && t.hw.Rest?
    ensures var s := After(c, i, steps);
      && t.app == s.app && t.blocked == s.blocked && t.asked == s.asked && t.accepted == s.accepted
      && |t.wire| == |s.wire| + c.frame
      && if c.size - (|s.accepted| - |t.wire|) >= s.required then t.semaphore
         else Waits(c, t) && t.required == s.required
  {
    hide Runs, After, AppStep, Inv, Count, Aligned;
    var s := After(c, i, steps);
    r, t := SendRuns(c, i, steps);
    FreeIs(c, t);
    r, t := GoesOn(c, i, r, Test);
    r, t := GoesOn(c, i, r, Decide);
    r, t := GoesOn(c, i, r, Answer);
    if t.channel != [] {
      r, t := GoesOn(c, i, r, Interrupt);
    }
  }

  lemma SendRuns(c: Config, i: State, steps: seq<Step>) returns (r: seq<Step>, t: State)
    requires c.Valid() && Runs(c, i, steps, true) && Waits(c, After(c, i, steps))
    requires |After(c, i, steps).wire| < |After(c, i, steps).accepted|
    ensures Runs(c, i, r, true) && After(c, i, r) == t && Inv(c, t) && t.hw.Testing?
    ensures var s := After(c, i, steps);
      t == s.(hw := Testing, ring := t.ring, wire := t.wire) && |t.wire| == |s.wire| + c.frame
  {
    hide Runs, After, AppStep, Inv, Count, Aligned;
    var s := After(c, i, steps);
    FreeIs(c, s);
    NextFrameThere(c, s);
    r, t := GoesOn(c, i, steps, Begin);
    FrameIsWhole(c, t);
    r, t := GoesOn(c, i, r, Take);
    r, t := GoesOn(c, i, r, GiveBack);
  }

  lemma NextFrameThere(c: Config, s: State)
    requires c.Valid() && Inv(c, s) && s.hw.Rest? && |s.wire| < |s.accepted|
    ensures |s.wire| + c.frame <= |s.accepted|
  {
    hide Aligned, Stores;
    FrameLeft(|s.accepted|, |s.wire|, c.frame);
  }

  lemma FrameIsWhole(c: Config, s: State)
    requires c.Valid() && Inv(c, s) && s.hw.Taking?
    ensures |Frame(c, s)| == c.frame
  {
    hide Aligned, Stores, Frame;
    TakesNextFrame(c, s);
  }

  /** The buffer, full at first, is sent until the request is granted: just then there is room for it. */
  lemma {:induction false} SendsUntil(c: Config, i: State, steps: seq<Step>) returns (r: seq<Step>, t: State)
    requires c.Valid() && Runs(c, i, steps, true)
    requires var s := After(c, i, steps);
      Waits(c, s) && s.app.Idle? && s.blocked && s.required == s.asked && |s.accepted| == c.size &&
      |s.wire| < s.asked <= c.size && Aligned(s.asked, c.frame)
    ensures Runs(c, i, r, true) && After(c, i, r) == t && Inv(c, t) && t.hw.Rest?
    ensures var s := After(c, i, steps);
      && t.app.Idle? && t.blocked && t.semaphore && t.asked == s.asked && t.accepted == s.accepted
      && |t.wire| == s.asked
    decreases c.size - |After(c, i, steps).wire|
  {
    hide Runs, After, Aligned, Flows, HasRoom, WillWake;
    var s := After(c, i, steps);
    WireAligned(c, s);
    FrameLeft(s.asked, |s.wire|, c.frame);
    r, t := RoundRuns(c, i, steps);
    if |t.wire| < s.asked {
      r, t := SendsUntil(c, i, r);
    }
  }

  lemma WireAligned(c: Config, s: State)
    requires Flows(c, s)
    ensures Aligned(|s.wire|, c.frame)
  {}

  /** A run that ends with just the room that was asked for. */
  lemma JustRoom(c: Config, filler: seq<int>, data: seq<int>, asked: nat) returns (r: seq<Step>, t: State)
    requires c.Valid() && |filler| == |data| == c.size && 0 < asked <= c.size && Aligned(asked, c.frame)
    ensures Runs(c, Init(c, filler), r, true) && After(c, Init(c, filler), r) == t && Inv(c, t) && t.hw.Rest?
    ensures TimedOutWoken(c, filler, r, asked) && t.accepted == data && |t.wire| == asked
  {
    hide Runs, After, Aligned, Inv, Init, LastAsked;
    r, t := TimesOut(c, filler, data, asked);
    r, t := SendsUntil(c, Init(c, filler), r);
    AcceptedIsCalled(c, filler, r, true);
  }

  /** The words passed after a timeout are not compared with the room there is. In every run they
      fit, if and only if they are no more than the call that timed out had passed. */
  lemma RetryFitsIff(c: Config, asked: nat, words: nat)
    requires c.Valid() && 0 < asked <= c.size && Aligned(asked, c.frame)
    ensures RetryFits(c, asked, words) <==> words <= asked
  {
    hide Runs, After, Init, Flows, HasRoom, Aligned;
    if words <= asked {
      forall filler: seq<int>, steps: seq<Step> |
        |filler| == c.size && Runs(c, Init(c, filler), steps, true) && TimedOutWoken(c, filler, steps, asked)
        ensures HasRoomFor(c, After(c, Init(c, filler), steps), words)
      {
        RunsKeepInv(c, filler, steps);
        AcceptedIsCalled(c, filler, steps, true);
      }
    } else {
      hide WillWake, TimedOutWoken;
      var zeros := seq(c.size, _ => 0);
      var r, t := JustRoom(c, zeros, zeros, asked);
      assert !HasRoomFor(c, t, words);
    }
  }

  lemma {:induction false} Relaxed(c: Config, s: State, steps: seq<Step>)
    requires Runs(c, s, steps, true)
    ensures Runs(c, s, steps, false)
    decreases |steps|
  {
    hide After;
    if steps != [] {
      Relaxed(c, s, steps[..|steps| - 1]);
    }
  }

  lemma WholeTurn(size: nat, k: nat)
    requires 0 < size && k < size
    ensures Place(size, size) == 0 && Place(k, size) == k
  {
    Arith.DivModUnique(size, size, 1, 0);
    Arith.SmallMod(k, size);
  }

  /** A longer call after a timeout copies over the samples that are sent next. */
  lemma Overwrites(c: Config, s: State, words: nat) returns (t: State)
    requires c.Valid() && Inv(c, s) && s.app.Idle? && s.blocked && s.semaphore && s.hw.Rest?
    requires |s.accepted| == c.size && |s.wire| + c.frame <= words <= c.size
    ensures var ones := seq(words, _ => 1); var called := s.(app := Getting(ones));
      && Do(c, s, Call(ones)) == called
      && Do(c, called, Wake) == s.(semaphore := false, blocked := false, app := Copying(ones, ones))
      && t == Do(c, Do(c, called, Wake), Copy) && t.hw.Rest? && t.wire == s.wire && t.accepted == s.accepted
      && c.frame <= t.ring.Available()
      && t.ring.readIndex == |s.wire| && t.ring.Size() == c.size
      && forall k | 0 <= k < words :: t.ring.buf[k] == 1
  {
    var ones := seq(words, _ => 1);
    hide Place, HwStep, Aligned, Inv;
    FreeIs(c, s);
    WholeTurn(c.size, |s.wire|);
    var woken := s.(semaphore := false, blocked := false, app := Copying(ones, ones));
    assert s.Stream() == s.accepted && s.Returned(c) == |s.wire|;
    assert ones[..words] == ones;
    t := Do(c, woken, Copy);
  }

  /** For every call after a timeout that passes more, there is a run in which it overwrites samples
      that have not been sent: what goes out is not what was accepted. */
  lemma LongerRetryCorrupts(c: Config, filler: seq<int>, asked: nat, words: nat)
    requires c.Valid() && |filler| == c.size && 0 < asked < words <= c.size
    requires Aligned(asked, c.frame) && Aligned(words, c.frame)
    ensures exists steps: seq<Step> ::
      Runs(c, Init(c, filler), steps, false) && !(After(c, Init(c, filler), steps).wire <= Accepted(steps))
  {
    hide Runs, After, Init, Aligned, Inv, AppStep, Accepted;
    var i := Init(c, filler);
    var zeros, ones := seq(c.size, _ => 0), seq(words, _ => 1);
    var r, t := JustRoom(c, filler, zeros, asked);
    FrameLeft(words, asked, c.frame);
    var u := Overwrites(c, t, words);
    Relaxed(c, i, r);
    r, t := Goes(c, i, r, Call(ones), false);
    r, t := Goes(c, i, r, Wake, false);
    r, t := Goes(c, i, r, Copy, false);
    assert t == u;
    r, t := Goes(c, i, r, Begin, false);
    r, t := Goes(c, i, r, Take, false);
    assert t.wire[asked] == 1 && t.accepted[asked] == 0;
    AcceptedIsCalled(c, filler, r, false);
  }
}
