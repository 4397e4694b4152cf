/** The receive path of the microphone and I2S drivers as it runs: an application thread in
    mic_array_local_rx or i2s_local_rx, and the interrupt or I/O thread that delivers a block
    of words at a time. A step is one access to what they share, in any interleaving. */
module ReceiveProtocol {
  import opened Basics
  import opened Memory
  import opened Ring

  /** Words in the buffer, in a block, and in a frame, of which the other two are multiples; the
      driver is started with a buffer that holds a block at least. direct: the semaphore is put
      right away, as by the microphone driver, and not by way of another interrupt. */
  datatype Config = Config(size: nat, block: nat, frame: nat, direct: bool)
  {
    predicate Valid() {
      size < U32 && 0 < block <= size && Aligned(size, frame) && Aligned(block, frame)
    }

    /** The words that are there when a call for asked words has been woken. */
    function Promised(asked: nat): nat {
      Max(asked, block)
    }
  }

  /** Where the application is; count is the number of words it wants. */
  datatype Application =
    | Idle
    | Asking(count: nat)                       // found too few words, required count not set yet
    | Getting(count: nat)                      // about to get the semaphore
    | Copying(count: nat, got: seq<int>)

  /** Where the delivering side is. */
  datatype Hardware = Rest | Storing(rest: seq<int>, all: seq<int>) | Testing | Deciding

  datatype State = State(
    ring: Ring,
    required: nat,                             // required_available_count
    blocked: bool,                             // recv_blocked
    semaphore: bool,
    inFlight: bool,                            // a wake-up on its way through isr_cmd and the channel
    app: Application,
    hw: Hardware,
    // history
    asked: nat,                                // words of the request that blocked
    blocks: seq<seq<int>>,                     // all blocks delivered
    kept: seq<bool>,                           // which of them were not dropped
    announced: seq<int>,
    received: seq<int>)                        // words returned by completed calls
  {
    /** Everything copied into the ring, announced or not. */
    function Stream(): seq<int> {
      if hw.Storing? && |hw.rest| <= |hw.all| then announced + hw.all[..|hw.all| - |hw.rest|] else announced
    }

    /** Everything copied out of the ring. */
    function Taken(): seq<int> {
      if app.Copying? then received + app.got else received
    }
  }

  function Init(c: Config, filler: seq<int>): State
    requires |filler| == c.size
  {
    State(Empty(c.size, filler), 0, false, false, false, Idle, Rest, 0, [], [], [], [])
  }

  datatype Step =
    | Call(count: nat) | Ask | Wake | TimeOut | Copy | Finish
    | Deliver(block: seq<int>) | Store | Announce | Test | Decide
    | Interrupt

  predicate IsAppStep(step: Step) {
    step.Call? || step.Ask? || step.Wake? || step.TimeOut? || step.Copy? || step.Finish?
  }

  /** Calls ask for whole frames. disciplined: one that follows a call that timed out asks for no
      more than that call or a block. */
  predicate Enabled(c: Config, s: State, step: Step, disciplined: bool) {
    match step
    case Call(count) =>
      s.app.Idle? && count <= c.size && Aligned(count, c.frame) &&
      (disciplined && s.blocked ==> count <= c.Promised(s.asked))
    case Ask => s.app.Asking?
    case Wake => s.app.Getting? && s.semaphore
    case TimeOut => s.app.Getting?
    case Copy => s.app.Copying? && |s.app.got| < s.app.count
    case Finish => s.app.Copying? && |s.app.got| >= s.app.count
    case Deliver(block) => s.hw.Rest? && |block| == c.block
    case Store => s.hw.Storing? && s.hw.rest != []
    case Announce => s.hw.Storing? && s.hw.rest == []
    case Test => s.hw.Testing?
    case Decide => s.hw.Deciding?
    case Interrupt => s.inFlight
  }

  function AppStep(s: State, step: Step): State {
    match step
    case Call(count) =>
      if s.blocked then s.(app := Getting(count))
      else if count > s.ring.Available() then s.(app := Asking(count))
      else s.(app := Copying(count, []))
    case Ask =>
      if s.app.Asking? then
        s.(required := s.app.count, blocked := true, asked := s.app.count, app := Getting(s.app.count))
      else s
    case Wake =>
      if s.app.Getting? then s.(semaphore := false, blocked := false, app := Copying(s.app.count, [])) else s
    case TimeOut => s.(app := Idle)
    case Copy =>
      if s.app.Copying? && s.ring.Indexed() && |s.app.got| < s.app.count then
        var n := Min(s.app.count - |s.app.got|, s.ring.Size() - s.ring.readIndex);
        s.(ring := ChunkOut(s.ring, n),
           app := Copying(s.app.count, s.app.got + s.ring.buf[s.ring.readIndex..s.ring.readIndex + n]))
      else s
    case Finish =>
      if s.app.Copying? then
        s.(ring := Release(s.ring, s.app.count), received := s.received + s.app.got, app := Idle)
      else s
    case _ => s
  }

  function HwStep(c: Config, s: State, step: Step): State {
    match step
    case Deliver(block) =>
      var fits := |block| <= s.ring.Free();
      s.(hw := if fits then Storing(block, block) else Testing, blocks := s.blocks + [block], kept := s.kept + [fits])
    case Store =>
      if s.hw.Storing? && s.ring.Indexed() then
        var n := Min(|s.hw.rest|, s.ring.Size() - s.ring.writeIndex);
        s.(ring := ChunkIn(s.ring, s.hw.rest[..n]), hw := Storing(s.hw.rest[n..], s.hw.all))
      else s
    case Announce =>
      if s.hw.Storing? then
        s.(ring := Publish(s.ring, |s.hw.all|), announced := s.announced + s.hw.all, hw := Testing)
      else s
    case Test => s.(hw := if s.required > 0 then Deciding else Rest)
    case Decide =>
      if s.ring.Available() >= s.required then
        s.(required := 0, semaphore := s.semaphore || c.direct, inFlight := s.inFlight || !c.direct, hw := Rest)
      else s.(hw := Rest)
    case Interrupt => s.(semaphore := true, inFlight := false)
    case _ => s
  }

  function Do(c: Config, s: State, step: Step): State {
    if IsAppStep(step) then AppStep(s, step) else HwStep(c, s, step)
  }

  /** The state after some steps, and whether each of them could be taken. */
  function After(c: Config, s: State, steps: seq<Step>): State {
    if steps == [] then s else Do(c, After(c, s, steps[..|steps| - 1]), steps[|steps| - 1])
  }

  predicate Runs(c: Config, s: State, steps: seq<Step>, disciplined: bool) {
    steps == [] ||
    (Runs(c, s, steps[..|steps| - 1], disciplined) &&
     Enabled(c, After(c, s, steps[..|steps| - 1]), steps[|steps| - 1], disciplined))
  }

  // ----- the invariant -----

  /** The blocks that were kept, one after the other, each of them whole. */
  function Selected(blocks: seq<seq<int>>, kept: seq<bool>): seq<int>
    requires |blocks| == |kept|
  {
    if blocks == [] then []
    else
      var n := |blocks| - 1;
      Selected(blocks[..n], kept[..n]) + if kept[n] then blocks[n] else []
  }

  ghost predicate Flows(c: Config, s: State) {
    && s.ring.Size() == c.size
    && Stores(s.ring, s.Stream(), |s.announced|, |s.received|, |s.Taken()|)
    && s.Taken() <= s.announced
  }

  function Level(s: State): int {
    |s.announced| - |s.received|
  }

  /** Words that an application may have found when it asked for more, or a block came since. */
  predicate Behind(c: Config, s: State, asked: nat) {
    Level(s) < asked || c.block <= Level(s)
  }

  /** Both sides go on only where they know of words, or of room. */
  predicate Knows(c: Config, s: State) {
    && (match s.app
        case Idle => true
        case Asking(count) => !s.blocked && 0 < count <= c.size && Behind(c, s, count)
        case Getting(count) => s.blocked && count <= c.Promised(s.asked)
        case Copying(count, got) => !s.blocked && |got| <= count && |s.received| + count <= |s.announced|)
    && (s.hw.Storing? ==>
          && |s.hw.rest| <= |s.hw.all| && s.hw.rest == s.hw.all[|s.hw.all| - |s.hw.rest|..]
          && |s.hw.all| == c.block && |s.announced| + c.block <= |s.received| + c.size)
  }

  /** What has been announced, and the block now being stored, is the kept blocks. */
  predicate Whole(s: State) {
    |s.blocks| == |s.kept| &&
    Selected(s.blocks, s.kept) == s.announced + if s.hw.Storing? then s.hw.all else []
  }

  function WakeUps(s: State): nat {
    (if s.required > 0 then 1 else 0) + (if s.inFlight then 1 else 0) + (if s.semaphore then 1 else 0)
  }

  predicate WillWake(c: Config, s: State) {
    && WakeUps(s) == (if s.blocked then 1 else 0)
    && (s.blocked ==> 0 < s.asked <= c.size && !s.app.Asking? && !s.app.Copying?)
    && (s.required > 0 ==> s.required == s.asked && Behind(c, s, s.asked))
    && (s.blocked && s.required == 0 ==> c.Promised(s.asked) <= Level(s))
    && (s.hw.Deciding? ==> s.required > 0)
  }

  ghost predicate Inv(c: Config, s: State) {
    Flows(c, s) && Knows(c, s) && Whole(s) && WillWake(c, s)
  }

  lemma LevelKnown(c: Config, s: State)
    requires Flows(c, s)
    ensures s.ring.Indexed() && |s.received| <= |s.announced|
    ensures s.ring.Available() == |s.announced| - |s.received|
    ensures s.ring.Free() == c.size - (|s.announced| - |s.received|)
  {
    hide Stores, Place;
    StoresBounds(s.ring, s.Stream(), |s.announced|, |s.received|, |s.Taken()|);
    LevelIsExact(s.ring, s.Stream(), |s.announced|, |s.received|, |s.Taken()|);
  }

  // ----- the application's steps -----

  /** What copying a chunk does to the state. */
  lemma CopyIs(c: Config, s: State, n: nat) returns (d: State)
    requires Enabled(c, s, Copy, true) && Knows(c, s) && s.ring.Indexed()
    requires n == Min(s.app.count - |s.app.got|, s.ring.Size() - s.ring.readIndex)
    ensures d == Do(c, s, Copy) && d == s.(ring := ChunkOut(s.ring, n), app := d.app)
    ensures d.app.Copying? && d.app.count == s.app.count && Knows(c, d)
    ensures d.Stream() == s.Stream()
    ensures d.Taken() == s.Taken() + s.ring.buf[s.ring.readIndex..s.ring.readIndex + n]
    ensures |s.Taken()| + n <= |s.announced|
  {
    hide ChunkOut, HwStep;
    d := Do(c, s, Copy);
  }

  lemma CopyKeeps(c: Config, s: State)
    requires c.Valid() && Enabled(c, s, Copy, true) && Inv(c, s)
    ensures Flows(c, Do(c, s, Copy)) && Knows(c, Do(c, s, Copy))
  {
    hide Stores, Place, Do, Whole, WillWake, Advanced, Knows, ChunkOut, Aligned;
    LevelKnown(c, s);
    var n := Min(s.app.count - |s.app.got|, s.ring.Size() - s.ring.readIndex);
    var d := CopyIs(c, s, n);
    ChunkOutStores(s.ring, n, s.Stream(), |s.announced|, |s.received|, |s.Taken()|);
    AnnouncedFirst(s);
    PrefixGrows(s.Taken(), s.announced, s.Stream(), n);
    SameSize(s.ring, n);
  }

  lemma AnnouncedFirst(s: State)
    ensures s.announced <= s.Stream()
  {}

  lemma SameSize(r: Ring, n: nat)
    requires r.Indexed() && r.readIndex + n <= r.Size()
    ensures ChunkOut(r, n).Size() == r.Size()
  {}

  lemma PrefixGrows(taken: seq<int>, announced: seq<int>, stream: seq<int>, n: nat)
    requires taken <= announced <= stream && |taken| + n <= |announced|
    ensures taken + stream[|taken|..|taken| + n] <= announced
  {}

  lemma FinishKeeps(c: Config, s: State)
    requires c.Valid() && Enabled(c, s, Finish, true) && Inv(c, s)
    ensures Flows(c, Do(c, s, Finish))
  {
    hide Stores, Place, HwStep, Whole, WillWake;
    var d := Do(c, s, Finish);
    assert d.Taken() == s.Taken() && d.Stream() == s.Stream();
    ReleaseStores(s.ring, s.app.count, s.Stream(), |s.announced|, |s.received|, |s.Taken()|);
  }

  /** The steps that leave the ring and the streams alone. */
  lemma OthersFlow(c: Config, s: State, d: State)
    requires Flows(c, s) && d.ring == s.ring && d.announced == s.announced && d.received == s.received
    requires d.Stream() == s.Stream() && d.Taken() == s.Taken()
    ensures Flows(c, d)
  {
    hide Stores;
  }

  lemma AppKeepsFlows(c: Config, s: State, step: Step)
    requires c.Valid() && Enabled(c, s, step, true) && IsAppStep(step) && Inv(c, s)
    ensures Flows(c, Do(c, s, step))
  {
    hide Flows, HwStep, Whole, WillWake;
    if step.Copy? {
      CopyKeeps(c, s);
    } else if step.Finish? {
      FinishKeeps(c, s);
    } else {
      OthersFlow(c, s, Do(c, s, step));
    }
  }

  lemma AppKnows(c: Config, s: State, step: Step)
    requires c.Valid() && Enabled(c, s, step, true) && IsAppStep(step) && Inv(c, s) && s.ring.Available() == Level(s)
    ensures Knows(c, Do(c, s, step))
  {
    hide HwStep, Selected, Flows, ChunkOut;
    if step.Copy? {
      CopyKeeps(c, s);
    }
  }

  lemma AppWakes(c: Config, s: State, step: Step)
    requires Enabled(c, s, step, true) && IsAppStep(step) && Knows(c, s) && WillWake(c, s)
    ensures WillWake(c, Do(c, s, step))
  {
    hide HwStep, ChunkOut, Release;
  }

  lemma AppKeepsWhole(c: Config, s: State, step: Step)
    requires Enabled(c, s, step, true) && IsAppStep(step) && Whole(s)
    ensures Whole(Do(c, s, step))
  {
    hide HwStep, ChunkOut, Release, Selected;
  }

  lemma AppKeeps(c: Config, s: State, step: Step)
    requires c.Valid() && Enabled(c, s, step, true) && IsAppStep(step) && Inv(c, s)
    ensures Inv(c, Do(c, s, step))
  {
    hide Do, Enabled, Flows, Knows, Whole, WillWake, IsAppStep;
    LevelKnown(c, s);
    AppKeepsFlows(c, s, step);
    AppKnows(c, s, step);
    AppWakes(c, s, step);
    AppKeepsWhole(c, s, step);
  }

  // ----- the other side's -----

  /** What storing a chunk does to the state. */
  lemma StoreIs(c: Config, s: State, chunk: seq<int>) returns (d: State)
    requires Enabled(c, s, Store, true) && Knows(c, s) && s.ring.Indexed()
    requires chunk == s.hw.rest[..Min(|s.hw.rest|, s.ring.Size() - s.ring.writeIndex)]
    ensures d == Do(c, s, Store) && d == s.(ring := ChunkIn(s.ring, chunk), hw := d.hw)
    ensures d.hw.Storing? && d.hw.all == s.hw.all && Knows(c, d)
    ensures d.Stream() == s.Stream() + chunk && |s.Stream()| + |chunk| <= |s.received| + c.size
  {
    hide ChunkIn, Do, Knows;
    StoringKnown(c, s);
    d := StoreDoes(c, s, chunk);
    StoreKnows(c, s, chunk, d);
    StoreExtends(s, chunk, d);
  }

  lemma StoringKnown(c: Config, s: State)
    requires Knows(c, s) && s.hw.Storing?
    ensures |s.hw.rest| <= |s.hw.all| && s.hw.rest == s.hw.all[|s.hw.all| - |s.hw.rest|..]
    ensures |s.hw.all| == c.block && |s.announced| + c.block <= |s.received| + c.size
  {}

  lemma StoreKnows(c: Config, s: State, chunk: seq<int>, d: State)
    requires Knows(c, s) && s.hw.Storing? && |chunk| <= |s.hw.rest| && |chunk| <= s.ring.Size()
    requires s.ring.Indexed() && s.ring.writeIndex + |chunk| <= s.ring.Size()
    requires d == s.(ring := ChunkIn(s.ring, chunk), hw := Storing(s.hw.rest[|chunk|..], s.hw.all))
    ensures Knows(c, d)
  {
    SuffixMoves(s.hw.all, s.hw.rest, |chunk|);
    hide Overwritten;
  }

  lemma StoreExtends(s: State, chunk: seq<int>, d: State)
    requires s.hw.Storing? && |s.hw.rest| <= |s.hw.all| && s.hw.rest == s.hw.all[|s.hw.all| - |s.hw.rest|..]
    requires chunk <= s.hw.rest
    requires d.hw == Storing(s.hw.rest[|chunk|..], s.hw.all) && d.announced == s.announced
    ensures d.Stream() == s.Stream() + chunk
  {
    SuffixMoves(s.hw.all, s.hw.rest, |chunk|);
    assert s.announced + (s.hw.all[..|s.hw.all| - |s.hw.rest|] + chunk) == s.Stream() + chunk;
  }

  lemma StoreDoes(c: Config, s: State, chunk: seq<int>) returns (d: State)
    requires s.hw.Storing? && s.ring.Indexed()
    requires chunk == s.hw.rest[..Min(|s.hw.rest|, s.ring.Size() - s.ring.writeIndex)]
    ensures d == Do(c, s, Store)
    ensures d == s.(ring := ChunkIn(s.ring, chunk), hw := Storing(s.hw.rest[|chunk|..], s.hw.all))
  {
    hide ChunkIn, AppStep;
    d := Do(c, s, Store);
  }

  lemma StoreKeeps(c: Config, s: State)
    requires c.Valid() && Enabled(c, s, Store, true) && Inv(c, s)
    ensures Inv(c, Do(c, s, Store))
  {
    hide Stores, Place, Do, Knows, Selected, Overwritten;
    LevelKnown(c, s);
    var chunk := s.hw.rest[..Min(|s.hw.rest|, s.ring.Size() - s.ring.writeIndex)];
    var d := StoreIs(c, s, chunk);
    ChunkInStores(s.ring, chunk, s.Stream(), |s.announced|, |s.received|, |s.Taken()|);
  }

  lemma AnnounceIs(c: Config, s: State) returns (d: State)
    requires Enabled(c, s, Announce, true) && Knows(c, s) && Whole(s) && 0 <= Level(s)
    ensures d == Do(c, s, Announce) && d.ring == Publish(s.ring, |s.hw.all|)
    ensures d.announced == s.announced + s.hw.all == s.Stream() == d.Stream()
    ensures d.received == s.received && d.Taken() == s.Taken()
    ensures Knows(c, d) && Whole(d) && (WillWake(c, s) ==> WillWake(c, d))
  {
    hide Publish, AppStep, Selected;
    d := Do(c, s, Announce);
  }

  lemma AnnounceKeeps(c: Config, s: State)
    requires c.Valid() && Enabled(c, s, Announce, true) && Inv(c, s)
    ensures Inv(c, Do(c, s, Announce))
  {
    hide Stores, Place, Do, Whole, WillWake, Knows;
    LevelKnown(c, s);
    var d := AnnounceIs(c, s);
    PublishStores(s.ring, |s.hw.all|, s.Stream(), |s.announced|, |s.received|, |s.Taken()|);
  }

  lemma SelectedExtends(blocks: seq<seq<int>>, kept: seq<bool>, block: seq<int>, keep: bool)
    requires |blocks| == |kept|
    ensures Selected(blocks + [block], kept + [keep]) == Selected(blocks, kept) + if keep then block else []
  {
    assert (blocks + [block])[..|blocks|] == blocks && (kept + [keep])[..|kept|] == kept;
  }

  lemma HwKeeps(c: Config, s: State, step: Step)
    requires c.Valid() && Enabled(c, s, step, true) && !IsAppStep(step) && Inv(c, s)
    ensures Inv(c, Do(c, s, step))
  {
    hide Stores, Place, AppStep, Selected;
    LevelKnown(c, s);
    if step.Store? {
      StoreKeeps(c, s);
    } else if step.Announce? {
      AnnounceKeeps(c, s);
    } else {
      var d := Do(c, s, step);
      assert d.Stream() == s.Stream() && d.Taken() == s.Taken();
      if step.Deliver? {
        SelectedExtends(s.blocks, s.kept, step.block, |step.block| <= s.ring.Free());
      }
    }
  }

  // ----- whole runs -----

  lemma {:induction false} RunsKeepInv(c: Config, filler: seq<int>, steps: seq<Step>)
    requires c.Valid() && |filler| == c.size && Runs(c, Init(c, filler), steps, true)
    ensures Inv(c, After(c, Init(c, filler), steps))
    decreases |steps|
  {
    hide Enabled, Do, Stores;
    if steps == [] {
      EmptyStores(c.size, filler);
    } else {
      hide Inv, Init;
      var step := steps[|steps| - 1];
      var s := After(c, Init(c, filler), steps[..|steps| - 1]);
      RunsKeepInv(c, filler, steps[..|steps| - 1]);
      if IsAppStep(step) {
        AppKeeps(c, s, step);
      } else {
        HwKeeps(c, s, step);
      }
    }
  }

  // ----- what was delivered and asked for -----

  /** The blocks delivered. */
  function Delivered(steps: seq<Step>): seq<seq<int>> {
    if steps == [] then []
    else
      var n := |steps| - 1;
      Delivered(steps[..n]) + if steps[n].Deliver? then [steps[n].block] else []
  }

  /** How many words the last call asked for. */
  function LastCall(steps: seq<Step>): nat {
    if steps == [] then 0
    else
      var n := |steps| - 1;
      if steps[n].Call? then steps[n].count else LastCall(steps[..n])
  }

  /** How many words the last call that found too few asked for. */
  function LastAsked(steps: seq<Step>): nat {
    if steps == [] then 0
    else
      var n := |steps| - 1;
      if steps[n].Ask? then LastCall(steps[..n]) else LastAsked(steps[..n])
  }

  /** The words that all completed calls asked for. */
  function WordsReturned(steps: seq<Step>): nat {
    if steps == [] then 0
    else
      var n := |steps| - 1;
      WordsReturned(steps[..n]) + if steps[n].Finish? then LastCall(steps[..n]) else 0
  }

  /** The words in all blocks that have been announced. */
  function WordsAnnounced(c: Config, steps: seq<Step>): nat {
    if steps == [] then 0
    else
      var n := |steps| - 1;
      WordsAnnounced(c, steps[..n]) + if steps[n].Announce? then c.block else 0
  }

  /** Which blocks are kept: those that fit on top of the level at the time. */
  function Kept(c: Config, steps: seq<Step>): (r: seq<bool>)
    ensures |r| == |Delivered(steps)|
  {
    if steps == [] then []
    else
      var n := |steps| - 1;
      var level := WordsAnnounced(c, steps[..n]) - WordsReturned(steps[..n]);
      Kept(c, steps[..n]) + if steps[n].Deliver? then [level + c.block <= c.size] else []
  }

  lemma HistoryGrows(c: Config, steps: seq<Step>, step: Step)
    ensures var all := steps + [step];
      && Delivered(all) == Delivered(steps) + (if step.Deliver? then [step.block] else [])
      && LastCall(all) == (if step.Call? then step.count else LastCall(steps))
      && LastAsked(all) == (if step.Ask? then LastCall(steps) else LastAsked(steps))
      && WordsReturned(all) == WordsReturned(steps) + (if step.Finish? then LastCall(steps) else 0)
      && WordsAnnounced(c, all) == WordsAnnounced(c, steps) + (if step.Announce? then c.block else 0)
      && Kept(c, all) == Kept(c, steps) +
           (if step.Deliver? then [WordsAnnounced(c, steps) - WordsReturned(steps) + c.block <= c.size] else [])
  {
    assert (steps + [step])[..|steps|] == steps;
  }

  /** The blocks and the call under way are those of the steps. */
  predicate Agrees(s: State, steps: seq<Step>) {
    && s.blocks == Delivered(steps) && (s.blocked ==> s.asked == LastAsked(steps))
    && (s.app.Idle? || s.app.count == LastCall(steps))
  }

  lemma AppAgrees(c: Config, s: State, steps: seq<Step>, step: Step, disciplined: bool)
    requires Enabled(c, s, step, disciplined) && Agrees(s, steps) && IsAppStep(step)
    ensures Agrees(Do(c, s, step), steps + [step])
  {
    hide ChunkOut, Release, HwStep, Aligned, Delivered, LastCall, LastAsked, Kept, WordsReturned, WordsAnnounced;
    HistoryGrows(c, steps, step);
  }

  lemma HwAgrees(c: Config, s: State, steps: seq<Step>, step: Step)
    requires Agrees(s, steps) && !IsAppStep(step)
    ensures Agrees(Do(c, s, step), steps + [step])
  {
    hide ChunkIn, Publish, AppStep, Delivered, LastCall, LastAsked, Kept, WordsReturned, WordsAnnounced;
    HistoryGrows(c, steps, step);
  }

  /** In every run, disciplined or not. */
  lemma {:induction false} HistoryIsCalled(c: Config, filler: seq<int>, steps: seq<Step>, disciplined: bool)
    requires |filler| == c.size && Runs(c, Init(c, filler), steps, disciplined)
    ensures Agrees(After(c, Init(c, filler), steps), steps)
    decreases |steps|
  {
    hide Enabled, Do;
    if steps != [] {
      hide Init, Agrees;
      var init, step := steps[..|steps| - 1], steps[|steps| - 1];
      var s := After(c, Init(c, filler), init);
      HistoryIsCalled(c, filler, init, disciplined);
      assert init + [step] == steps;
      if IsAppStep(step) {
        AppAgrees(c, s, init, step, disciplined);
      } else {
        HwAgrees(c, s, init, step);
      }
    }
  }

  /** The level and the choice of blocks are those of the steps. */
  predicate LevelAgrees(c: Config, s: State, steps: seq<Step>) {
    |s.announced| == WordsAnnounced(c, steps) && |s.received| == WordsReturned(steps) && s.kept == Kept(c, steps)
  }

  lemma StepKeepsLevel(c: Config, s: State, steps: seq<Step>, step: Step)
    requires c.Valid() && Enabled(c, s, step, true) && Agrees(s, steps) && LevelAgrees(c, s, steps)
    requires Knows(c, s) && s.ring.Free() == c.size - Level(s)
    ensures LevelAgrees(c, Do(c, s, step), steps + [step])
  {
    hide ChunkIn, ChunkOut, Publish, Release, Aligned, Delivered, LastCall, LastAsked, Kept, WordsReturned,
      WordsAnnounced, Ring.Available;
    HistoryGrows(c, steps, step);
  }

  lemma {:induction false} LevelIsCalled(c: Config, filler: seq<int>, steps: seq<Step>)
    requires c.Valid() && |filler| == c.size && Runs(c, Init(c, filler), steps, true)
    ensures LevelAgrees(c, After(c, Init(c, filler), steps), steps)
    decreases |steps|
  {
    hide Enabled, Do;
    if steps != [] {
      hide Init, Agrees, LevelAgrees, Knows, Flows, Whole, WillWake, Delivered, Kept, WordsReturned, WordsAnnounced,
        LastCall, LastAsked, Stores, Place;
      var init, step := steps[..|steps| - 1], steps[|steps| - 1];
      var s := After(c, Init(c, filler), init);
      LevelIsCalled(c, filler, init);
      HistoryIsCalled(c, filler, init, true);
      RunsKeepInv(c, filler, init);
      LevelKnown(c, s);
      assert init + [step] == steps;
      StepKeepsLevel(c, s, init, step);
    }
  }

  /** In every interleaving the words received are the first of those in the kept blocks, as many as
      the completed calls asked for. The kept blocks are whole ones of those delivered, in order: the
      ones that fit on top of the level when they came. The totals tell the true level, and no wake-up
      is lost or duplicated. */
  lemma BlocksArriveWhole(c: Config, filler: seq<int>, steps: seq<Step>)
    requires c.Valid() && |filler| == c.size && Runs(c, Init(c, filler), steps, true)
    ensures var s := After(c, Init(c, filler), steps);
      && s.Taken() <= s.announced <= Selected(Delivered(steps), Kept(c, steps))
      && s.received <= s.Taken() && |s.received| == WordsReturned(steps)
      && |s.announced| == WordsAnnounced(c, steps)
      && s.ring.Available() == WordsAnnounced(c, steps) - WordsReturned(steps) <= c.size
      && WakeUps(s) == (if s.blocked then 1 else 0)
  {
    hide Init, Enabled, Do, Stores, Selected, Delivered, Kept, WordsReturned, WordsAnnounced, LastCall, LastAsked;
    RunsKeepInv(c, filler, steps);
    HistoryIsCalled(c, filler, steps, true);
    LevelIsCalled(c, filler, steps);
    var s := After(c, Init(c, filler), steps);
    LevelKnown(c, s);
    StoresBounds(s.ring, s.Stream(), |s.announced|, |s.received|, |s.Taken()|);
  }

  /** A call that is not a retry copies at once exactly if there are enough words. */
  lemma CopiesIfThereAre(c: Config, filler: seq<int>, steps: seq<Step>, count: nat)
    requires c.Valid() && |filler| == c.size && Runs(c, Init(c, filler), steps, true)
    requires Enabled(c, After(c, Init(c, filler), steps), Call(count), true)
    ensures var s := After(c, Init(c, filler), steps); !s.blocked ==>
      (Do(c, s, Call(count)).app.Copying? <==> count <= WordsAnnounced(c, steps) - WordsReturned(steps))
  {
    hide Init, After, Runs, Stores, WordsReturned, WordsAnnounced, Knows, Whole, WillWake, Kept;
    RunsKeepInv(c, filler, steps);
    LevelIsCalled(c, filler, steps);
    LevelKnown(c, After(c, Init(c, filler), steps));
  }

  // ----- does a waiting application get its words? -----

  /** The level that blocks, each stored whole or dropped, can bring the buffer to. */
  function Peak(c: Config, level: nat): int
    requires c.Valid()
  {
    level + (c.size - level) / c.block * c.block
  }

  lemma PeakStays(c: Config, level: nat)
    requires c.Valid() && level <= c.size
    ensures level <= Peak(c, level) <= c.size
    ensures level + c.block <= c.size ==> Peak(c, level + c.block) == Peak(c, level)
    ensures level + c.block > c.size ==> Peak(c, level) == level
  {
    var room := c.size - level;
    Arith.DivMod(room, c.block);
    Arith.MulMonotone(0, room / c.block, c.block);
    if c.block <= room {
      Arith.DivModUnique(room - c.block, c.block, room / c.block - 1, room % c.block);
    } else {
      Arith.SmallMod(room, c.block);
    }
  }

  /** The application waits for its request to be granted, between two deliveries. */
  ghost predicate Waits(c: Config, s: State) {
    Inv(c, s) && s.app.Getting? && s.hw.Rest? && s.required > 0
  }

  /** Steps of the delivering side only. */
  predicate Deliveries(steps: seq<Step>) {
    forall i | 0 <= i < |steps| :: !IsAppStep(steps[i])
  }

  ghost predicate Woken(c: Config, s: State, steps: seq<Step>) {
    Deliveries(steps) && Runs(c, s, steps, true) && After(c, s, steps).semaphore
  }

  /** The application still waits, and the level and the block being stored stay below the peak. */
  ghost predicate Starves(c: Config, s: State, required: nat, peak: int)
    requires c.Valid()
  {
    && Inv(c, s) && s.app.Getting? && s.required == required > peak
    && 0 <= Rising(s) <= c.size && Peak(c, Rising(s)) == peak
  }

  /** The level, counting a block that is being stored. */
  function Rising(s: State): int {
    Level(s) + if s.hw.Storing? then |s.hw.all| else 0
  }

  /** A request above the level is not granted, and the level only rises by whole blocks. */
  lemma LevelRises(c: Config, s: State, step: Step, d: State)
    requires c.Valid() && (s.hw.Storing? ==> |s.hw.all| == c.block)
    requires s.ring.Available() == Level(s) && s.ring.Free() == c.size - Level(s) && Level(s) < s.required
    requires Enabled(c, s, step, true) && !IsAppStep(step) && d == HwStep(c, s, step)
    ensures d.app == s.app && d.required == s.required
    ensures Rising(d) == Rising(s) || (Rising(d) == Rising(s) + c.block <= c.size)
  {
    hide ChunkIn, Publish;
  }

  lemma StarvesOn(c: Config, s: State, step: Step, required: nat, peak: int)
    requires c.Valid() && Starves(c, s, required, peak) && Enabled(c, s, step, true) && !IsAppStep(step)
    ensures Starves(c, Do(c, s, step), required, peak)
  {
    hide AppStep, HwStep, Peak, Inv, Enabled;
    HwKeeps(c, s, step);
    LevelFromInv(c, s);
    BlockStored(c, s);
    PeakStays(c, Rising(s));
    LevelRises(c, s, step, Do(c, s, step));
  }

  lemma BlockStored(c: Config, s: State)
    requires Inv(c, s)
    ensures s.hw.Storing? ==> |s.hw.all| == c.block
  {
    hide Flows, Whole, WillWake;
  }

  lemma {:induction false} NeverWoken(c: Config, s: State, steps: seq<Step>)
    requires c.Valid() && Waits(c, s) && s.required > Peak(c, Level(s))
    requires 0 <= Level(s) && Deliveries(steps) && Runs(c, s, steps, true)
    ensures Starves(c, After(c, s, steps), s.required, Peak(c, Level(s)))
    decreases |steps|
  {
    hide Flows, Whole, Knows, Do, Peak, Enabled;
    if steps == [] {
      LevelKnown(c, s);
    } else {
      NeverWoken(c, s, steps[..|steps| - 1]);
      hide Starves, Inv;
      StarvesOn(c, After(c, s, steps[..|steps| - 1]), steps[|steps| - 1], s.required, Peak(c, Level(s)));
    }
  }

  // ----- building runs -----

  lemma LevelFromInv(c: Config, s: State)
    requires Inv(c, s)
    ensures 0 <= Level(s) && s.ring.Available() == Level(s) && s.ring.Free() == c.size - Level(s)
  {
    hide Stores, Place;
    LevelKnown(c, s);
  }

  lemma Goes(c: Config, i: State, steps: seq<Step>, step: Step, disciplined: bool) returns (r: seq<Step>, t: State)
    requires Runs(c, i, steps, disciplined) && Enabled(c, After(c, i, steps), step, disciplined)
    ensures r == steps + [step] && Runs(c, i, r, disciplined)
    ensures After(c, i, r) == t == Do(c, After(c, i, steps), step)
  {
    hide Enabled, Do;
    r := steps + [step];
    assert r[..|r| - 1] == steps;
    t := Do(c, After(c, i, steps), step);
  }

  lemma GoesOn(c: Config, i: State, steps: seq<Step>, step: Step) returns (r: seq<Step>, t: State)
    requires c.Valid() && Runs(c, i, steps, true) && Inv(c, After(c, i, steps))
    requires Enabled(c, After(c, i, steps), step, true)
    ensures r == steps + [step] && Runs(c, i, r, true)
    ensures After(c, i, r) == t == Do(c, After(c, i, steps), step) && Inv(c, t)
    ensures Deliveries(steps) && !IsAppStep(step) ==> Deliveries(r)
  {
    hide Enabled, Do, Inv;
    r, t := Goes(c, i, steps, step, true);
    if IsAppStep(step) {
      AppKeeps(c, After(c, i, steps), step);
    } else {
      HwKeeps(c, After(c, i, steps), step);
    }
  }

  /** What a delivery leaves alone, up to the check of the request. */
  predicate SameBut(s: State, t: State) {
    && t.app == s.app && t.required == s.required && t.blocked == s.blocked && t.asked == s.asked
    && t.received == s.received && t.semaphore == s.semaphore && t.inFlight == s.inFlight
  }

  lemma {:induction false} StoresBlock(c: Config, i: State, steps: seq<Step>) returns (r: seq<Step>, t: State)
    requires c.Valid() && Runs(c, i, steps, true) && Inv(c, After(c, i, steps))
    requires After(c, i, steps).hw.Storing?
    ensures Runs(c, i, r, true) && After(c, i, r) == t && Inv(c, t) && (Deliveries(steps) ==> Deliveries(r))
    ensures t.hw.Storing? && t.hw.rest == [] && t.hw.all == After(c, i, steps).hw.all
    ensures SameBut(After(c, i, steps), t) && t.announced == After(c, i, steps).announced
    decreases |After(c, i, steps).hw.rest|
  {
    hide Deliveries, Runs, After, AppStep, Flows, Whole, WillWake, ChunkIn;
    var u := After(c, i, steps);
    if u.hw.rest == [] {
      r, t := steps, u;
    } else {
      LevelKnown(c, u);
      r, t := GoesOn(c, i, steps, Store);
      r, t := StoresBlock(c, i, r);
    }
  }

  /** One delivery, up to the check of the request. */
  lemma DeliversBlock(c: Config, i: State, steps: seq<Step>) returns (r: seq<Step>, t: State)
    requires c.Valid() && Runs(c, i, steps, true) && Inv(c, After(c, i, steps)) && After(c, i, steps).hw.Rest?
    ensures Runs(c, i, r, true) && After(c, i, r) == t && Inv(c, t) && (Deliveries(steps) ==> Deliveries(r))
    ensures t.hw.Testing? && SameBut(After(c, i, steps), t)
    ensures var l := Level(After(c, i, steps)); Level(t) == if l + c.block <= c.size then l + c.block else l
  {
    hide Deliveries, Runs, After, AppStep, Inv, Selected;
    var u := After(c, i, steps);
    LevelFromInv(c, u);
    r, t := GoesOn(c, i, steps, Deliver(seq(c.block, _ => 0)));
    if t.hw.Storing? {
      r, t := StoresBlock(c, i, r);
      r, t := GoesOn(c, i, r, Announce);
    }
  }

  lemma {:induction false} IsWoken(c: Config, s: State, steps: seq<Step>) returns (r: seq<Step>)
    requires c.Valid() && Deliveries(steps) && Runs(c, s, steps, true) && Waits(c, After(c, s, steps))
    requires 0 <= Level(After(c, s, steps))
    requires After(c, s, steps).required <= Peak(c, Level(After(c, s, steps)))
    ensures Woken(c, s, r)
    decreases c.size - Level(After(c, s, steps))
  {
    hide Deliveries, Runs, After, AppStep, Flows, Whole, Knows, Peak;
    var u := After(c, s, steps);
    LevelKnown(c, u);
    PeakStays(c, Level(u));
    var t: State;
    r, t := DeliversBlock(c, s, steps);
    LevelKnown(c, t);
    r, t := GoesOn(c, s, r, Test);
    r, t := GoesOn(c, s, r, Decide);
    if t.inFlight {
      r, t := GoesOn(c, s, r, Interrupt);
    }
    if !t.semaphore {
      assert Waits(c, t) && Level(t) == Level(u) + c.block;
      LevelKnown(c, t);
      r := IsWoken(c, s, r);
    }
  }

  /** A request is not necessarily met, although any number of words up to the size of the
      buffer may be asked for: a block is dropped when it does not fit whole. The interrupt can
      wake a waiting application exactly if whole blocks fill the buffer up to its request. */
  lemma WokenIff(c: Config, s: State)
    requires c.Valid() && Waits(c, s) && 0 <= Level(s)
    ensures (exists steps: seq<Step> :: Woken(c, s, steps)) <==> s.required <= Peak(c, Level(s))
  {
    hide Peak, Flows, Whole, Knows;
    if s.required <= Peak(c, Level(s)) {
      var r := IsWoken(c, s, []);
    } else {
      forall steps: seq<Step> ensures !Woken(c, s, steps) {
        if Deliveries(steps) && Runs(c, s, steps, true) {
          NeverWoken(c, s, steps);
        }
      }
    }
  }

  /** The first call after the start waits for ever if it asks for more than the whole blocks that
      the buffer holds. */
  lemma FirstCallStarves(c: Config, filler: seq<int>, asked: nat)
    requires c.Valid() && |filler| == c.size && Aligned(asked, c.frame) && Peak(c, 0) < asked <= c.size
    ensures var steps := [Call(asked), Ask];
      && Runs(c, Init(c, filler), steps, true) && Waits(c, After(c, Init(c, filler), steps))
      && !exists more: seq<Step> :: Woken(c, After(c, Init(c, filler), steps), more)
  {
    hide Peak, Runs, After, Flows, Whole, Knows, Woken, HwStep;
    var i := Init(c, filler);
    var none: seq<Step> := [];
    Started(c, filler);
    PeakStays(c, 0);
    LevelKnown(c, i);
    var r, t := GoesOn(c, i, none, Call(asked));
    r, t := GoesOn(c, i, r, Ask);
    assert r == [Call(asked), Ask];
    LevelKnown(c, t);
    WokenIff(c, t);
  }

  lemma Started(c: Config, filler: seq<int>)
    requires c.Valid() && |filler| == c.size
    ensures Runs(c, Init(c, filler), [], true) && After(c, Init(c, filler), []) == Init(c, filler)
    ensures Inv(c, Init(c, filler)) && Resting(c, Init(c, filler), 0) && Aligned(0, c.frame)
  {
    hide Stores;
    RunsKeepInv(c, filler, []);
  }

  /** A buffer of 1.2 blocks, with frames of one word: it holds one block, and never six words. */
  lemma StarvingExample(filler: seq<int>)
    requires |filler| == 6
    ensures var c := Config(6, 5, 1, true); var steps := [Call(6), Ask];
      Runs(c, Init(c, filler), steps, true) && Waits(c, After(c, Init(c, filler), steps)) &&
      !exists more: seq<Step> :: Woken(c, After(c, Init(c, filler), steps), more)
  {
    FirstCallStarves(Config(6, 5, 1, true), filler, 6);
  }

  // ----- calls after a timeout -----

  /** In every run, when a call for asked words has timed out and then been woken, count words
      are there. */
  ghost predicate RetryHasWords(c: Config, asked: nat, count: nat) {
    forall filler: seq<int>, steps: seq<Step> |
      |filler| == c.size && Runs(c, Init(c, filler), steps, true) && TimedOutWoken(c, filler, steps, asked) ::
      count <= Level(After(c, Init(c, filler), steps))
  }

  predicate TimedOutWoken(c: Config, filler: seq<int>, steps: seq<Step>, asked: nat)
    requires |filler| == c.size
  {
    var s := After(c, Init(c, filler), steps);
    s.app.Idle? && s.blocked && s.semaphore && LastAsked(steps) == asked
  }

  /** Between calls and deliveries, with no request. */
  ghost predicate Resting(c: Config, s: State, level: nat) {
    Inv(c, s) && s.app.Idle? && s.hw.Rest? && !s.blocked && Level(s) == level
  }

  /** Blocks are delivered until the level reaches level, at least. */
  lemma {:induction false} FillsUp(c: Config, i: State, steps: seq<Step>, at: nat, level: nat)
    returns (r: seq<Step>, l: nat)
    requires c.Valid() && Runs(c, i, steps, true) && Resting(c, After(c, i, steps), at)
    requires Aligned(at, c.frame) && level + c.block <= c.size
    ensures Runs(c, i, r, true) && Resting(c, After(c, i, r), l) && level <= l && Aligned(l, c.frame)
    decreases level - at
  {
    hide Runs, After, AppStep, Flows, Whole, Knows, Aligned;
    if level <= at {
      r, l := steps, at;
    } else {
      var t: State;
      r, t := DeliversBlock(c, i, steps);
      r, t := GoesOn(c, i, r, Test);
      AlignedSum(at, c.block, c.frame);
      r, l := FillsUp(c, i, r, at + c.block, level);
    }
  }

  /** A call copies what it asked for. */
  lemma {:induction false} CopiesAll(c: Config, i: State, steps: seq<Step>) returns (r: seq<Step>, t: State)
    requires c.Valid() && Runs(c, i, steps, true) && Inv(c, After(c, i, steps)) && After(c, i, steps).app.Copying?
    ensures Runs(c, i, r, true) && After(c, i, r) == t && Inv(c, t)
    ensures t.app.Copying? && t.app.count == After(c, i, steps).app.count == |t.app.got|
    ensures t == After(c, i, steps).(app := t.app, ring := t.ring)
    decreases After(c, i, steps).app.count - |After(c, i, steps).app.got|
  {
    hide Runs, After, HwStep, Flows, Whole, WillWake, ChunkOut;
    var u := After(c, i, steps);
    if |u.app.got| == u.app.count {
      r, t := steps, u;
    } else {
      LevelKnown(c, u);
      r, t := GoesOn(c, i, steps, Copy);
      r, t := CopiesAll(c, i, r);
    }
  }

  /** The level is brought down to level by a call for the rest. */
  lemma ReadsDown(c: Config, i: State, steps: seq<Step>, at: nat, level: nat) returns (r: seq<Step>)
    requires c.Valid() && Runs(c, i, steps, true) && Resting(c, After(c, i, steps), at)
    requires level <= at && Aligned(at, c.frame) && Aligned(level, c.frame)
    ensures Runs(c, i, r, true) && Resting(c, After(c, i, r), level)
  {
    hide Runs, After, HwStep, Flows, Whole, Aligned;
    var t: State;
    LevelKnown(c, After(c, i, steps));
    AlignedSum(at, level, c.frame);
    r, t := GoesOn(c, i, steps, Call(at - level));
    r, t := CopiesAll(c, i, r);
    r, t := GoesOn(c, i, r, Finish);
  }

  /** A call for more words than there are times out. */
  lemma TimesOut(c: Config, i: State, steps: seq<Step>, level: nat, asked: nat) returns (r: seq<Step>, t: State)
    requires c.Valid() && Runs(c, i, steps, true) && Resting(c, After(c, i, steps), level)
    requires Aligned(asked, c.frame) && level < asked <= c.size
    ensures Runs(c, i, r, true) && t == After(c, i, r) && Inv(c, t) && t.hw.Rest?
    ensures t.app.Idle? && t.blocked && t.required == t.asked == asked && Level(t) == level
    ensures !t.semaphore && !t.inFlight
  {
    hide Runs, After, Flows, Whole, Aligned, HwStep;
    LevelKnown(c, After(c, i, steps));
    r, t := GoesOn(c, i, steps, Call(asked));
    r, t := GoesOn(c, i, r, Ask);
    r, t := GoesOn(c, i, r, TimeOut);
  }

  /** One block grants its request, and the semaphore is put. */
  lemma IsGranted(c: Config, i: State, steps: seq<Step>, level: nat) returns (r: seq<Step>, t: State)
    requires c.Valid() && Runs(c, i, steps, true)
    requires var s := After(c, i, steps);
      Inv(c, s) && s.hw.Rest? && s.app.Idle? && s.blocked && s.required == s.asked && Level(s) == level &&
      0 < s.asked <= level + c.block <= c.size
    ensures Runs(c, i, r, true) && t == After(c, i, r) && Inv(c, t)
    ensures t.app.Idle? && t.blocked && t.semaphore && t.asked == After(c, i, steps).asked
    ensures Level(t) == level + c.block
  {
    hide Runs, After, Inv, Aligned, AppStep;
    r, t := DeliversBlock(c, i, steps);
    LevelFromInv(c, t);
    r, t := GoesOn(c, i, r, Test);
    r, t := GoesOn(c, i, r, Decide);
    if t.inFlight {
      r, t := GoesOn(c, i, r, Interrupt);
    }
  }

  /** A run that ends with just the promised words there. */
  lemma JustPromised(c: Config, filler: seq<int>, asked: nat) returns (r: seq<Step>, t: State)
    requires c.Valid() && |filler| == c.size && 0 < asked <= c.size && Aligned(asked, c.frame)
    ensures Runs(c, Init(c, filler), r, true) && t == After(c, Init(c, filler), r) && Inv(c, t)
    ensures TimedOutWoken(c, filler, r, asked) && Level(t) == c.Promised(asked)
  {
    hide Runs, After, Aligned, Inv, Init, Resting, LastAsked;
    var i := Init(c, filler);
    Started(c, filler);
    r := [];
    var level: nat := 0;
    if c.block < asked {
      level := asked - c.block;
      AlignedSum(asked, c.block, c.frame);
      var l: nat;
      r, l := FillsUp(c, i, r, 0, level);
      r := ReadsDown(c, i, r, l, level);
    }
    r, t := TimesOut(c, i, r, level, asked);
    r, t := IsGranted(c, i, r, level);
    HistoryIsCalled(c, filler, r, true);
  }

  /** The call after a timeout does not look at what is there. In every run it gets words that
      have been received, if and only if it asks for no more than the call that timed out or a
      block, whichever is more: once woken there is at least that. */
  lemma RetryHasWordsIff(c: Config, asked: nat, count: nat)
    requires c.Valid() && 0 < asked <= c.size && Aligned(asked, c.frame)
    ensures RetryHasWords(c, asked, count) <==> count <= c.Promised(asked)
  {
    hide Runs, After, Init, Flows, Knows, Whole;
    if count <= c.Promised(asked) {
      forall filler: seq<int>, steps: seq<Step> |
        |filler| == c.size && Runs(c, Init(c, filler), steps, true) && TimedOutWoken(c, filler, steps, asked)
        ensures count <= Level(After(c, Init(c, filler), steps))
      {
        RunsKeepInv(c, filler, steps);
        HistoryIsCalled(c, filler, steps, true);
      }
    } else {
      hide WillWake, TimedOutWoken;
      var filler := seq(c.size, _ => 0);
      var r, t := JustPromised(c, filler, asked);
    }
  }

  lemma {:induction false} Relaxed(c: Config, s: State, steps: seq<Step>)
    requires Runs(c, s, steps, true)
    ensures Runs(c, s, steps, false)
    decreases |steps|
  {
    hide After;
    if steps != [] {
      Relaxed(c, s, steps[..|steps| - 1]);
    }
  }

  /** The copying loop goes on whatever is in the buffer. */
  lemma {:induction false} CopiesAnything(c: Config, i: State, steps: seq<Step>) returns (r: seq<Step>, t: State)
    requires Runs(c, i, steps, false) && After(c, i, steps).app.Copying? && After(c, i, steps).ring.Indexed()
    ensures Runs(c, i, r, false) && After(c, i, r) == t
    ensures t.app.Copying? && After(c, i, steps).app.count <= |t.app.got|
    ensures t == After(c, i, steps).(app := t.app, ring := t.ring)
    decreases After(c, i, steps).app.count - |After(c, i, steps).app.got|
  {
    hide Runs, After, HwStep;
    var u := After(c, i, steps);
    if u.app.count <= |u.app.got| {
      r, t := steps, u;
    } else {
      r, t := Goes(c, i, steps, Copy, false);
      r, t := CopiesAnything(c, i, r);
    }
  }

  /** For every call after a timeout that asks for more than that, there is a run in which it
      returns words that have not been received. */
  lemma LongerRetryReadsTooMuch(c: Config, filler: seq<int>, asked: nat, count: nat)
    requires c.Valid() && |filler| == c.size && 0 < asked <= c.size && Aligned(asked, c.frame)
    requires c.Promised(asked) < count <= c.size && Aligned(count, c.frame)
    ensures exists steps: seq<Step> ::
      Runs(c, Init(c, filler), steps, false) &&
      !(After(c, Init(c, filler), steps).Taken() <= After(c, Init(c, filler), steps).announced)
  {
    hide Runs, After, HwStep, Init, Flows, Knows, Whole, Aligned;
    var r, t := JustPromised(c, filler, asked);
    LevelKnown(c, t);
    var i := Init(c, filler);
    Relaxed(c, i, r);
    r, t := Goes(c, i, r, Call(count), false);
    r, t := Goes(c, i, r, Wake, false);
    r, t := CopiesAnything(c, i, r);
    assert |t.Taken()| > |t.announced|;
  }
}
