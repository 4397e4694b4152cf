/** The request queue of the flash driver: any number of threads post reads, writes and
    erases, one thread carries them out. A step is one action of one of them. */
module FlashThread {
  import opened Basics
  import opened FlashSpec
  import opened FlashDriver

  const QUEUE_LENGTH: nat := 2

  /** A queue entry. A write holds the number of the heap buffer its data was copied to. */
  datatype Request =
    | ReadRequest(thread: nat, address: nat, len: nat)
    | WriteRequest(buffer: nat, address: nat)
    | EraseRequest(address: nat, len: nat)

  /** History: what was asked for, with a write's data as it was when the driver was called. */
  datatype Operation =
    | ReadOperation(thread: nat, address: nat, len: nat)
    | WriteOperation(buffer: nat, data: seq<byte>, address: nat)
    | EraseOperation(address: nat, len: nat)

  datatype Phase =
    | Ready                                                 // not inside a driver call
    | Copied(buffer: nat, address: nat, data: seq<byte>)    // write called with data, not queued yet
    | Waiting(index: nat)                                   // a read, operation number index

  /** A buffer from the heap; thread and use are history: who allocated it, and the number of
      the operation it was queued for. */
  datatype Cell = Cell(data: seq<byte>, frees: nat, thread: nat, use: Option<nat>)

  /** A completed read: the number of the operation and the data its caller found. */
  datatype Result = Result(index: nat, data: seq<byte>)

  datatype State = State(
    mem: seq<byte>,
    queue: seq<Request>,
    current: Option<Request>,             // taken from the queue by the driver thread
    filled: bool,                         // the current read has stored its data
    dataReady: nat,                       // the semaphore
    owner: Option<nat>,                   // the mutex
    phases: map<nat, Phase>,
    callerData: map<nat, seq<byte>>,      // the buffer each thread writes from
    callerDest: map<nat, seq<byte>>,      // and the one it reads to
    heap: seq<Cell>,
    log: seq<Operation>,                  // all operations, in the order they were queued
    done: nat,                            // how many of them are complete
    reader: Option<nat>,                  // the last thread that queued a read and has not taken its data
    results: seq<Result>)
  {
    function PhaseOf(t: nat): Phase {
      if t in phases then phases[t] else Ready
    }

    function DataOf(t: nat): seq<byte> {
      if t in callerData then callerData[t] else []
    }

    function DestOf(t: nat): seq<byte> {
      if t in callerDest then callerDest[t] else []
    }

    /** Requests not complete yet, oldest first. */
    function Pending(): seq<Request> {
      (if current.Some? then [current.value] else []) + queue
    }
  }

  function Init(mem: seq<byte>): State {
    State(mem, [], None, false, 0, None, map[], map[], map[], [], [], 0, None, [])
  }

  // ----- what the callers expect -----

  function Effect(g: Geometry, mem: seq<byte>, op: Operation): (r: seq<byte>)
    requires |g.sizeLog2| == 4
    ensures |r| == |mem|
  {
    match op
    case ReadOperation(_, _, _) => mem
    case WriteOperation(_, data, address) => Written(mem, address, data)
    case EraseOperation(address, len) => EraseEffect(mem, g, address, len)
  }

  /** The flash after a series of operations, in order. */
  function Contents(g: Geometry, mem: seq<byte>, ops: seq<Operation>): (r: seq<byte>)
    requires |g.sizeLog2| == 4
    ensures |r| == |mem|
  {
    if ops == [] then mem else Effect(g, Contents(g, mem, ops[..|ops| - 1]), ops[|ops| - 1])
  }

  function Slice(mem: seq<byte>, address: nat, len: nat): seq<byte> {
    if address + len <= |mem| then mem[address..address + len] else []
  }

  /** data is what operation number i, a read, has to return: the contents of its range after
      all operations queued before it, and no others. */
  ghost predicate ReadCorrectly(g: Geometry, mem: seq<byte>, log: seq<Operation>, i: nat, data: seq<byte>)
    requires |g.sizeLog2| == 4
  {
    i < |log| && log[i].ReadOperation? &&
    data == Slice(Contents(g, mem, log[..i]), log[i].address, log[i].len)
  }

  // ----- the steps -----

  datatype Step =
    | Lock(t: nat)
    | Unlock(t: nat)
    | CopyData(t: nat, address: nat)
    | QueueWrite(t: nat)
    | QueueErase(t: nat, address: nat, len: nat)
    | QueueRead(t: nat, address: nat, len: nat, dest: seq<byte>)
    | TakeData(t: nat)
    | ChangeData(t: nat, data: seq<byte>)
    | Receive
    | Execute
    | Signal

  /** request takes the mutex, which its caller may hold already, and waits for a free entry. */
  predicate MayQueue(s: State, t: nat) {
    (s.owner == None || s.owner == Some(t)) && |s.queue| < QUEUE_LENGTH
  }

  /** The threads that read, and those of them that do so without holding the lock that
      rtos_qspi_flash_lock provides. */
  datatype Readers = Readers(all: set<nat>, unlocked: set<nat>)
  {
    predicate Valid() {
      unlocked <= all
    }

    predicate Exclusive() {
      unlocked == {} || |all| <= 1
    }
  }

  /** A reader passes a buffer of the length it asks for, whatever it holds. A read past the end of
      the flash never completes. */
  predicate Enabled(g: Geometry, p: Readers, s: State, step: Step) {
    match step
    case Lock(t) => s.owner == None && s.PhaseOf(t) == Ready
    case Unlock(t) => s.owner == Some(t) && s.PhaseOf(t) == Ready
    case CopyData(t, _) => s.PhaseOf(t) == Ready
    case QueueWrite(t) => s.PhaseOf(t).Copied? && MayQueue(s, t)
    case QueueErase(t, _, _) => s.PhaseOf(t) == Ready && MayQueue(s, t)
    case QueueRead(t, _, len, dest) =>
      |dest| == len && s.PhaseOf(t) == Ready && MayQueue(s, t) &&
      t in p.all && (t !in p.unlocked ==> s.owner == Some(t))
    case TakeData(t) => s.PhaseOf(t).Waiting? && 0 < s.dataReady
    case ChangeData(_, _) => true
    case Receive => s.current == None && s.queue != []
    case Execute =>
      s.current.Some? && !s.filled &&
      (s.current.value.ReadRequest? ==> InFlash(g, ReadCursor(s.current.value.address, s.current.value.len)))
    case Signal => s.filled
  }

  function Buffer(s: State, buffer: nat): seq<byte> {
    if buffer < |s.heap| then s.heap[buffer].data else []
  }

  function Freed(s: State, buffer: nat): seq<Cell> {
    if buffer < |s.heap| then s.heap[buffer := s.heap[buffer].(frees := s.heap[buffer].frees + 1)] else s.heap
  }

  function Used(s: State, buffer: nat): seq<Cell> {
    if buffer < |s.heap| then s.heap[buffer := s.heap[buffer].(use := Some(|s.log|))] else s.heap
  }

  /** The driver thread carries out a request; the read's semaphore is signalled separately. */
  function Carried(g: Geometry, s: State, r: Request): State
    requires |g.sizeLog2| == 4
  {
    match r
    case ReadRequest(t, address, len) =>
      s.(callerDest := s.callerDest[t := Slice(s.mem, address, len)], filled := true)
    case WriteRequest(buffer, address) =>
      s.(mem := Written(s.mem, address, Buffer(s, buffer)), heap := Freed(s, buffer),
         current := None, done := s.done + 1)
    case EraseRequest(address, len) =>
      s.(mem := EraseEffect(s.mem, g, address, len), current := None, done := s.done + 1)
  }

  function Do(g: Geometry, s: State, step: Step): State
    requires |g.sizeLog2| == 4
  {
    match step
    case Lock(t) => s.(owner := Some(t))
    case Unlock(t) => s.(owner := None)
    case CopyData(t, address) =>
      s.(heap := s.heap + [Cell(s.DataOf(t), 0, t, None)],
         phases := s.phases[t := Copied(|s.heap|, address, s.DataOf(t))])
    case QueueWrite(t) =>
      (match s.PhaseOf(t)
       case Copied(buffer, address, data) =>
         s.(queue := s.queue + [WriteRequest(buffer, address)], heap := Used(s, buffer),
            phases := s.phases[t := Ready], log := s.log + [WriteOperation(buffer, data, address)])
       case _ => s)
    case QueueErase(t, address, len) =>
      s.(queue := s.queue + [EraseRequest(address, len)], log := s.log + [EraseOperation(address, len)])
    case QueueRead(t, address, len, dest) =>
      s.(queue := s.queue + [ReadRequest(t, address, len)], phases := s.phases[t := Waiting(|s.log|)],
         log := s.log + [ReadOperation(t, address, len)], reader := Some(t),
         callerDest := s.callerDest[t := dest])
    case TakeData(t) =>
      if s.PhaseOf(t).Waiting? && 0 < s.dataReady then
        s.(dataReady := s.dataReady - 1, phases := s.phases[t := Ready], reader := None,
           results := s.results + [Result(s.PhaseOf(t).index, s.DestOf(t))])
      else s
    case ChangeData(t, data) => s.(callerData := s.callerData[t := data])
    case Receive => if s.queue != [] then s.(current := Some(s.queue[0]), queue := s.queue[1..]) else s
    case Execute => if s.current.Some? then Carried(g, s, s.current.value) else s
    case Signal =>
      // a semaphore that counts to one
      s.(dataReady := 1, filled := false, current := None, done := s.done + 1)
  }

  /** The state after some steps, and whether each of them could be taken. */
  function After(g: Geometry, s: State, steps: seq<Step>): State
    requires |g.sizeLog2| == 4
  {
    if steps == [] then s else Do(g, After(g, s, steps[..|steps| - 1]), steps[|steps| - 1])
  }

  predicate Runs(g: Geometry, p: Readers, s: State, steps: seq<Step>)
    requires |g.sizeLog2| == 4
  {
    steps == [] ||
    (Runs(g, p, s, steps[..|steps| - 1]) && Enabled(g, p, After(g, s, steps[..|steps| - 1]), steps[|steps| - 1]))
  }

  // ----- the invariant -----

  predicate Matches(r: Request, op: Operation) {
    match r
    case ReadRequest(t, address, len) => op == ReadOperation(t, address, len)
    case WriteRequest(buffer, address) => op.WriteOperation? && op.buffer == buffer && op.address == address
    case EraseRequest(address, len) => op == EraseOperation(address, len)
  }

  /** The pending requests are the tail of the log, and the flash holds what its head left. */
  ghost predicate InOrder(g: Geometry, mem: seq<byte>, s: State)
    requires |g.sizeLog2| == 4
  {
    && |mem| == |s.mem|
    && s.done + |s.Pending()| == |s.log|
    && (forall i | s.done <= i < |s.log| :: Matches(s.Pending()[i - s.done], s.log[i]))
    && s.mem == Contents(g, mem, s.log[..s.done])
  }

  /** A buffer is with the thread that allocated it, and not freed, or with one queued write,
      holds that write's data, and is freed once when the write is complete. */
  predicate CellOwned(s: State, b: nat)
    requires b < |s.heap|
  {
    var c := s.heap[b];
    match c.use
    case None => c.frees == 0 && s.PhaseOf(c.thread).Copied? &&
                 s.PhaseOf(c.thread).buffer == b && s.PhaseOf(c.thread).data == c.data
    case Some(i) => i < |s.log| && s.log[i].WriteOperation? && s.log[i].buffer == b && s.log[i].data == c.data &&
                    c.frees == if i < s.done then 1 else 0
  }

  predicate PhaseOwns(s: State, t: nat) {
    s.PhaseOf(t).Copied? ==>
      s.PhaseOf(t).buffer < |s.heap| && s.heap[s.PhaseOf(t).buffer].thread == t &&
      s.heap[s.PhaseOf(t).buffer].use == None
  }

  predicate WriteOwns(s: State, i: nat)
    requires i < |s.log|
  {
    s.log[i].WriteOperation? ==> s.log[i].buffer < |s.heap| && s.heap[s.log[i].buffer].use == Some(i)
  }

  ghost predicate BuffersOwned(s: State) {
    && (forall b: nat | b < |s.heap| :: CellOwned(s, b))
    && (forall t: nat :: PhaseOwns(s, t))
    && (forall i: nat | i < |s.log| :: WriteOwns(s, i))
  }

  /** The thread whose read is under way, and only it, waits. */
  predicate WaitsAlone(s: State, t: nat) {
    s.PhaseOf(t).Waiting? <==> s.reader == Some(t)
  }

  /** The number of the read under way. */
  function ReadIndex(s: State): nat {
    if s.reader.Some? && s.PhaseOf(s.reader.value).Waiting? then s.PhaseOf(s.reader.value).index else 0
  }

  predicate ReadUnderWay(p: Readers, s: State) {
    s.reader.Some? ==>
      && s.reader.value in p.all && (p.unlocked == {} ==> s.owner == s.reader)
      && ReadIndex(s) < |s.log| && s.log[ReadIndex(s)].ReadOperation?
      && s.log[ReadIndex(s)].thread == s.reader.value
  }

  predicate OnlyRead(s: State, i: nat)
    requires i < |s.log|
  {
    s.log[i].ReadOperation? ==> s.reader.Some? && i == ReadIndex(s)
  }

  /** The buffer of the read under way holds its data. */
  ghost predicate DataThere(g: Geometry, mem: seq<byte>, s: State)
    requires |g.sizeLog2| == 4
  {
    s.reader.Some? && ReadCorrectly(g, mem, s.log, ReadIndex(s), s.DestOf(s.reader.value))
  }

  /** One read at a time; the semaphore tells whether it is complete. */
  ghost predicate ReaderServed(g: Geometry, p: Readers, mem: seq<byte>, s: State)
    requires |g.sizeLog2| == 4
  {
    && (forall t: nat :: WaitsAlone(s, t))
    && ReadUnderWay(p, s)
    && (forall i: nat | s.done <= i < |s.log| :: OnlyRead(s, i))
    && s.dataReady == (if s.reader.Some? && ReadIndex(s) < s.done then 1 else 0)
    && (s.dataReady == 1 || s.filled ==> DataThere(g, mem, s))
    && (s.filled ==> s.current.Some? && s.current.value.ReadRequest? && s.reader.Some? && ReadIndex(s) == s.done)
  }

  ghost predicate ResultsCorrect(g: Geometry, mem: seq<byte>, s: State)
    requires |g.sizeLog2| == 4
  {
    forall i | 0 <= i < |s.results| :: ReadCorrectly(g, mem, s.log, s.results[i].index, s.results[i].data)
  }

  ghost predicate Inv(g: Geometry, p: Readers, mem: seq<byte>, s: State)
    requires |g.sizeLog2| == 4
  {
    InOrder(g, mem, s) && BuffersOwned(s) && ReaderServed(g, p, mem, s) && ResultsCorrect(g, mem, s)
  }

  // ----- every step keeps it -----

  /** Later operations do not change what an earlier read has to return. */
  lemma ReadStays(g: Geometry, mem: seq<byte>, log: seq<Operation>, op: Operation, i: nat, data: seq<byte>)
    requires |g.sizeLog2| == 4 && ReadCorrectly(g, mem, log, i, data)
    ensures ReadCorrectly(g, mem, log + [op], i, data)
  {
    assert (log + [op])[..i] == log[..i];
  }

  lemma NextContents(g: Geometry, mem: seq<byte>, log: seq<Operation>, done: nat)
    requires |g.sizeLog2| == 4 && done < |log|
    ensures Contents(g, mem, log[..done + 1]) == Effect(g, Contents(g, mem, log[..done]), log[done])
  {
    assert log[..done + 1][..done] == log[..done];
  }

  lemma OrderOnQueue(g: Geometry, mem: seq<byte>, s: State, n: State, r: Request, op: Operation)
    requires |g.sizeLog2| == 4 && InOrder(g, mem, s) && Matches(r, op)
    requires n.Pending() == s.Pending() + [r] && n.log == s.log + [op] && n.done == s.done && n.mem == s.mem
    ensures InOrder(g, mem, n)
  {
    hide Contents, Matches;
    assert n.log[..n.done] == s.log[..s.done];
  }

  lemma OrderOnCompletion(g: Geometry, mem: seq<byte>, s: State, n: State)
    requires |g.sizeLog2| == 4 && InOrder(g, mem, s) && s.Pending() != []
    requires n.Pending() == s.Pending()[1..] && n.log == s.log && n.done == s.done + 1
    requires n.mem == Effect(g, s.mem, s.log[s.done])
    ensures InOrder(g, mem, n)
  {
    hide Contents, Effect, Matches;
    NextContents(g, mem, s.log, s.done);
  }

  /** What is in the buffer of a queued write. */
  lemma QueuedData(s: State)
    requires BuffersOwned(s) && s.current.Some? && s.current.value.WriteRequest?
    requires s.done < |s.log| && Matches(s.current.value, s.log[s.done])
    ensures s.current.value.buffer < |s.heap| && s.log[s.done].data == s.heap[s.current.value.buffer].data
  {
    assert WriteOwns(s, s.done);
    assert CellOwned(s, s.current.value.buffer);
  }

  lemma FilledByRead(g: Geometry, p: Readers, mem: seq<byte>, s: State)
    requires |g.sizeLog2| == 4 && ReaderServed(g, p, mem, s) && s.filled
    ensures s.current.Some? && s.current.value.ReadRequest?
  {}

  lemma KeepsOrderOnCompletion(g: Geometry, p: Readers, mem: seq<byte>, s: State, step: Step)
    requires |g.sizeLog2| == 4 && Enabled(g, p, s, step) && Inv(g, p, mem, s)
    requires step.Signal? || (step.Execute? && !s.current.value.ReadRequest?)
    ensures InOrder(g, mem, Do(g, s, step))
  {
    hide Contents, EraseEffect, Written, Slice, InFlash, BuffersOwned, ReaderServed, ResultsCorrect;
    var n := Do(g, s, step);
    if step.Signal? {
      FilledByRead(g, p, mem, s);
    }
    assert n.Pending() == s.Pending()[1..];
    assert Matches(s.Pending()[0], s.log[s.done]);
    if s.current.value.WriteRequest? {
      QueuedData(s);
    }
    OrderOnCompletion(g, mem, s, n);
  }

  lemma KeepsOrder(g: Geometry, p: Readers, mem: seq<byte>, s: State, step: Step)
    requires |g.sizeLog2| == 4 && Enabled(g, p, s, step) && Inv(g, p, mem, s)
    ensures InOrder(g, mem, Do(g, s, step))
  {
    hide Contents, EraseEffect, Written, Slice, InFlash, BuffersOwned, ReaderServed, ResultsCorrect;
    var n := Do(g, s, step);
    if step.QueueWrite? || step.QueueErase? || step.QueueRead? {
      assert n.Pending() == s.Pending() + [n.queue[|s.queue|]];
      OrderOnQueue(g, mem, s, n, n.queue[|s.queue|], n.log[|s.log|]);
    } else if step.Signal? || (step.Execute? && !s.current.value.ReadRequest?) {
      KeepsOrderOnCompletion(g, p, mem, s, step);
    } else {
      assert n.Pending() == s.Pending();
    }
  }

  /** No buffer changes hands; the log may grow, and an operation other than a write may
      complete. */
  lemma BuffersUntouched(s: State, n: State)
    requires BuffersOwned(s) && n.heap == s.heap
    requires forall u: nat | s.PhaseOf(u).Copied? || n.PhaseOf(u).Copied? :: n.PhaseOf(u) == s.PhaseOf(u)
    requires |s.log| <= |n.log| && n.log[..|s.log|] == s.log
    requires forall i: nat | |s.log| <= i < |n.log| :: !n.log[i].WriteOperation?
    requires n.done == s.done || (n.done == s.done + 1 && s.done < |s.log| && !s.log[s.done].WriteOperation?)
    ensures BuffersOwned(n)
  {
    forall b: nat | b < |n.heap| ensures CellOwned(n, b) {
      assert CellOwned(s, b);
    }
    forall u: nat ensures PhaseOwns(n, u) {
      assert PhaseOwns(s, u);
    }
    forall i: nat | i < |n.log| ensures WriteOwns(n, i) {
      if i < |s.log| {
        assert n.log[..|s.log|][i] == n.log[i];
        assert WriteOwns(s, i);
      }
    }
  }

  lemma BuffersOnCopy(g: Geometry, p: Readers, s: State, step: Step)
    requires |g.sizeLog2| == 4 && Enabled(g, p, s, step) && BuffersOwned(s) && step.CopyData?
    ensures BuffersOwned(Do(g, s, step))
  {
    var n := Do(g, s, step);
    forall b: nat | b < |n.heap| ensures CellOwned(n, b) {
      if b < |s.heap| {
        assert CellOwned(s, b);
      }
    }
    forall u: nat ensures PhaseOwns(n, u) {
      assert PhaseOwns(s, u);
    }
    forall i: nat | i < |n.log| ensures WriteOwns(n, i) {
      assert WriteOwns(s, i);
    }
  }

  lemma BuffersOnQueueWrite(g: Geometry, p: Readers, s: State, step: Step)
    requires |g.sizeLog2| == 4 && Enabled(g, p, s, step) && BuffersOwned(s) && step.QueueWrite?
    requires s.done <= |s.log|
    ensures BuffersOwned(Do(g, s, step))
  {
    var n := Do(g, s, step);
    assert PhaseOwns(s, step.t);
    assert CellOwned(s, s.PhaseOf(step.t).buffer);
    forall b: nat | b < |n.heap| ensures CellOwned(n, b) {
      assert CellOwned(s, b);
    }
    forall u: nat ensures PhaseOwns(n, u) {
      assert PhaseOwns(s, u);
    }
    forall i: nat | i < |n.log| ensures WriteOwns(n, i) {
      if i < |s.log| {
        assert WriteOwns(s, i);
      }
    }
  }

  lemma BuffersOnWriteDone(s: State, n: State, buffer: nat)
    requires BuffersOwned(s) && s.done < |s.log| && s.log[s.done].WriteOperation? && s.log[s.done].buffer == buffer
    requires n.heap == Freed(s, buffer) && n.phases == s.phases && n.log == s.log && n.done == s.done + 1
    ensures BuffersOwned(n)
  {
    assert WriteOwns(s, s.done);
    forall b: nat | b < |n.heap| ensures CellOwned(n, b) {
      assert CellOwned(s, b);
    }
    forall u: nat ensures PhaseOwns(n, u) {
      assert PhaseOwns(s, u);
    }
    forall i: nat | i < |n.log| ensures WriteOwns(n, i) {
      assert WriteOwns(s, i);
    }
  }

  lemma KeepsBuffers(g: Geometry, p: Readers, mem: seq<byte>, s: State, step: Step)
    requires |g.sizeLog2| == 4 && Enabled(g, p, s, step) && Inv(g, p, mem, s)
    ensures BuffersOwned(Do(g, s, step))
  {
    hide Contents, EraseEffect, Written, Slice, InFlash, ReadCorrectly, BuffersOwned, ResultsCorrect;
    var n := Do(g, s, step);
    if step.CopyData? {
      BuffersOnCopy(g, p, s, step);
    } else if step.QueueWrite? {
      BuffersOnQueueWrite(g, p, s, step);
    } else if step.Execute? || step.Signal? {
      assert Matches(s.Pending()[0], s.log[s.done]);
      if s.current.value.WriteRequest? {
        BuffersOnWriteDone(s, n, s.current.value.buffer);
      } else {
        BuffersUntouched(s, n);
      }
    } else {
      BuffersUntouched(s, n);
    }
  }

  lemma OneElement(all: set<nat>, a: nat, b: nat)
    requires |all| <= 1 && a in all && b in all
    ensures a == b
  {
    assert all == {a} + (all - {a});
    assert |all - {a}| == 0;
  }

  /** Nobody may queue a read while one is under way. */
  lemma ReadsExclude(g: Geometry, p: Readers, mem: seq<byte>, s: State, step: Step)
    requires |g.sizeLog2| == 4 && p.Valid() && p.Exclusive()
    requires Enabled(g, p, s, step) && ReaderServed(g, p, mem, s) && step.QueueRead?
    ensures s.reader == None && s.dataReady == 0 && !s.filled
    ensures forall i: nat | s.done <= i < |s.log| :: !s.log[i].ReadOperation?
  {
    hide DataThere, InFlash;
    assert WaitsAlone(s, step.t);
    if s.reader.Some? && p.unlocked != {} {
      OneElement(p.all, s.reader.value, step.t);
    }
    forall i: nat | s.done <= i < |s.log| ensures !s.log[i].ReadOperation? {
      assert OnlyRead(s, i);
    }
  }

  /** The steps that leave the read under way, the semaphore and the log alone. */
  lemma ReaderUntouched(g: Geometry, p: Readers, mem: seq<byte>, s: State, n: State)
    requires |g.sizeLog2| == 4 && ReaderServed(g, p, mem, s)
    requires n.reader == s.reader && n.done == s.done && n.log == s.log && n.callerDest == s.callerDest
    requires n.dataReady == s.dataReady && n.filled == s.filled && (s.filled ==> n.current == s.current)
    requires p.unlocked == {} && s.reader.Some? ==> n.owner == s.owner
    requires forall t: nat | s.PhaseOf(t).Waiting? || n.PhaseOf(t).Waiting? :: n.PhaseOf(t) == s.PhaseOf(t)
    ensures ReaderServed(g, p, mem, n)
  {
    hide ReadCorrectly;
    forall t: nat ensures WaitsAlone(n, t) {
      assert WaitsAlone(s, t);
    }
    if s.reader.Some? {
      assert WaitsAlone(s, s.reader.value);
    }
    forall i: nat | n.done <= i < |n.log| ensures OnlyRead(n, i) {
      assert OnlyRead(s, i);
    }
  }

  /** The log grows by an operation other than a read. */
  lemma ReaderOnQueue(g: Geometry, p: Readers, mem: seq<byte>, s: State, step: Step)
    requires |g.sizeLog2| == 4 && Enabled(g, p, s, step) && ReaderServed(g, p, mem, s)
    requires step.QueueWrite? || step.QueueErase?
    ensures ReaderServed(g, p, mem, Do(g, s, step))
  {
    hide ReadCorrectly, Used;
    var n := Do(g, s, step);
    var op := n.log[|s.log|];
    forall t: nat ensures WaitsAlone(n, t) {
      assert WaitsAlone(s, t);
    }
    if s.reader.Some? {
      assert WaitsAlone(s, s.reader.value);
      if s.dataReady == 1 || s.filled {
        ReadStays(g, mem, s.log, op, ReadIndex(s), s.DestOf(s.reader.value));
      }
    }
    forall i: nat | n.done <= i < |n.log| ensures OnlyRead(n, i) {
      if i < |s.log| {
        assert OnlyRead(s, i);
      }
    }
  }

  lemma ReaderOnRead(g: Geometry, p: Readers, mem: seq<byte>, s: State, step: Step)
    requires |g.sizeLog2| == 4 && p.Valid() && p.Exclusive()
    requires Enabled(g, p, s, step) && ReaderServed(g, p, mem, s) && step.QueueRead? && s.done <= |s.log|
    ensures ReaderServed(g, p, mem, Do(g, s, step))
  {
    hide ReadCorrectly;
    ReadsExclude(g, p, mem, s, step);
    var n := Do(g, s, step);
    forall t: nat ensures WaitsAlone(n, t) {
      assert WaitsAlone(s, t);
    }
  }

  lemma ReaderOnTake(g: Geometry, p: Readers, mem: seq<byte>, s: State, step: Step)
    requires |g.sizeLog2| == 4 && Enabled(g, p, s, step) && ReaderServed(g, p, mem, s) && step.TakeData?
    ensures ReaderServed(g, p, mem, Do(g, s, step))
    ensures s.reader == Some(step.t) && ReadIndex(s) == s.PhaseOf(step.t).index && s.dataReady == 1
  {
    hide ReadCorrectly;
    var n := Do(g, s, step);
    assert WaitsAlone(s, step.t);
    forall t: nat ensures WaitsAlone(n, t) {
      assert WaitsAlone(s, t);
    }
    forall i: nat | n.done <= i < |n.log| ensures OnlyRead(n, i) {
      assert OnlyRead(s, i);
    }
  }

  /** What carrying out or signalling does to what readers look at. */
  lemma CompletionIs(g: Geometry, p: Readers, s: State, step: Step) returns (n: State)
    requires |g.sizeLog2| == 4 && Enabled(g, p, s, step) && (step.Execute? || step.Signal?)
    ensures n == Do(g, s, step)
    ensures n.reader == s.reader && n.log == s.log && n.phases == s.phases && n.owner == s.owner
    ensures step.Signal? ==>
      n.dataReady == 1 && !n.filled && n.done == s.done + 1 && n.callerDest == s.callerDest
    ensures step.Execute? && !s.current.value.ReadRequest? ==>
      n.dataReady == s.dataReady && !n.filled && n.done == s.done + 1 && n.callerDest == s.callerDest
    ensures step.Execute? && s.current.value.ReadRequest? ==>
      var r := s.current.value;
      n.dataReady == s.dataReady && n.filled && n.done == s.done && n.current == s.current &&
      n.callerDest == s.callerDest[r.thread := Slice(s.mem, r.address, r.len)]
  {
    hide EraseEffect, Written, Freed, InFlash, Slice;
    n := Do(g, s, step);
  }

  lemma ReaderOnCompletion(g: Geometry, p: Readers, mem: seq<byte>, s: State, step: Step)
    requires |g.sizeLog2| == 4 && Enabled(g, p, s, step) && ReaderServed(g, p, mem, s) && InOrder(g, mem, s)
    requires step.Execute? || step.Signal?
    ensures ReaderServed(g, p, mem, Do(g, s, step))
  {
    hide Do, InFlash, Contents, Slice;
    var n := CompletionIs(g, p, s, step);
    assert Matches(s.Pending()[0], s.log[s.done]);
    assert OnlyRead(s, s.done);
    forall t: nat ensures WaitsAlone(n, t) {
      assert WaitsAlone(s, t);
    }
    if s.reader.Some? {
      assert WaitsAlone(s, s.reader.value);
    }
    forall i: nat | n.done <= i < |n.log| ensures OnlyRead(n, i) {
      assert OnlyRead(s, i);
    }
  }

  lemma KeepsReader(g: Geometry, p: Readers, mem: seq<byte>, s: State, step: Step)
    requires |g.sizeLog2| == 4 && p.Valid() && p.Exclusive() && Enabled(g, p, s, step) && Inv(g, p, mem, s)
    ensures ReaderServed(g, p, mem, Do(g, s, step))
  {
    hide Contents, ReaderServed, BuffersOwned, ResultsCorrect, InFlash;
    if step.Execute? || step.Signal? {
      ReaderOnCompletion(g, p, mem, s, step);
    } else if step.TakeData? {
      ReaderOnTake(g, p, mem, s, step);
    } else if step.QueueRead? {
      ReaderOnRead(g, p, mem, s, step);
    } else if step.QueueWrite? || step.QueueErase? {
      ReaderOnQueue(g, p, mem, s, step);
    } else {
      HolderStays(g, p, mem, s, step);
      FilledHasCurrent(g, p, mem, s);
      ReaderUntouched(g, p, mem, s, Do(g, s, step));
    }
  }

  lemma FilledHasCurrent(g: Geometry, p: Readers, mem: seq<byte>, s: State)
    requires |g.sizeLog2| == 4 && ReaderServed(g, p, mem, s)
    ensures s.filled ==> s.current.Some?
  {}

  /** A reader that holds the lock keeps it while it waits. */
  lemma HolderStays(g: Geometry, p: Readers, mem: seq<byte>, s: State, step: Step)
    requires |g.sizeLog2| == 4 && Enabled(g, p, s, step) && ReaderServed(g, p, mem, s)
    requires step.Lock? || step.Unlock? || step.CopyData? || step.ChangeData? || step.Receive?
    ensures p.unlocked == {} && s.reader.Some? ==> Do(g, s, step).owner == s.owner
  {
    hide DataThere;
    if s.reader.Some? {
      assert WaitsAlone(s, s.reader.value);
    }
  }

  lemma KeepsResults(g: Geometry, p: Readers, mem: seq<byte>, s: State, step: Step)
    requires |g.sizeLog2| == 4 && Enabled(g, p, s, step) && Inv(g, p, mem, s)
    ensures ResultsCorrect(g, mem, Do(g, s, step))
  {
    hide Contents, EraseEffect, Written, BuffersOwned, ReadCorrectly;
    var n := Do(g, s, step);
    forall i | 0 <= i < |n.results|
      ensures ReadCorrectly(g, mem, n.log, n.results[i].index, n.results[i].data)
    {
      if step.TakeData? {
        ReaderOnTake(g, p, mem, s, step);
      } else if n.log != s.log {
        ReadStays(g, mem, s.log, n.log[|s.log|], s.results[i].index, s.results[i].data);
      }
    }
  }

  lemma InvFromParts(g: Geometry, p: Readers, mem: seq<byte>, s: State)
    requires |g.sizeLog2| == 4
    requires InOrder(g, mem, s) && BuffersOwned(s) && ReaderServed(g, p, mem, s) && ResultsCorrect(g, mem, s)
    ensures Inv(g, p, mem, s)
  {}

  lemma {:induction false} RunsKeepInv(g: Geometry, p: Readers, mem: seq<byte>, steps: seq<Step>)
    requires |g.sizeLog2| == 4 && p.Valid() && p.Exclusive() && Runs(g, p, Init(mem), steps)
    ensures Inv(g, p, mem, After(g, Init(mem), steps))
    decreases |steps|
  {
    hide Enabled, Do;
    if steps == [] {
      var s := Init(mem);
      assert s.log[..0] == [];
    } else {
      hide Inv, Init;
      var step := steps[|steps| - 1];
      var s := After(g, Init(mem), steps[..|steps| - 1]);
      RunsKeepInv(g, p, mem, steps[..|steps| - 1]);
      KeepsOrder(g, p, mem, s, step);
      KeepsBuffers(g, p, mem, s, step);
      KeepsReader(g, p, mem, s, step);
      KeepsResults(g, p, mem, s, step);
      InvFromParts(g, p, mem, Do(g, s, step));
    }
  }

  // ----- what the callers asked for -----

  /** The arguments of a call. */
  datatype Asked =
    | AskedRead(thread: nat, address: nat, len: nat)
    | AskedWrite(data: seq<byte>, address: nat)
    | AskedErase(address: nat, len: nat)

  /** What thread t's buffer holds after the steps: what it was last changed to. */
  function DataBefore(steps: seq<Step>, t: nat): seq<byte> {
    if steps == [] then []
    else
      var n := |steps| - 1;
      if steps[n].ChangeData? && steps[n].t == t then steps[n].data else DataBefore(steps[..n], t)
  }

  /** Thread t's last call to write: the data in its buffer at that time, and the address. */
  function LastWrite(steps: seq<Step>, t: nat): (r: Asked)
    ensures r.AskedWrite?
  {
    if steps == [] then AskedWrite([], 0)
    else
      var n := |steps| - 1;
      if steps[n].CopyData? && steps[n].t == t then AskedWrite(DataBefore(steps[..n], t), steps[n].address)
      else LastWrite(steps[..n], t)
  }

  /** The calls of a run in the order they were queued, from the steps alone. */
  function Requested(steps: seq<Step>): seq<Asked> {
    if steps == [] then []
    else
      var n := |steps| - 1;
      Requested(steps[..n]) +
        match steps[n]
        case QueueRead(t, address, len, _) => [AskedRead(t, address, len)]
        case QueueErase(_, address, len) => [AskedErase(address, len)]
        case QueueWrite(t) => [LastWrite(steps[..n], t)]
        case _ => []
  }

  /** The number of thread t's last call to read. */
  function LastRead(steps: seq<Step>, t: nat): nat {
    if steps == [] then 0
    else
      var n := |steps| - 1;
      if steps[n].QueueRead? && steps[n].t == t then |Requested(steps[..n])| else LastRead(steps[..n], t)
  }

  /** The numbers of the reads that have returned, in that order. */
  function Returned(steps: seq<Step>): seq<nat> {
    if steps == [] then []
    else
      var n := |steps| - 1;
      Returned(steps[..n]) + if steps[n].TakeData? then [LastRead(steps[..n], steps[n].t)] else []
  }

  /** An operation without the number of its buffer. */
  function Arguments(op: Operation): Asked {
    match op
    case ReadOperation(t, address, len) => AskedRead(t, address, len)
    case WriteOperation(_, data, address) => AskedWrite(data, address)
    case EraseOperation(address, len) => AskedErase(address, len)
  }

  predicate LogIs(log: seq<Operation>, asked: seq<Asked>) {
    |log| == |asked| && forall i | 0 <= i < |log| :: Arguments(log[i]) == asked[i]
  }

  predicate ThreadAgrees(s: State, steps: seq<Step>, t: nat) {
    && s.DataOf(t) == DataBefore(steps, t)
    && (match s.PhaseOf(t)
        case Ready => true
        case Copied(_, address, data) => LastWrite(steps, t) == AskedWrite(data, address)
        case Waiting(index) => LastRead(steps, t) == index)
  }

  predicate ResultsAre(results: seq<Result>, returned: seq<nat>) {
    |results| == |returned| && forall i | 0 <= i < |results| :: results[i].index == returned[i]
  }

  /** The histories are those of the steps. */
  ghost predicate Agrees(s: State, steps: seq<Step>) {
    && LogIs(s.log, Requested(steps)) && ResultsAre(s.results, Returned(steps))
    && forall t: nat :: ThreadAgrees(s, steps, t)
  }

  lemma LastsGrow(steps: seq<Step>, step: Step, t: nat)
    ensures var all := steps + [step];
      && DataBefore(all, t) == (if step.ChangeData? && step.t == t then step.data else DataBefore(steps, t))
      && LastWrite(all, t) ==
           (if step.CopyData? && step.t == t then AskedWrite(DataBefore(steps, t), step.address)
            else LastWrite(steps, t))
      && LastRead(all, t) ==
           (if step.QueueRead? && step.t == t then |Requested(steps)| else LastRead(steps, t))
  {
    hide Requested;
    assert (steps + [step])[..|steps|] == steps;
  }

  /** What a step does to a thread's phase and to the buffer it writes from. */
  lemma ThreadAfter(g: Geometry, p: Readers, s: State, step: Step, t: nat)
    requires |g.sizeLog2| == 4 && Enabled(g, p, s, step)
    ensures var d := Do(g, s, step);
      && d.DataOf(t) == (if step.ChangeData? && step.t == t then step.data else s.DataOf(t))
      && (if step.CopyData? && step.t == t then d.PhaseOf(t) == Copied(|s.heap|, step.address, s.DataOf(t))
          else if step.QueueRead? && step.t == t then d.PhaseOf(t) == Waiting(|s.log|)
          else d.PhaseOf(t) == s.PhaseOf(t) || d.PhaseOf(t) == Ready)
  {
    hide EraseEffect, Written, InFlash, Slice, Freed, Used, Buffer;
  }

  lemma StepAgreesThread(g: Geometry, p: Readers, s: State, steps: seq<Step>, step: Step, t: nat)
    requires |g.sizeLog2| == 4 && Enabled(g, p, s, step)
    requires ThreadAgrees(s, steps, t) && |s.log| == |Requested(steps)|
    ensures ThreadAgrees(Do(g, s, step), steps + [step], t)
  {
    hide Do, Enabled, DataBefore, LastWrite, LastRead, Requested;
    LastsGrow(steps, step, t);
    ThreadAfter(g, p, s, step, t);
  }

  lemma StepAgreesLog(g: Geometry, p: Readers, s: State, steps: seq<Step>, step: Step)
    requires |g.sizeLog2| == 4 && Enabled(g, p, s, step)
    requires LogIs(s.log, Requested(steps)) && (step.QueueWrite? ==> ThreadAgrees(s, steps, step.t))
    ensures LogIs(Do(g, s, step).log, Requested(steps + [step]))
  {
    hide EraseEffect, Written, InFlash, Slice, Freed, Used, DataBefore, LastRead, LastWrite;
    assert (steps + [step])[..|steps|] == steps;
  }

  lemma ResultsAfter(g: Geometry, p: Readers, s: State, step: Step)
    requires |g.sizeLog2| == 4 && Enabled(g, p, s, step)
    ensures Do(g, s, step).results == s.results +
      if step.TakeData? then [Result(s.PhaseOf(step.t).index, s.DestOf(step.t))] else []
  {
    hide EraseEffect, Written, InFlash, Slice, Freed, Used, Buffer;
  }

  lemma StepAgreesResults(g: Geometry, p: Readers, s: State, steps: seq<Step>, step: Step)
    requires |g.sizeLog2| == 4 && Enabled(g, p, s, step)
    requires ResultsAre(s.results, Returned(steps)) && (step.TakeData? ==> ThreadAgrees(s, steps, step.t))
    ensures ResultsAre(Do(g, s, step).results, Returned(steps + [step]))
  {
    hide Do, DataBefore, LastRead, LastWrite;
    assert (steps + [step])[..|steps|] == steps;
    ResultsAfter(g, p, s, step);
  }

  lemma StepAgrees(g: Geometry, p: Readers, s: State, steps: seq<Step>, step: Step)
    requires |g.sizeLog2| == 4 && Enabled(g, p, s, step) && Agrees(s, steps)
    ensures Agrees(Do(g, s, step), steps + [step])
  {
    hide Do, Enabled, ThreadAgrees, Requested, Returned, Arguments;
    forall t: nat ensures ThreadAgrees(Do(g, s, step), steps + [step], t) {
      assert ThreadAgrees(s, steps, t);
      StepAgreesThread(g, p, s, steps, step, t);
    }
    assert step.QueueWrite? || step.TakeData? ==> ThreadAgrees(s, steps, step.t);
    hide LogIs, ResultsAre;
    StepAgreesLog(g, p, s, steps, step);
    StepAgreesResults(g, p, s, steps, step);
  }

  /** In every run, whoever holds the lock, the driver's record of the calls is what was asked for. */
  lemma {:induction false} LogIsRequested(g: Geometry, p: Readers, mem: seq<byte>, steps: seq<Step>)
    requires |g.sizeLog2| == 4 && Runs(g, p, Init(mem), steps)
    ensures Agrees(After(g, Init(mem), steps), steps)
    decreases |steps|
  {
    hide Enabled, Do;
    if steps != [] {
      hide Init, Agrees;
      var init := steps[..|steps| - 1];
      LogIsRequested(g, p, mem, init);
      StepAgrees(g, p, After(g, Init(mem), init), init, steps[|steps| - 1]);
      assert init + [steps[|steps| - 1]] == steps;
    }
  }

  /** The flash after a series of calls. */
  function Leaves(g: Geometry, mem: seq<byte>, asked: seq<Asked>): (r: seq<byte>)
    requires |g.sizeLog2| == 4
    ensures |r| == |mem|
  {
    if asked == [] then mem
    else
      var before := Leaves(g, mem, asked[..|asked| - 1]);
      match asked[|asked| - 1]
      case AskedRead(_, _, _) => before
      case AskedWrite(data, address) => Written(before, address, data)
      case AskedErase(address, len) => EraseEffect(before, g, address, len)
  }

  lemma {:induction false} ContentsIsLeft(g: Geometry, mem: seq<byte>, log: seq<Operation>, asked: seq<Asked>, n: nat)
    requires |g.sizeLog2| == 4 && LogIs(log, asked) && n <= |log|
    ensures Contents(g, mem, log[..n]) == Leaves(g, mem, asked[..n])
  {
    hide EraseEffect, Written;
    if n != 0 {
      ContentsIsLeft(g, mem, log, asked, n - 1);
      assert log[..n][..n - 1] == log[..n - 1] && asked[..n][..n - 1] == asked[..n - 1];
    }
  }

  /** data is what call number k, a read, has to return: its range as the calls before it leave it. */
  ghost predicate Answers(g: Geometry, mem: seq<byte>, asked: seq<Asked>, k: nat, data: seq<byte>)
    requires |g.sizeLog2| == 4
  {
    k < |asked| && asked[k].AskedRead? &&
    data == Slice(Leaves(g, mem, asked[..k]), asked[k].address, asked[k].len)
  }

  lemma CorrectIsAnswer(g: Geometry, mem: seq<byte>, log: seq<Operation>, asked: seq<Asked>, k: nat, data: seq<byte>)
    requires |g.sizeLog2| == 4 && LogIs(log, asked)
    ensures ReadCorrectly(g, mem, log, k, data) <==> Answers(g, mem, asked, k, data)
  {
    hide Slice, Contents, Leaves;
    if k < |log| {
      ContentsIsLeft(g, mem, log, asked, k);
      assert Arguments(log[k]) == asked[k];
    }
  }

  /** What a run amounts to, with readers that hold the lock, or just one reader. The flash holds
      the effect of the calls that are complete, in the order they were queued. Each read returned
      what exactly the calls queued before it left in its range; a write counts with the data its
      caller had in its buffer when calling, whatever the buffer holds by then. The copy made for a
      write has been freed once if the write is complete, and not at all otherwise. */
  lemma RunsAreCorrect(g: Geometry, p: Readers, mem: seq<byte>, steps: seq<Step>)
    requires |g.sizeLog2| == 4 && p.Valid() && p.Exclusive() && Runs(g, p, Init(mem), steps)
    ensures var s, asked := After(g, Init(mem), steps), Requested(steps);
      && s.done + |s.Pending()| == |asked| && s.mem == Leaves(g, mem, asked[..s.done])
      && |s.results| == |Returned(steps)|
      && (forall i | 0 <= i < |s.results| :: Answers(g, mem, asked, Returned(steps)[i], s.results[i].data))
      && (forall b: nat | b < |s.heap| :: CellOwned(s, b))
      && (forall i: nat | i < |s.log| :: WriteOwns(s, i))
  {
    hide Contents, Leaves, ReadCorrectly, Answers, Enabled, Do, Init, After, Runs, Requested, Returned, LogIs;
    RunsKeepInv(g, p, mem, steps);
    LogIsRequested(g, p, mem, steps);
    var s, asked := After(g, Init(mem), steps), Requested(steps);
    SameLength(s.log, asked);
    ContentsIsLeft(g, mem, s.log, asked, s.done);
    forall i | 0 <= i < |s.results| ensures Answers(g, mem, asked, Returned(steps)[i], s.results[i].data) {
      CorrectIsAnswer(g, mem, s.log, asked, s.results[i].index, s.results[i].data);
    }
  }

  lemma SameLength(log: seq<Operation>, asked: seq<Asked>)
    requires LogIs(log, asked)
    ensures |log| == |asked|
  {}

  // ----- without the lock -----

  /** In every run every read returns what it has to. */
  ghost predicate ReadsAreCorrect(g: Geometry, p: Readers, mem: seq<byte>)
    requires |g.sizeLog2| == 4
  {
    forall steps: seq<Step> | Runs(g, p, Init(mem), steps) :: AllAnswered(g, mem, steps)
  }

  ghost predicate AllAnswered(g: Geometry, mem: seq<byte>, steps: seq<Step>)
    requires |g.sizeLog2| == 4
  {
    var s := After(g, Init(mem), steps);
    |s.results| == |Returned(steps)| &&
    forall i | 0 <= i < |s.results| :: Answers(g, mem, Requested(steps), Returned(steps)[i], s.results[i].data)
  }

  /** The same in terms of the driver's record. */
  lemma AnsweredIff(g: Geometry, p: Readers, mem: seq<byte>, steps: seq<Step>)
    requires |g.sizeLog2| == 4 && Runs(g, p, Init(mem), steps)
    ensures AllAnswered(g, mem, steps) <==> ResultsCorrect(g, mem, After(g, Init(mem), steps))
  {
    hide ReadCorrectly, Answers, Enabled, Do, Init, After, Runs, Requested, Returned, LogIs;
    LogIsRequested(g, p, mem, steps);
    var s := After(g, Init(mem), steps);
    forall i | 0 <= i < |s.results|
      ensures ReadCorrectly(g, mem, s.log, s.results[i].index, s.results[i].data) <==>
              Answers(g, mem, Requested(steps), Returned(steps)[i], s.results[i].data)
    {
      CorrectIsAnswer(g, mem, s.log, Requested(steps), s.results[i].index, s.results[i].data);
    }
  }

  lemma Goes(g: Geometry, p: Readers, i: State, steps: seq<Step>, step: Step) returns (r: seq<Step>, t: State)
    requires |g.sizeLog2| == 4 && Runs(g, p, i, steps) && Enabled(g, p, After(g, i, steps), step)
    ensures Runs(g, p, i, r) && After(g, i, r) == t == Do(g, After(g, i, steps), step)
  {
    hide Enabled, Do;
    r := steps + [step];
    assert r[..|r| - 1] == steps;
    t := Do(g, After(g, i, steps), step);
  }

  /** A reader queues a read without the lock, and the driver's thread takes it. */
  lemma FirstReads(g: Geometry, p: Readers, mem: seq<byte>, u: nat, was: byte) returns (r: seq<Step>, t: State)
    requires |g.sizeLog2| == 4 && u in p.all && u in p.unlocked
    ensures Runs(g, p, Init(mem), r) && After(g, Init(mem), r) == t
    ensures t.owner == None && t.queue == [] && t.current == Some(ReadRequest(u, 0, 1)) && !t.filled
    ensures t.log == [ReadOperation(u, 0, 1)] && t.results == [] && t.dataReady == 0
    ensures forall w: nat | w != u :: t.PhaseOf(w).Ready?
  {
    var i := Init(mem);
    r, t := Start(g, p, i);
    hide Runs, After;
    r, t := Goes(g, p, i, r, QueueRead(u, 0, 1, [was]));
    r, t := Goes(g, p, i, r, Receive);
  }

  lemma Start(g: Geometry, p: Readers, i: State) returns (r: seq<Step>, t: State)
    requires |g.sizeLog2| == 4
    ensures Runs(g, p, i, r) && After(g, i, r) == t == i
  {
    r, t := [], i;
  }

  /** A second reader takes the lock and queues a read, and is the one that is woken: it finds
      its buffer as it was. */
  lemma SecondIsWoken(g: Geometry, p: Readers, mem: seq<byte>, u: nat, v: nat, was: byte)
    returns (r: seq<Step>, t: State)
    requires |g.sizeLog2| == 4 && u in p.all && u in p.unlocked && v in p.all && u != v && 0 < g.size
    ensures Runs(g, p, Init(mem), r) && After(g, Init(mem), r) == t
    ensures t.log == [ReadOperation(u, 0, 1), ReadOperation(v, 0, 1)] && t.results == [Result(1, [was])]
  {
    hide Runs, After, Slice, Contents, Effect, EraseEffect, Written, Init;
    var i := Init(mem);
    r, t := FirstReads(g, p, mem, u, was);
    r, t := Goes(g, p, i, r, Lock(v));
    r, t := Goes(g, p, i, r, QueueRead(v, 0, 1, [was]));
    r, t := SecondTakesData(g, p, i, r, u, v);
  }

  lemma SecondTakesData(g: Geometry, p: Readers, i: State, steps: seq<Step>, u: nat, v: nat)
    returns (r: seq<Step>, t: State)
    requires |g.sizeLog2| == 4 && u != v && 0 < g.size && Runs(g, p, i, steps)
    requires var s := After(g, i, steps);
      s.current == Some(ReadRequest(u, 0, 1)) && !s.filled && s.results == [] && s.PhaseOf(v) == Waiting(1)
    ensures Runs(g, p, i, r) && After(g, i, r) == t
    ensures t.log == After(g, i, steps).log && t.results == [Result(1, After(g, i, steps).DestOf(v))]
  {
    hide Runs, After, Slice, Contents, Effect, EraseEffect, Written;
    assert InFlash(g, ReadCursor(0, 1));
    ghost var dest := After(g, i, steps).DestOf(v);
    r, t := Goes(g, p, i, steps, Execute);
    assert t.DestOf(v) == dest && t.PhaseOf(v) == Waiting(1);
    r, t := Goes(g, p, i, r, Signal);
    r, t := Goes(g, p, i, r, TakeData(v));
  }

  /** The header says that a single read needs no lock. That is so, in every run, if and only if no
      thread reads without the lock, or there is just one reader: of two, the second can take the
      semaphore that the first one's data was signalled with. */
  lemma UnlockedReadsCorrectIff(g: Geometry, p: Readers, mem: seq<byte>)
    requires |g.sizeLog2| == 4 && p.Valid() && 0 < g.size == |mem|
    ensures ReadsAreCorrect(g, p, mem) <==> p.unlocked == {} || |p.all| <= 1
  {
    hide Runs, After, Init, Contents, Slice, AllAnswered;
    if p.Exclusive() {
      forall steps: seq<Step> | Runs(g, p, Init(mem), steps) ensures AllAnswered(g, mem, steps) {
        RunsKeepInv(g, p, mem, steps);
        AnsweredIff(g, p, mem, steps);
      }
    } else {
      var u :| u in p.unlocked;
      var v := Another(p.all, u);
      var was: byte := if mem[0] == 0 then 1 else 0;
      var r, t := SecondIsWoken(g, p, mem, u, v, was);
      SecondIsWrong(g, mem, t, was);
      AnsweredIff(g, p, mem, r);
    }
  }

  lemma Another(all: set<nat>, u: nat) returns (v: nat)
    requires 1 < |all| && u in all
    ensures v in all && v != u
  {
    assert all == {u} + (all - {u});
    v :| v in all - {u};
  }

  lemma SecondIsWrong(g: Geometry, mem: seq<byte>, t: State, was: byte)
    requires |g.sizeLog2| == 4 && 0 < |mem| && was != mem[0]
    requires |t.log| == 2 && t.log[0].ReadOperation? && t.log[1].ReadOperation?
    requires t.log[1].address == 0 && t.log[1].len == 1 && t.results == [Result(1, [was])]
    ensures !ResultsCorrect(g, mem, t)
  {
    NextContents(g, mem, t.log, 0);
    assert t.log[..0] == [];
    assert Contents(g, mem, t.log[..1]) == mem;
    hide Contents;
    assert Slice(mem, 0, 1)[0] == mem[0];
    assert !ReadCorrectly(g, mem, t.log, t.results[0].index, t.results[0].data);
  }

  // ----- read, modify, write -----

  /** A read that is queued right after an erase and a write of its range, as it is by a thread that
      holds the lock, returns the data of the write. */
  lemma WrittenDataIsRead(g: Geometry, p: Readers, mem: seq<byte>, steps: seq<Step>, i: nat,
                          t: nat, data: seq<byte>, address: nat)
    requires g.Valid() && |mem| == g.size && p.Valid() && p.Exclusive() && Runs(g, p, Init(mem), steps)
    requires i < |Returned(steps)| && address + |data| <= g.size
    requires var k, asked := Returned(steps)[i], Requested(steps);
      && 2 <= k < |asked| && asked[k] == AskedRead(t, address, |data|)
      && asked[k - 1] == AskedWrite(data, address) && asked[k - 2] == AskedErase(address, |data|)
    ensures i < |After(g, Init(mem), steps).results| && After(g, Init(mem), steps).results[i].data == data
  {
    hide Runs, After, Init, Leaves, EraseEffect, Written, Enabled, Do, Requested, Returned;
    RunsAreCorrect(g, p, mem, steps);
    var k, asked := Returned(steps)[i], Requested(steps);
    NextLeft(g, mem, asked, k - 2);
    NextLeft(g, mem, asked, k - 1);
    ReadsBack(g, Leaves(g, mem, asked[..k - 2]), address, data);
  }

  lemma NextLeft(g: Geometry, mem: seq<byte>, asked: seq<Asked>, n: nat)
    requires |g.sizeLog2| == 4 && n < |asked|
    ensures Leaves(g, mem, asked[..n + 1]) ==
      match asked[n]
      case AskedRead(_, _, _) => Leaves(g, mem, asked[..n])
      case AskedWrite(data, address) => Written(Leaves(g, mem, asked[..n]), address, data)
      case AskedErase(address, len) => EraseEffect(Leaves(g, mem, asked[..n]), g, address, len)
  {
    assert asked[..n + 1][..n] == asked[..n];
  }

  // ----- progress -----

  predicate IsDriverStep(step: Step) {
    step.Receive? || step.Execute? || step.Signal?
  }

  predicate DriverOnly(steps: seq<Step>) {
    forall i | 0 <= i < |steps| :: IsDriverStep(steps[i])
  }

  predicate InRange(g: Geometry, r: Request) {
    r.ReadRequest? ==> InFlash(g, ReadCursor(r.address, r.len))
  }

  /** Every pending read, except for one that has its data already, is inside the flash. */
  predicate AllInRange(g: Geometry, s: State) {
    && (s.current.Some? && !s.filled ==> InRange(g, s.current.value))
    && forall i | 0 <= i < |s.queue| :: InRange(g, s.queue[i])
  }

  /** How many steps of the driver thread the pending requests take, at most. */
  function Work(s: State): nat {
    3 * |s.queue| + if s.current == None then 0 else if s.filled then 1 else 2
  }

  predicate FilledIsCurrent(s: State) {
    s.filled ==> s.current.Some?
  }

  lemma StepKeepsFilled(g: Geometry, p: Readers, s: State, step: Step)
    requires |g.sizeLog2| == 4 && FilledIsCurrent(s) && Enabled(g, p, s, step)
    ensures FilledIsCurrent(Do(g, s, step))
  {
    hide EraseEffect, Written, InFlash, Slice, Freed, Used, Buffer;
  }

  lemma {:induction false} RunsKeepFilled(g: Geometry, p: Readers, mem: seq<byte>, steps: seq<Step>)
    requires |g.sizeLog2| == 4 && Runs(g, p, Init(mem), steps)
    ensures FilledIsCurrent(After(g, Init(mem), steps))
    decreases |steps|
  {
    hide Do, Enabled;
    if steps != [] {
      hide FilledIsCurrent;
      RunsKeepFilled(g, p, mem, steps[..|steps| - 1]);
      StepKeepsFilled(g, p, After(g, Init(mem), steps[..|steps| - 1]), steps[|steps| - 1]);
    }
  }

  /** As long as a request is pending, the driver thread can go on, whoever holds the lock. */
  lemma DriverCanGoOn(g: Geometry, p: Readers, s: State) returns (step: Step)
    requires FilledIsCurrent(s) && AllInRange(g, s) && s.Pending() != []
    ensures IsDriverStep(step) && Enabled(g, p, s, step)
  {
    hide InFlash;
    step := if s.filled then Signal else if s.current.Some? then Execute else Receive;
  }

  /** Each of its steps leaves less to do, and passes over no read past the end. */
  lemma DriverWorks(g: Geometry, p: Readers, s: State, step: Step)
    requires |g.sizeLog2| == 4 && FilledIsCurrent(s) && Enabled(g, p, s, step) && IsDriverStep(step)
    ensures var d := Do(g, s, step);
      && Work(d) < Work(s) && FilledIsCurrent(d) && (AllInRange(g, d) <==> AllInRange(g, s))
      && d.log == s.log && d.phases == s.phases && d.owner == s.owner
  {
    hide EraseEffect, Written, InFlash, Slice, Freed;
    var d := Do(g, s, step);
    if step.Receive? {
      assert s.queue == [s.queue[0]] + d.queue;
      assert forall i | 0 <= i < |d.queue| :: d.queue[i] == s.queue[i + 1];
      assert forall i | 1 <= i < |s.queue| :: s.queue[i] == d.queue[i - 1];
    }
  }

  /** The driver thread, by itself, carries out everything. */
  lemma {:induction false} Drains(g: Geometry, p: Readers, i: State, steps: seq<Step>) returns (more: seq<Step>)
    requires |g.sizeLog2| == 4 && Runs(g, p, i, steps)
    requires FilledIsCurrent(After(g, i, steps)) && AllInRange(g, After(g, i, steps))
    ensures DriverOnly(more) && Runs(g, p, i, steps + more)
    ensures var s, d := After(g, i, steps), After(g, i, steps + more);
      d.Pending() == [] && d.log == s.log && d.phases == s.phases
    decreases Work(After(g, i, steps))
  {
    hide Runs, After, Enabled, Do, AllInRange, FilledIsCurrent, Work;
    var s := After(g, i, steps);
    if s.Pending() == [] {
      more := [];
      assert steps + more == steps;
    } else {
      var step := DriverCanGoOn(g, p, s);
      DriverWorks(g, p, s, step);
      OneStep(g, p, i, steps, step);
      var rest := Drains(g, p, i, steps + [step]);
      more := [step] + rest;
      assert steps + more == steps + [step] + rest;
    }
  }

  lemma OneStep(g: Geometry, p: Readers, i: State, steps: seq<Step>, step: Step)
    requires |g.sizeLog2| == 4 && Runs(g, p, i, steps) && Enabled(g, p, After(g, i, steps), step)
    ensures Runs(g, p, i, steps + [step]) && After(g, i, steps + [step]) == Do(g, After(g, i, steps), step)
  {
    hide Enabled, Do;
    assert (steps + [step])[..|steps|] == steps;
  }

  lemma {:induction false} StaysOutOfRange(g: Geometry, p: Readers, i: State, steps: seq<Step>, more: seq<Step>)
    requires |g.sizeLog2| == 4 && FilledIsCurrent(After(g, i, steps)) && !AllInRange(g, After(g, i, steps))
    requires DriverOnly(more) && Runs(g, p, i, steps + more)
    ensures FilledIsCurrent(After(g, i, steps + more)) && !AllInRange(g, After(g, i, steps + more))
    decreases |more|
  {
    hide Enabled, Do, AllInRange, FilledIsCurrent;
    if more == [] {
      assert steps + more == steps;
    } else {
      var n := |more| - 1;
      assert (steps + more)[..|steps + more| - 1] == steps + more[..n];
      StaysOutOfRange(g, p, i, steps, more[..n]);
      DriverWorks(g, p, After(g, i, steps + more[..n]), more[n]);
    }
  }

  /** Whatever has been requested, with or without the lock, the driver thread can carry it out to
      the end by itself, if and only if no pending read goes past the end of the flash. */
  lemma CarriedOutIff(g: Geometry, p: Readers, mem: seq<byte>, steps: seq<Step>)
    requires |g.sizeLog2| == 4 && Runs(g, p, Init(mem), steps)
    ensures (exists more: seq<Step> :: DriverOnly(more) && Runs(g, p, Init(mem), steps + more) &&
               After(g, Init(mem), steps + more).Pending() == []) <==>
            AllInRange(g, After(g, Init(mem), steps))
  {
    hide Runs, After, Init, InRange;
    RunsKeepFilled(g, p, mem, steps);
    if AllInRange(g, After(g, Init(mem), steps)) {
      var more := Drains(g, p, Init(mem), steps);
    } else {
      forall more: seq<Step> | DriverOnly(more) && Runs(g, p, Init(mem), steps + more)
        ensures After(g, Init(mem), steps + more).Pending() != []
      {
        StaysOutOfRange(g, p, Init(mem), steps, more);
      }
    }
  }

  /** A reader that waits, holding the lock or alone, gets its data: without anybody else's help
      the driver thread comes to where the semaphore is up and the reader's buffer is right. */
  lemma WaitingReaderIsServed(g: Geometry, p: Readers, mem: seq<byte>, steps: seq<Step>, t: nat)
    returns (more: seq<Step>)
    requires |g.sizeLog2| == 4 && p.Valid() && p.Exclusive() && Runs(g, p, Init(mem), steps)
    requires After(g, Init(mem), steps).PhaseOf(t).Waiting? && AllInRange(g, After(g, Init(mem), steps))
    ensures DriverOnly(more) && Runs(g, p, Init(mem), steps + more)
    ensures var d := After(g, Init(mem), steps + more);
      && Enabled(g, p, d, TakeData(t))
      && Answers(g, mem, Requested(steps + more), LastRead(steps + more, t), d.DestOf(t))
  {
    hide Runs, After, Init, AllInRange, ReadCorrectly, Answers, Contents, BuffersOwned, Requested, LastRead, LogIs,
      LastWrite, DataBefore;
    RunsKeepFilled(g, p, mem, steps);
    more := Drains(g, p, Init(mem), steps);
    RunsKeepInv(g, p, mem, steps + more);
    LogIsRequested(g, p, mem, steps + more);
    var d := After(g, Init(mem), steps + more);
    assert WaitsAlone(d, t) && ThreadAgrees(d, steps + more, t);
    CorrectIsAnswer(g, mem, d.log, Requested(steps + more), d.PhaseOf(t).index, d.DestOf(t));
  }
}
