/** One direction of an inter-tile link: any number of threads send messages to ports through
    one byte channel, an interrupt and an event group hand the channel to the thread that
    receives on the message's port. A step moves one byte or changes one shared object. */
module Intertile {

  import opened Basics
  import opened Bytes

  /** Bits in an event group, so ports. */
  const PORTS: nat := 24

  datatype Message = Message(port: nat, data: seq<Byte>)

  // ----- the format -----

  function Header(port: nat, len: nat): seq<Byte>
    requires port < PORTS && len < U32
  {
    [port] + Word(len)
  }

  predicate Sendable(m: Message) {
    m.port < PORTS && |m.data| < U32
  }

  function Frame(m: Message): seq<Byte>
    requires Sendable(m)
  {
    Header(m.port, |m.data|) + m.data
  }

  predicate AllSendable(log: seq<Message>) {
    forall i | 0 <= i < |log| :: Sendable(log[i])
  }

  function Frames(log: seq<Message>): seq<Byte>
    requires AllSendable(log)
  {
    if log == [] then [] else Frame(log[0]) + Frames(log[1..])
  }

  lemma {:induction false} FramesAppend(log: seq<Message>, m: Message)
    requires AllSendable(log) && Sendable(m)
    ensures Frames(log + [m]) == Frames(log) + Frame(m)
  {
    if log == [] {
      assert log + [m] == [m];
    } else {
      FramesAppend(log[1..], m);
      assert (log + [m])[1..] == log[1..] + [m];
    }
  }

  // ----- the link -----

  /** A message that is sent with rtos_intertile_tx_len and _tx_data, so far. */
  datatype Writing = Nothing | Part(port: nat, len: nat, data: seq<Byte>)

  /** What the thread that receives on a port is doing. */
  datatype Receiver = Idle | Length(bytes: seq<Byte>) | Data(len: nat, got: seq<Byte>)

  /** Whose turn it is to take bytes from the channel. */
  datatype Turn = Boundary | Interrupted | Flagged(port: nat) | Reading(port: nat)

  datatype State = State(
    // the sending tile
    lock: Option<nat>,
    txLen: nat,                   // tx_len
    closing: bool,                // the lock is put once all bytes are out
    outgoing: seq<Byte>,          // what the current channel output has not put out yet
    writing: Writing,
    channel: seq<Byte>,
    // the receiving tile
    trigger: bool,
    inIsr: bool,
    bits: set<nat>,               // the event group
    receivers: map<nat, Receiver>,
    // history
    turn: Turn,
    log: seq<Message>,            // messages sent, in the order of the lock
    received: seq<Message>)       // messages received, with the port they were received on
  {
    function ReceiverOf(p: nat): Receiver {
      if p in receivers then receivers[p] else Idle
    }

    /** Bytes already taken of the message being received. */
    function InProgress(): seq<int> {
      match turn
      case Boundary => []
      case Interrupted => []
      case Flagged(p) => [p]
      case Reading(p) =>
        (match ReceiverOf(p)
         case Idle => [p]
         case Length(bytes) => [p] + bytes
         case Data(len, got) => if len < U32 then [p] + Word(len) + got else [])
    }

    /** Bytes already given of the message being written. */
    function Partly(): seq<int> {
      if writing.Part? && 0 < txLen && writing.port < PORTS && writing.len < U32
      then Header(writing.port, writing.len) + writing.data else []
    }
  }

  function Init(): State {
    State(None, 0, false, [], Nothing, [], true, false, {}, map[], Boundary, [], [])
  }

  datatype Step =
    | Tx(t: nat, m: Message)
    | TxLen(t: nat, port: nat, len: nat)
    | TxData(t: nat, chunk: seq<Byte>)
    | Unlock(t: nat)
    | OutByte
    | Trigger
    | Isr
    | Wake(port: nat)
    | InByte(port: nat)
    | Deliver(port: nat)

  /** capacity: how many bytes the channel buffers. A receiver that times out has no effect. */
  predicate Enabled(capacity: nat, s: State, step: Step) {
    match step
    case Tx(t, m) => s.lock == None && Sendable(m)
    case TxLen(t, port, len) => s.lock == None && port < PORTS && len < U32
    case TxData(t, chunk) => s.lock == Some(t) && !s.closing && s.outgoing == []
    case Unlock(t) => s.lock == Some(t) && s.closing && s.outgoing == []
    case OutByte => s.outgoing != [] && |s.channel| < capacity
    case Trigger => s.trigger && s.channel != []
    case Isr => s.inIsr && s.channel != []
    case Wake(p) => p in s.bits && s.ReceiverOf(p).Idle?
    case InByte(p) =>
      s.channel != [] &&
      (match s.ReceiverOf(p)
       case Idle => false
       case Length(_) => true
       case Data(len, got) => |got| < len)
    case Deliver(p) => s.ReceiverOf(p).Data? && |s.ReceiverOf(p).got| >= s.ReceiverOf(p).len
  }

  /** The sending tile. */
  function SendStep(s: State, step: Step): State {
    match step
    case Tx(t, m) =>
      if Sendable(m) then
        s.(lock := Some(t), closing := true, outgoing := Frame(m), log := s.log + [m])
      else s
    case TxLen(t, port, len) =>
      if port < PORTS && len < U32 then
        s.(lock := Some(t), closing := false, txLen := len, outgoing := Header(port, len),
           writing := Part(port, len, []), log := if len == 0 then s.log + [Message(port, [])] else s.log)
      else s
    case TxData(t, chunk) =>
      if s.writing.Part? then
        var n := Min(|chunk|, s.txLen);
        var data := s.writing.data + chunk[..n];
        s.(outgoing := chunk[..n], txLen := s.txLen - n, closing := n == s.txLen,
           writing := s.writing.(data := data),
           log := if 0 < n == s.txLen then s.log + [Message(s.writing.port, data)] else s.log)
      else s
    case Unlock(t) => s.(lock := None, closing := false, writing := Nothing)
    case OutByte =>
      if s.outgoing != [] then
        s.(channel := s.channel + [s.outgoing[0]], outgoing := s.outgoing[1..])
      else s
    case _ => s
  }

  /** A receiver takes a byte: of the length, or of the data. */
  function WithByte(r: Receiver, b: Byte): Receiver {
    match r
    case Idle => Idle
    case Length(bytes) =>
      if |bytes| == 3 then Data(Unword(bytes + [b]), []) else Length(bytes + [b])
    case Data(len, got) => Data(len, got + [b])
  }

  /** The receiving tile. */
  function ReceiveStep(s: State, step: Step): State {
    match step
    case Trigger => s.(trigger := false, inIsr := true, turn := Interrupted)
    case Isr =>
      if s.channel != [] then
        s.(inIsr := false, channel := s.channel[1..], bits := s.bits + {s.channel[0]}, turn := Flagged(s.channel[0]))
      else s
    case Wake(p) => s.(bits := s.bits - {p}, receivers := s.receivers[p := Length([])], turn := Reading(p))
    case InByte(p) =>
      if s.channel != [] then
        s.(channel := s.channel[1..], receivers := s.receivers[p := WithByte(s.ReceiverOf(p), s.channel[0])])
      else s
    case Deliver(p) =>
      if s.ReceiverOf(p).Data? then
        s.(trigger := true, receivers := s.receivers[p := Idle], turn := Boundary,
           received := s.received + [Message(p, s.ReceiverOf(p).got)])
      else s
    case _ => s
  }

  predicate Sends(step: Step) {
    step.Tx? || step.TxLen? || step.TxData? || step.Unlock? || step.OutByte?
  }

  function Do(s: State, step: Step): State {
    if Sends(step) then SendStep(s, step) else ReceiveStep(s, step)
  }

  /** The state after some steps, and whether each of them could be taken. */
  function After(s: State, steps: seq<Step>): State {
    if steps == [] then s else Do(After(s, steps[..|steps| - 1]), steps[|steps| - 1])
  }

  predicate Runs(capacity: nat, s: State, steps: seq<Step>) {
    steps == [] ||
    (Runs(capacity, s, steps[..|steps| - 1]) &&
     Enabled(capacity, After(s, steps[..|steps| - 1]), steps[|steps| - 1]))
  }

  // ----- the invariant -----

  /** While the lock is free nothing is half sent. */
  predicate Sender(s: State) {
    && (s.lock == None ==> s.txLen == 0 && s.outgoing == [] && s.writing == Nothing && !s.closing)
    && (s.lock.Some? && !s.closing ==> s.writing.Part?)
    && (s.closing ==> s.txLen == 0)
    && (s.writing == Nothing ==> s.txLen == 0)
    && (s.writing.Part? ==>
          s.writing.port < PORTS && s.writing.len < U32 && |s.writing.data| + s.txLen == s.writing.len)
  }

  predicate OthersIdle(s: State, p: nat, q: nat) {
    q != p ==> s.ReceiverOf(q).Idle?
  }

  predicate NoneReads(s: State, q: nat) {
    s.ReceiverOf(q).Idle?
  }

  /** The trigger is enabled only between messages, and then no port's bit is set; a set bit,
      the interrupt and a reading thread exclude each other. */
  ghost predicate TakesTurns(s: State) {
    && s.trigger == s.turn.Boundary? && s.inIsr == s.turn.Interrupted?
    && s.bits == (if s.turn.Flagged? then {s.turn.port} else {})
    && (!s.turn.Reading? ==> forall q: nat :: NoneReads(s, q))
    && (s.turn.Reading? ==>
          && (forall q: nat :: OthersIdle(s, s.turn.port, q))
          && match s.ReceiverOf(s.turn.port)
             case Idle => false
             case Length(bytes) => |bytes| < 4
             case Data(len, got) => |got| <= len < U32)
  }

  /** Every byte on its way belongs, in order, to the messages not received yet. */
  predicate InOrder(s: State) {
    && AllSendable(s.log) && s.received <= s.log
    && s.InProgress() + s.channel + s.outgoing == Frames(s.log[|s.received|..]) + s.Partly()
  }

  ghost predicate Inv(s: State) {
    Sender(s) && TakesTurns(s) && InOrder(s)
  }

  // ----- the sending tile's steps -----

  /** A message is complete: it moves from the part being written to the log. */
  lemma LogGrows(log: seq<Message>, n: nat, m: Message)
    requires AllSendable(log) && Sendable(m) && n <= |log|
    ensures AllSendable(log + [m]) && Frames((log + [m])[n..]) == Frames(log[n..]) + Frame(m)
  {
    assert (log + [m])[n..] == log[n..] + [m];
    FramesAppend(log[n..], m);
  }

  /** The sending tile does not touch what the receiving one takes turns with. */
  lemma TurnsStay(s: State, d: State)
    requires TakesTurns(s) && d.turn == s.turn && d.trigger == s.trigger && d.inIsr == s.inIsr
    requires d.bits == s.bits && d.receivers == s.receivers
    ensures TakesTurns(d) && d.InProgress() == s.InProgress()
  {
    hide Word;
    forall q: nat | !s.turn.Reading? ensures NoneReads(d, q) {
      assert NoneReads(s, q);
    }
    forall q: nat | s.turn.Reading? ensures OthersIdle(d, s.turn.port, q) {
      assert OthersIdle(s, s.turn.port, q);
    }
  }

  lemma TxKeeps(capacity: nat, s: State, step: Step)
    requires Inv(s) && Enabled(capacity, s, step) && (step.Tx? || step.TxLen?)
    ensures Inv(Do(s, step))
  {
    hide Word, Frames, TakesTurns, ReceiveStep, State.InProgress, Header;
    var d := Do(s, step);
    TurnsStay(s, d);
    var left := s.InProgress() + s.channel;
    assert s.outgoing == [] && s.Partly() == [] && left + s.outgoing == left;
    assert left == Frames(s.log[|s.received|..]);
    if step.Tx? {
      LogGrows(s.log, |s.received|, step.m);
    } else if step.len == 0 {
      LogGrows(s.log, |s.received|, Message(step.port, []));
      var nothing: seq<Byte> := [];
      assert Header(step.port, 0) + nothing == Header(step.port, 0);
    }
  }

  /** The part being written grows, or becomes a whole message. */
  lemma PartGrows(s: State, chunk: seq<Byte>)
    requires Sender(s) && s.writing.Part? && 0 < |chunk| <= s.txLen
    ensures s.Partly() == Header(s.writing.port, s.writing.len) + s.writing.data
    ensures s.Partly() + chunk == Header(s.writing.port, s.writing.len) + (s.writing.data + chunk)
  {
    hide Header;
  }

  lemma TxDataKeeps(capacity: nat, s: State, step: Step)
    requires Inv(s) && Enabled(capacity, s, step) && step.TxData?
    ensures Inv(Do(s, step))
  {
    hide Word, Frames, TakesTurns, ReceiveStep, State.InProgress, Header;
    var d := Do(s, step);
    TurnsStay(s, d);
    var n := Min(|step.chunk|, s.txLen);
    var chunk := step.chunk[..n];
    var before := Frames(s.log[|s.received|..]);
    var left := s.InProgress() + s.channel;
    assert s.outgoing == [] && left + [] == left;
    assert left == before + s.Partly();
    if n == 0 {
      assert chunk == [];
    } else {
      PartGrows(s, chunk);
      assert left + chunk == before + (s.Partly() + chunk);
      if n == s.txLen {
        LogGrows(s.log, |s.received|, Message(s.writing.port, s.writing.data + chunk));
      }
    }
  }

  lemma OutKeeps(capacity: nat, s: State, step: Step)
    requires Inv(s) && Enabled(capacity, s, step) && (step.Unlock? || step.OutByte?)
    ensures Inv(Do(s, step))
  {
    hide Word, Frames, TakesTurns, ReceiveStep, State.InProgress, Header;
    var d := Do(s, step);
    TurnsStay(s, d);
    if step.OutByte? {
      assert s.outgoing == [s.outgoing[0]] + d.outgoing;
    }
  }

  // ----- the receiving tile's steps -----

  /** The next byte is the port of the oldest message not received: the channel is at the
      boundary between two messages. */
  lemma NextIsPort(s: State)
    requires Inv(s) && s.channel != [] && (s.turn.Boundary? || s.turn.Interrupted?)
    ensures s.channel[0] < PORTS
  {
    hide Word, Frames;
    var rest := s.log[|s.received|..];
    assert s.channel[0] == (s.InProgress() + s.channel + s.outgoing)[0];
    FramesStart(rest);
  }

  lemma FramesStart(log: seq<Message>)
    requires AllSendable(log)
    ensures if log == [] then Frames(log) == [] else Frames(log) != [] && Frames(log)[0] == log[0].port
  {
    hide Word;
  }

  lemma TurnChangeKeeps(capacity: nat, s: State, step: Step)
    requires Inv(s) && Enabled(capacity, s, step) && (step.Trigger? || step.Isr? || step.Wake?)
    ensures Inv(Do(s, step))
  {
    hide Word, Frames, SendStep, Header;
    var d := Do(s, step);
    forall q: nat | !d.turn.Reading? ensures NoneReads(d, q) {
      assert NoneReads(s, q);
    }
    forall q: nat | d.turn.Reading? ensures OthersIdle(d, d.turn.port, q) {
      assert NoneReads(s, q);
    }
    var was, now := s.InProgress() + s.channel + s.outgoing, d.InProgress() + d.channel + d.outgoing;
    assert was == now by {
      if step.Isr? {
        assert s.InProgress() == [] && d.InProgress() == [s.channel[0]];
        assert s.channel == [s.channel[0]] + d.channel;
      } else if step.Wake? {
        assert s.InProgress() == [step.port] && d.InProgress() == [step.port] + [];
      }
    }
  }

  /** Only the thread whose turn it is has a byte to take, or a message to deliver. */
  lemma ItsTurn(s: State, p: nat)
    requires TakesTurns(s) && !s.ReceiverOf(p).Idle?
    ensures s.turn == Reading(p)
  {
    assert NoneReads(s, p) || OthersIdle(s, s.turn.port, p);
  }

  lemma ReadingTurns(capacity: nat, s: State, step: Step)
    requires TakesTurns(s) && Enabled(capacity, s, step) && (step.InByte? || step.Deliver?)
    ensures TakesTurns(Do(s, step))
  {
    hide Unword, SendStep;
    var d := Do(s, step);
    ItsTurn(s, step.port);
    forall q: nat ensures OthersIdle(d, step.port, q) {
      assert OthersIdle(s, step.port, q);
    }
    if step.Deliver? {
      forall q: nat ensures NoneReads(d, q) {
        assert OthersIdle(d, step.port, q);
      }
    }
  }

  lemma TakesByte(s: State, step: Step)
    requires step.InByte? && s.channel != [] && s.turn == Reading(step.port) && !s.ReceiverOf(step.port).Idle?
    requires var r := s.ReceiverOf(step.port); if r.Length? then |r.bytes| < 4 else r.len < U32
    ensures Do(s, step).InProgress() == s.InProgress() + [s.channel[0]]
  {
    hide Word, Unword, SendStep;
    var b := s.channel[0];
    var r := s.ReceiverOf(step.port);
    if r.Data? {
      assert [step.port] + Word(r.len) + (r.got + [b]) == [step.port] + Word(r.len) + r.got + [b];
    } else {
      assert [step.port] + (r.bytes + [b]) == [step.port] + r.bytes + [b];
      if |r.bytes| == 3 {
        UnwordRoundTrip(r.bytes + [b]);
      }
    }
  }

  lemma InByteKeeps(capacity: nat, s: State, step: Step)
    requires Inv(s) && Enabled(capacity, s, step) && step.InByte?
    ensures Inv(Do(s, step))
  {
    hide Word, Unword, Frames, SendStep, Header;
    var d := Do(s, step);
    ItsTurn(s, step.port);
    ReadingTurns(capacity, s, step);
    TakesByte(s, step);
    hide TakesTurns, State.InProgress;
    assert s.channel == [s.channel[0]] + d.channel;
  }

  lemma Regroup(a: seq<int>, b: seq<int>, c: seq<int>, d: seq<int>)
    ensures a + b + c + d == a + (b + (c + d))
  {}

  lemma SameHeader(a: int, n: nat, x: seq<int>, b: int, m: nat, y: seq<int>)
    requires n < U32 && m < U32 && [a] + Word(n) + x == [b] + Word(m) + y
    ensures a == b && n == m && x == y
  {
    hide Word, Unword;
    var l: seq<int>, r: seq<int> := [a] + Word(n) + x, [b] + Word(m) + y;
    assert l[0] == a && r[0] == b;
    var v, w := Word(n), Word(m);
    assert |v| == 4 && |w| == 4;
    assert v == w by {
      forall i | 0 <= i < 4 ensures v[i] == w[i] {
        assert l[i + 1] == v[i] && r[i + 1] == w[i];
      }
    }
    WordRoundTrip(n);
    WordRoundTrip(m);
    assert l[5..] == x && r[5..] == y;
  }

  /** The bytes of a complete message, at the beginning of what was sent, are those of the
      oldest message sent; w and n are the message being written and its length, if there is one. */
  lemma FirstFrame(p: nat, got: seq<Byte>, more: seq<int>, rest: seq<Message>, partly: seq<int>, w: Message, n: nat)
    requires |got| < U32 && AllSendable(rest)
    requires [p] + Word(|got|) + (got + more) == Frames(rest) + partly
    requires partly == [] || (w.port < PORTS && |w.data| < n < U32 && partly == [w.port] + Word(n) + w.data)
    ensures rest != [] && rest[0] == Message(p, got)
    ensures more == Frames(rest[1..]) + partly
  {
    hide Word;
    if rest == [] {
      if partly != [] {
        assert [p] + Word(|got|) + (got + more) == [w.port] + Word(n) + w.data;
        SameHeader(p, |got|, got + more, w.port, n, w.data);
      }
    } else {
      var m := rest[0];
      var tail := Frames(rest[1..]) + partly;
      CompleteFrame(Frames(rest) + partly, rest, partly);
      hide Frames;
      SameHeader(p, |got|, got + more, m.port, |m.data|, m.data + tail);
      assert (got + more)[..|got|] == got && (m.data + tail)[..|got|] == m.data;
      assert (got + more)[|got|..] == more && (m.data + tail)[|got|..] == tail;
    }
  }

  lemma DeliversFirst(s: State, p: nat)
    requires InOrder(s) && Sender(s) && s.turn == Reading(p) && s.ReceiverOf(p).Data?
    requires |s.ReceiverOf(p).got| == s.ReceiverOf(p).len < U32
    ensures |s.received| < |s.log| && s.log[|s.received|] == Message(p, s.ReceiverOf(p).got)
    ensures s.channel + s.outgoing == Frames(s.log[|s.received| + 1..]) + s.Partly()
  {
    hide Word, Frames;
    var got := s.ReceiverOf(p).got;
    var rest := s.log[|s.received|..];
    assert rest != [] ==> rest[1..] == s.log[|s.received| + 1..];
    var more: seq<int> := s.channel + s.outgoing;
    Regroup([p] + Word(|got|), got, s.channel, s.outgoing);
    if s.Partly() == [] {
      FirstFrame(p, got, more, rest, [], Message(0, []), 0);
    } else {
      FirstFrame(p, got, more, rest, s.Partly(), Message(s.writing.port, s.writing.data), s.writing.len);
    }
  }

  lemma DeliverOrders(s: State, d: State, m: Message)
    requires AllSendable(s.log) && s.received <= s.log && |s.received| < |s.log| && s.log[|s.received|] == m
    requires s.channel + s.outgoing == Frames(s.log[|s.received| + 1..]) + s.Partly()
    requires d.turn.Boundary? && d.channel == s.channel && d.outgoing == s.outgoing && d.Partly() == s.Partly()
    requires d.log == s.log && d.received == s.received + [m]
    ensures InOrder(d)
  {
    hide Frames, State.Partly;
    assert d.received == s.log[..|d.received|];
    var nothing: seq<int> := [];
    assert d.InProgress() == nothing && nothing + d.channel == d.channel;
  }

  lemma DeliverKeeps(capacity: nat, s: State, step: Step)
    requires Inv(s) && Enabled(capacity, s, step) && step.Deliver?
    ensures Inv(Do(s, step))
  {
    ItsTurn(s, step.port);
    ReadingTurns(capacity, s, step);
    DeliversFirst(s, step.port);
    hide Frames, SendStep, Header, Word, TakesTurns, InOrder;
    DeliverOrders(s, Do(s, step), s.log[|s.received|]);
  }

  lemma Keeps(capacity: nat, s: State, step: Step)
    requires Inv(s) && Enabled(capacity, s, step)
    ensures Inv(Do(s, step))
  {
    hide Inv, Enabled, Do;
    match step {
      case Tx(_, _) => TxKeeps(capacity, s, step);
      case TxLen(_, _, _) => TxKeeps(capacity, s, step);
      case TxData(_, _) => TxDataKeeps(capacity, s, step);
      case Unlock(_) => OutKeeps(capacity, s, step);
      case OutByte => OutKeeps(capacity, s, step);
      case InByte(_) => InByteKeeps(capacity, s, step);
      case Deliver(_) => DeliverKeeps(capacity, s, step);
      case _ => TurnChangeKeeps(capacity, s, step);
    }
  }

  // ----- whole runs -----

  lemma {:induction false} RunsKeepInv(capacity: nat, steps: seq<Step>)
    requires Runs(capacity, Init(), steps)
    ensures Inv(After(Init(), steps))
    decreases |steps|
  {
    hide Enabled, Do;
    if steps != [] {
      hide Inv, Init;
      RunsKeepInv(capacity, steps[..|steps| - 1]);
      Keeps(capacity, After(Init(), steps[..|steps| - 1]), steps[|steps| - 1]);
    }
  }

  // ----- what the senders asked for -----

  /** A message begun with rtos_intertile_tx_len: its port, its length and the chunks so far. */
  datatype Begun = Begun(port: nat, len: nat, data: seq<Byte>)

  /** The messages that the calls amount to, and the one that is begun. */
  datatype Sending = Sending(sent: seq<Message>, begun: Option<Begun>)

  /** What the calls in a run send, from their arguments alone: a call for a whole message sends it;
      a length and the chunks that follow are a message once there are enough bytes, and the last
      chunk is cut off. */
  function Sent(steps: seq<Step>): Sending {
    if steps == [] then Sending([], None)
    else
      var before := Sent(steps[..|steps| - 1]);
      match steps[|steps| - 1]
      case Tx(_, m) => before.(sent := before.sent + [m])
      case TxLen(_, port, len) =>
        if len == 0 then before.(sent := before.sent + [Message(port, [])])
        else before.(begun := Some(Begun(port, len, [])))
      case TxData(_, chunk) =>
        (match before.begun
         case None => before
         case Some(Begun(port, len, data)) =>
           var all := data + chunk;
           if |all| < len then before.(begun := Some(Begun(port, len, all)))
           else Sending(before.sent + [Message(port, all[..len])], None))
      case _ => before
  }

  /** The log is what has been sent, and the sending tile knows what is begun. */
  predicate Agrees(s: State, sending: Sending) {
    && s.log == sending.sent
    && (match sending.begun
        case None => s.txLen == 0
        case Some(b) => 0 < s.txLen && |b.data| + s.txLen == b.len && s.writing == Part(b.port, b.len, b.data))
  }

  lemma StepAgrees(capacity: nat, s: State, steps: seq<Step>, step: Step)
    requires Sender(s) && Enabled(capacity, s, step) && Agrees(s, Sent(steps)) && Sends(step) && !step.TxData?
    ensures Agrees(Do(s, step), Sent(steps + [step]))
  {
    hide ReceiveStep, Frame, Header;
    assert (steps + [step])[..|steps|] == steps;
  }

  lemma ChunkAgrees(s: State, steps: seq<Step>, t: nat, chunk: seq<Byte>)
    requires Sender(s) && s.writing.Part? && Agrees(s, Sent(steps))
    ensures Agrees(Do(s, TxData(t, chunk)), Sent(steps + [TxData(t, chunk)]))
  {
    hide ReceiveStep, Frame, Header;
    assert (steps + [TxData(t, chunk)])[..|steps|] == steps;
    var n := Min(|chunk|, s.txLen);
    match Sent(steps).begun {
      case None =>
      case Some(b) =>
        if |b.data + chunk| < b.len {
          assert chunk[..n] == chunk;
        } else {
          assert (b.data + chunk)[..b.len] == b.data + chunk[..n];
        }
    }
  }

  lemma ReceivingAgrees(s: State, steps: seq<Step>, step: Step)
    requires Agrees(s, Sent(steps)) && !Sends(step)
    ensures Agrees(Do(s, step), Sent(steps + [step]))
  {
    hide SendStep, WithByte;
    assert (steps + [step])[..|steps|] == steps;
  }

  lemma HasPart(capacity: nat, s: State, step: Step)
    requires Sender(s) && Enabled(capacity, s, step) && step.TxData?
    ensures s.writing.Part?
  {}

  /** In every run the messages in the log are those of the calls. */
  lemma {:induction false} LogIsSent(capacity: nat, steps: seq<Step>)
    requires Runs(capacity, Init(), steps)
    ensures Agrees(After(Init(), steps), Sent(steps))
    decreases |steps|
  {
    hide Enabled, Do;
    if steps != [] {
      hide Init, Sender, Sent, Agrees;
      var init, step := steps[..|steps| - 1], steps[|steps| - 1];
      LogIsSent(capacity, init);
      RunsKeepInv(capacity, init);
      assert init + [step] == steps;
      var s := After(Init(), init);
      if step.TxData? {
        HasPart(capacity, s, step);
        ChunkAgrees(s, init, step.t, step.chunk);
      } else if Sends(step) {
        StepAgrees(capacity, After(Init(), init), init, step);
      } else {
        ReceivingAgrees(After(Init(), init), init, step);
      }
    }
  }

  /** The messages for one port. */
  function ForPort(log: seq<Message>, p: nat): seq<seq<Byte>> {
    if log == [] then [] else
      ForPort(log[..|log| - 1], p) + if log[|log| - 1].port == p then [log[|log| - 1].data] else []
  }

  lemma {:induction false} PrefixForPort(a: seq<Message>, b: seq<Message>, p: nat)
    requires a <= b
    ensures ForPort(a, p) <= ForPort(b, p)
    decreases |b|
  {
    if |a| < |b| {
      PrefixForPort(a, b[..|b| - 1], p);
    } else {
      assert a == b;
    }
  }

  /** In every interleaving of senders, interrupt and receivers, whether messages are sent and
      received whole or in parts: what a port has received is the first of the messages that the
      senders' calls sent to it, in the order in which they had the lock. */
  lemma PortsReceiveInOrder(capacity: nat, steps: seq<Step>, p: nat)
    requires Runs(capacity, Init(), steps)
    ensures var s, sent := After(Init(), steps), Sent(steps).sent;
      s.received <= sent && ForPort(s.received, p) <= ForPort(sent, p)
  {
    hide Init, After, Do, Enabled, Sent;
    RunsKeepInv(capacity, steps);
    LogIsSent(capacity, steps);
    var s := After(Init(), steps);
    PrefixForPort(s.received, s.log, p);
  }

  /** The interrupt finds the channel between two messages, so what it takes for a port is one;
      at that time no bit is set and nobody reads. While the lock is free no message is half
      sent, so the assertion in rtos_intertile_tx_len holds. */
  lemma LinkIsSafe(capacity: nat, steps: seq<Step>)
    requires Runs(capacity, Init(), steps)
    ensures var s := After(Init(), steps);
      && (s.trigger ==> s.bits == {} && s.InProgress() == [] && forall q: nat :: NoneReads(s, q))
      && ((s.trigger || s.inIsr) && s.channel != [] ==> s.channel[0] < PORTS)
      && (s.lock == None ==> s.txLen == 0)
  {
    hide Init, After, Do, Enabled, Frames, Word;
    RunsKeepInv(capacity, steps);
    var s := After(Init(), steps);
    if (s.trigger || s.inIsr) && s.channel != [] {
      NextIsPort(s);
    }
  }

  /** The steps that need no new request from a sender. */
  predicate Carries(step: Step) {
    step.OutByte? || step.Trigger? || step.Isr? || step.Wake? || step.InByte? || step.Deliver?
  }

  lemma CompleteFrame(head: seq<int>, rest: seq<Message>, partly: seq<int>)
    requires rest != [] && AllSendable(rest) && head == Frames(rest) + partly
    ensures head == [rest[0].port] + Word(|rest[0].data|) + (rest[0].data + (Frames(rest[1..]) + partly))
  {
    hide Word;
    var m := rest[0];
    Regroup([m.port] + Word(|m.data|), m.data, Frames(rest[1..]), partly);
  }

  /** Bytes taken of a message that is not complete are not a whole message. */
  lemma NotStuck(s: State)
    requires Inv(s) && |s.received| < |s.log| && s.channel == [] && s.outgoing == []
    ensures s.turn.Reading? && s.ReceiverOf(s.turn.port).Data?
    ensures |s.ReceiverOf(s.turn.port).got| == s.ReceiverOf(s.turn.port).len
  {
    hide Word, Frames;
    var rest := s.log[|s.received|..];
    var head := s.InProgress();
    assert head + s.channel + s.outgoing == head;
    CompleteFrame(head, rest, s.Partly());
    var r := s.ReceiverOf(s.turn.port);
    assert r.Data?;
    var m := rest[0];
    assert head == [s.turn.port] + Word(r.len) + r.got;
    SameHeader(s.turn.port, r.len, r.got, m.port, |m.data|, m.data + (Frames(rest[1..]) + s.Partly()));
  }

  /** The link never gets stuck: as long as a message that was sent has not been received, a byte
      can move or a thread can go on. */
  lemma MessagesMoveOn(capacity: nat, steps: seq<Step>)
    requires Runs(capacity, Init(), steps) && 0 < capacity
    requires |After(Init(), steps).received| < |Sent(steps).sent|
    ensures exists step: Step :: Carries(step) && Enabled(capacity, After(Init(), steps), step)
  {
    hide Init, After, Do, Enabled, Sent, Inv;
    RunsKeepInv(capacity, steps);
    LogIsSent(capacity, steps);
    SomebodyMoves(capacity, After(Init(), steps));
  }

  lemma SomebodyMoves(capacity: nat, s: State)
    requires Inv(s) && 0 < capacity && |s.received| < |s.log|
    ensures exists step: Step :: Carries(step) && Enabled(capacity, s, step)
  {
    hide Word, Frames, InOrder, Sender;
    if s.channel == [] && s.outgoing != [] {
      assert Enabled(capacity, s, OutByte) && Carries(OutByte);
    } else {
      if s.channel == [] {
        NotStuck(s);
      }
      match s.turn {
        case Boundary => assert Enabled(capacity, s, Trigger) && Carries(Trigger);
        case Interrupted => assert Enabled(capacity, s, Isr) && Carries(Isr);
        case Flagged(p) =>
          assert NoneReads(s, p);
          assert Enabled(capacity, s, Wake(p)) && Carries(Wake(p));
        case Reading(p) =>
          var r := s.ReceiverOf(p);
          if r.Data? && |r.got| == r.len {
            assert Enabled(capacity, s, Deliver(p)) && Carries(Deliver(p));
          } else {
            assert Enabled(capacity, s, InByte(p)) && Carries(InByte(p));
          }
      }
    }
  }
}
