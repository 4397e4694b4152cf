/** The I2C slave: an automaton that follows the two lines of the bus and calls the application.
    The bus protocol is that of NXP UM10204, section 3.1. */
module I2cSlave {
  import opened Arith
  import opened Bytes

  type Bit = x: int | 0 <= x < 2

  datatype Mode =
    | WaitingForStartOrStop | ReadingAddr | AckAddr | AckWaitHigh | AckWaitLow | IgnoreAck | MasterWrite | MasterRead

  datatype Callback = AckRead | AckWrite | Sent(data: nat) | Requires | StopBit

  /** The application: its answer to callback number k. */
  type App = nat -> nat

  /** I2C_SLAVE_ACK is zero. */
  predicate Acks(app: App, k: nat) {
    app(k) == 0
  }

  function Supplied(app: App, k: nat): Byte {
    Low(app(k))
  }

  /** The variables of i2c_slave; drive is 0 while it pulls the data line down. */
  datatype Slave = Slave(
    mode: Mode, next: Mode, sclVal: Bit, sdaVal: Bit, bitnum: nat, data: nat, rw: Bit,
    stopBitCheck: bool, ignoreStopBit: bool, drive: Bit,
    calls: seq<Callback>)

  /** The bus: the clock, the data line as everybody else drives it, and the slave. seen is what
      the data line was at each rising edge of the clock. */
  datatype Bus = Bus(scl: Bit, sda: Bit, slave: Slave, seen: seq<Bit>)
  {
    /** A line is high if nobody pulls it down. */
    function Sda(): Bit {
      if sda == 0 || slave.drive == 0 then 0 else 1
    }
  }

  function Start(): Bus {
    Bus(1, 1, Slave(WaitingForStartOrStop, WaitingForStartOrStop, 0, 0, 0, 0, 0, false, true, 1, []), [])
  }

  /** The lowest n bits of v in reverse: bitrev and the shift that goes with it. */
  function Mirrored(v: nat, n: nat): nat
    decreases n
  {
    if n == 0 then 0 else v % 2 * Pow2(n - 1) + Mirrored(v / 2, n - 1)
  }

  /** An event on the clock line. */
  function SclEvent(dev: nat, app: App, sda: Bit, s: Slave): Slave {
    var k := |s.calls|;
    match s.mode
    case WaitingForStartOrStop => s
    case ReadingAddr =>
      if s.sclVal == 0 then s.(sclVal := 1)
      else if s.bitnum < 7 then s.(data := 2 * s.data + sda, bitnum := s.bitnum + 1, sclVal := 0)
      else if s.data != dev then s.(mode := IgnoreAck, sclVal := 0)
      else s.(mode := AckAddr, rw := sda, sclVal := 0)
    case IgnoreAck => s.(next := WaitingForStartOrStop, sclVal := 1, mode := AckWaitHigh)
    case AckAddr =>
      var t := s.(calls := s.calls + [if s.rw == 1 then AckRead else AckWrite], ignoreStopBit := false,
                  sclVal := 1, mode := AckWaitHigh);
      if Acks(app, k) then t.(drive := 0, next := if s.rw == 1 then MasterRead else MasterWrite)
      else t.(drive := 1, next := WaitingForStartOrStop)
    case AckWaitHigh => s.(mode := AckWaitLow, sclVal := 0)
    case AckWaitLow =>
      var t := s.(drive := 1, mode := s.next, bitnum := 0);
      if s.next == MasterRead then t.(sclVal := 0)
      else if s.next == MasterWrite then t.(data := 0, sclVal := 1)
      else t.(sdaVal := 0)
    case MasterRead =>
      if s.sclVal == 1 then
        if s.bitnum == 8 then
          if sda == 1 then s.(mode := WaitingForStartOrStop, sdaVal := 0)
          else s.(bitnum := 0, sclVal := 0)
        else s.(sclVal := 0, bitnum := s.bitnum + 1)
      else if s.bitnum == 0 then
        var data := Mirrored(Supplied(app, k), 8);
        s.(calls := s.calls + [Requires], drive := data % 2, data := data / 2, sclVal := 1)
      else if s.bitnum < 8 then s.(drive := s.data % 2, data := s.data / 2, sclVal := 1)
      else s.(drive := 1, sclVal := 1)
    case MasterWrite =>
      if s.sclVal == 1 then
        var t := s.(data := 2 * s.data + sda, sclVal := 0, bitnum := s.bitnum + 1);
        if s.bitnum == 0 then t.(sdaVal := 1 - sda, stopBitCheck := true) else t
      else if s.bitnum == 8 then
        s.(stopBitCheck := false, calls := s.calls + [Sent(s.data)], drive := if Acks(app, k) then 0 else 1,
           mode := AckWaitHigh, sclVal := 1)
      else s.(stopBitCheck := false, sclVal := 1)
  }

  /** An event on the data line. */
  function SdaEvent(scl: Bit, s: Slave): Slave {
    if s.sdaVal == 1 then
      if scl == 1 then
        s.(calls := if s.ignoreStopBit then s.calls else s.calls + [StopBit],
           mode := WaitingForStartOrStop, ignoreStopBit := true, stopBitCheck := false, sdaVal := 0)
      else s.(sdaVal := 0)
    else if scl == 1 then
      s.(mode := ReadingAddr, bitnum := 0, data := 0, sclVal := 0, stopBitCheck := false)
    else s.(sdaVal := 1)
  }

  /** Which events are enabled, and whether the lines have the values they wait for. */
  predicate SclReady(b: Bus) {
    b.slave.mode != WaitingForStartOrStop && b.scl == b.slave.sclVal
  }

  predicate SdaReady(b: Bus) {
    (b.slave.mode == WaitingForStartOrStop || b.slave.stopBitCheck) && b.Sda() == b.slave.sdaVal
  }

  /** The event loop handles one event, if there is one. */
  function Handle(dev: nat, app: App, b: Bus): Bus {
    if SclReady(b) then b.(slave := SclEvent(dev, app, b.Sda(), b.slave))
    else if SdaReady(b) then b.(slave := SdaEvent(b.scl, b.slave))
    else b
  }

  /** The event loop runs until no event is left: never more than three in a row. */
  function Settle(dev: nat, app: App, b: Bus): Bus {
    Handle(dev, app, Handle(dev, app, Handle(dev, app, b)))
  }

  /** What the other devices on the bus do. */
  datatype Action = Scl(v: Bit) | Data(v: Bit)

  function Act(dev: nat, app: App, b: Bus, a: Action): Bus {
    match a
    case Scl(v) =>
      var seen := if v == 1 && b.scl == 0 then b.seen + [b.Sda()] else b.seen;
      Settle(dev, app, b.(scl := v, seen := seen))
    case Data(v) => Settle(dev, app, b.(sda := v))
  }

  predicate Settled(b: Bus) {
    !SclReady(b) && !SdaReady(b)
  }

  /** The actions lead from b to c, and after each of them all events are handled. */
  predicate Path(dev: nat, app: App, b: Bus, actions: seq<Action>, c: Bus)
    decreases |actions|
  {
    if actions == [] then b == c
    else
      var n := Act(dev, app, b, actions[0]);
      Settled(n) && Path(dev, app, n, actions[1..], c)
  }

  lemma {:induction false} Join(dev: nat, app: App, b: Bus, x: seq<Action>, c: Bus, y: seq<Action>, d: Bus)
    requires Path(dev, app, b, x, c) && Path(dev, app, c, y, d)
    ensures Path(dev, app, b, x + y, d)
    decreases |x|
  {
    hide Act, Settled;
    if x == [] {
      assert x + y == y;
    } else {
      Join(dev, app, Act(dev, app, b, x[0]), x[1..], c, y, d);
      assert (x + y)[0] == x[0] && (x + y)[1..] == x[1..] + y;
    }
  }

  lemma Three(dev: nat, app: App, b: Bus, x: Action, b1: Bus, y: Action, b2: Bus, z: Action, c: Bus)
    requires b1 == Act(dev, app, b, x) && Settled(b1)
    requires b2 == Act(dev, app, b1, y) && Settled(b2)
    requires c == Act(dev, app, b2, z) && Settled(c)
    ensures Path(dev, app, b, [x, y, z], c)
  {
    hide Act, Settled;
    assert [x, y, z][1..] == [y, z] && [y, z][1..] == [z] && [z][1..] == [];
    assert Path(dev, app, b2, [z], c);
    assert Path(dev, app, b1, [y, z], c);
  }

  // ----- one clock pulse -----

  /** The other devices put a bit on the bus and pulse the clock. */
  function Clock(v: Bit): seq<Action> {
    [Data(v), Scl(1), Scl(0)]
  }

  /** Between two pulses the slave only waits for the clock to rise. */
  predicate Clocked(b: Bus) {
    b.scl == 0 && b.slave.mode != WaitingForStartOrStop && b.slave.sclVal == 1 && !b.slave.stopBitCheck
  }

  lemma DataQuiet(dev: nat, app: App, b: Bus, v: Bit)
    requires Clocked(b)
    ensures Act(dev, app, b, Data(v)) == b.(sda := v) && Settled(b.(sda := v))
  {
    hide SclEvent, SdaEvent;
  }

  /** Reading the address: k bits, with value d, are in. */
  predicate InAddress(b: Bus, k: nat, d: nat) {
    Clocked(b) && b.slave.mode == ReadingAddr && b.slave.bitnum == k && b.slave.data == d && b.slave.drive == 1
  }

  /** Nothing else has changed between b and c. */
  predicate Same(b: Bus, c: Bus) {
    c.slave.calls == b.slave.calls && c.slave.ignoreStopBit == b.slave.ignoreStopBit
  }

  lemma AddressBit(dev: nat, app: App, b: Bus, k: nat, d: nat, v: Bit) returns (c: Bus)
    requires InAddress(b, k, d) && k < 7
    ensures Path(dev, app, b, Clock(v), c) && InAddress(c, k + 1, 2 * d + v) && Same(b, c)
    ensures c.seen == b.seen + [v]
  {
    var b1 := b.(sda := v);
    DataQuiet(dev, app, b, v);
    var b2 := Act(dev, app, b1, Scl(1));
    assert b2 == b1.(scl := 1, seen := b.seen + [v],
      slave := b.slave.(data := 2 * d + v, bitnum := k + 1, sclVal := 0)) && Settled(b2);
    c := Act(dev, app, b2, Scl(0));
    assert c == b2.(scl := 0, slave := b2.slave.(sclVal := 1)) && Settled(c);
    hide Act, Settled;
    Three(dev, app, b, Data(v), b1, Scl(1), b2, Scl(0), c);
  }

  /** The slave has decided: next is what follows the acknowledge slot, answer what it drives there. */
  predicate InAck(b: Bus, next: Mode, answer: Bit) {
    Clocked(b) && b.slave.mode == AckWaitHigh && b.slave.next == next && b.slave.drive == answer
  }

  /** The address is complete, and so is the R/W bit: the slave decides. */
  lemma AddressDone(dev: nat, app: App, b: Bus, addr: nat, rw: Bit) returns (c: Bus)
    requires InAddress(b, 7, addr)
    ensures Path(dev, app, b, Clock(rw), c) && c.seen == b.seen + [rw]
    ensures addr != dev ==> InAck(c, WaitingForStartOrStop, 1) && Same(b, c)
    ensures addr == dev ==>
      c.slave.calls == b.slave.calls + [if rw == 1 then AckRead else AckWrite] && !c.slave.ignoreStopBit &&
      if Acks(app, |b.slave.calls|) then InAck(c, if rw == 1 then MasterRead else MasterWrite, 0)
      else InAck(c, WaitingForStartOrStop, 1)
  {
    var b1 := b.(sda := rw);
    DataQuiet(dev, app, b, rw);
    var b2 := Act(dev, app, b1, Scl(1));
    assert b2.seen == b.seen + [rw] && b2.scl == 1 && b2.sda == rw && Settled(b2);
    assert b2.slave ==
      if addr != dev then b.slave.(mode := IgnoreAck, sclVal := 0)
      else b.slave.(mode := AckAddr, rw := rw, sclVal := 0);
    c := Act(dev, app, b2, Scl(0));
    assert c.seen == b2.seen && c.scl == 0 && c.sda == rw && Settled(c);
    hide Settle;
    Three(dev, app, b, Data(rw), b1, Scl(1), b2, Scl(0), c);
  }

  // ----- the phases after the acknowledge slot -----

  /** The slave takes no part: it follows the data line for a start or stop condition. */
  predicate Ignoring(b: Bus) {
    b.scl == 0 && b.slave.mode == WaitingForStartOrStop && b.slave.drive == 1 && !b.slave.stopBitCheck &&
    b.slave.sdaVal == 1 - b.sda
  }

  /** Receiving a byte: k bits, with value d, are in. */
  predicate InWrite(b: Bus, k: nat, d: nat) {
    Clocked(b) && b.slave.mode == MasterWrite && b.slave.next == MasterWrite && b.slave.bitnum == k &&
    b.slave.data == d && b.slave.drive == 1
  }

  /** v without its n low bits, and the lowest bit of what is left. */
  function Top(v: nat, n: nat): nat
    decreases n
  {
    if n == 0 then v else Top(v / 2, n - 1)
  }

  function BitOf(v: nat, n: nat): Bit {
    Top(v, n) % 2
  }

  /** Sending byte v: bit k, counted from the top, is on the line. */
  predicate InRead(b: Bus, k: nat, v: nat) {
    Clocked(b) && b.slave.mode == MasterRead && b.slave.bitnum == k && k < 8 &&
    b.slave.drive == BitOf(v, 7 - k) && b.slave.data == Mirrored(v, 7 - k)
  }

  lemma AckIgnored(dev: nat, app: App, b: Bus, v: Bit) returns (c: Bus)
    requires InAck(b, WaitingForStartOrStop, 1)
    ensures Path(dev, app, b, Clock(v), c) && Ignoring(c) && Same(b, c) && c.seen == b.seen + [v]
  {
    var b1 := b.(sda := v);
    DataQuiet(dev, app, b, v);
    var b2 := Act(dev, app, b1, Scl(1));
    assert b2 == b1.(scl := 1, seen := b.seen + [v], slave := b.slave.(mode := AckWaitLow, sclVal := 0)) && Settled(b2);
    c := Act(dev, app, b2, Scl(0));
    assert c == b2.(scl := 0, slave := b2.slave.(mode := WaitingForStartOrStop, bitnum := 0, sdaVal := 1 - v));
    assert Settled(c);
    hide Act, Settled;
    Three(dev, app, b, Data(v), b1, Scl(1), b2, Scl(0), c);
  }

  /** The data line is released for the slave's answer, and the next byte is expected. */
  lemma AckToWrite(dev: nat, app: App, b: Bus, answer: Bit) returns (c: Bus)
    requires InAck(b, MasterWrite, answer)
    ensures Path(dev, app, b, Clock(1), c) && InWrite(c, 0, 0) && Same(b, c) && c.seen == b.seen + [answer]
  {
    var b1 := b.(sda := 1);
    DataQuiet(dev, app, b, 1);
    var b2 := Act(dev, app, b1, Scl(1));
    assert b2 == b1.(scl := 1, seen := b.seen + [answer],
      slave := b.slave.(mode := AckWaitLow, sclVal := 0)) && Settled(b2);
    c := Act(dev, app, b2, Scl(0));
    assert c == b2.(scl := 0, slave := b2.slave.(mode := MasterWrite, bitnum := 0, drive := 1, data := 0, sclVal := 1));
    assert Settled(c);
    hide Act, Settled;
    Three(dev, app, b, Data(1), b1, Scl(1), b2, Scl(0), c);
  }

  lemma {:induction false} MirroredBits(v: nat, n: nat)
    requires 0 < n
    ensures Mirrored(v, n) % 2 == BitOf(v, n - 1) && Mirrored(v, n) / 2 == Mirrored(v, n - 1)
    decreases n
  {
    if n == 1 {
      assert Mirrored(v, 1) == v % 2 * 1 + Mirrored(v / 2, 0);
    } else {
      MirroredBits(v / 2, n - 1);
      var p, r := Pow2(n - 2), Mirrored(v / 2, n - 1);
      assert Pow2(n - 1) == 2 * p;
      var t := v % 2 * p;
      assert v % 2 * Pow2(n - 1) == 2 * t;
      assert Mirrored(v, n) == 2 * t + r;
      assert (2 * t + r) % 2 == r % 2 && (2 * t + r) / 2 == t + r / 2;
    }
  }

  /** The slave starts to send: it asks for a byte and puts its top bit on the line. */
  lemma AckToRead(dev: nat, app: App, b: Bus) returns (c: Bus)
    requires InAck(b, MasterRead, 0)
    ensures Path(dev, app, b, Clock(1), c) && InRead(c, 0, Supplied(app, |b.slave.calls|))
    ensures c.slave.calls == b.slave.calls + [Requires] && c.slave.ignoreStopBit == b.slave.ignoreStopBit
    ensures c.seen == b.seen + [0]
  {
    var v := Supplied(app, |b.slave.calls|);
    MirroredBits(v, 8);
    hide Mirrored, BitOf, Supplied;
    var b1 := b.(sda := 1);
    DataQuiet(dev, app, b, 1);
    var b2 := Act(dev, app, b1, Scl(1));
    assert b2 == b1.(scl := 1, seen := b.seen + [0], slave := b.slave.(mode := AckWaitLow, sclVal := 0)) && Settled(b2);
    c := Act(dev, app, b2, Scl(0));
    assert c == b2.(scl := 0, slave := b2.slave.(mode := MasterRead, bitnum := 0, sclVal := 1,
      calls := b.slave.calls + [Requires], drive := BitOf(v, 7), data := Mirrored(v, 7)));
    assert Settled(c);
    hide Act, Settled;
    Three(dev, app, b, Data(1), b1, Scl(1), b2, Scl(0), c);
  }

  lemma WriteBit(dev: nat, app: App, b: Bus, k: nat, d: nat, v: Bit) returns (c: Bus)
    requires InWrite(b, k, d) && k < 7
    ensures Path(dev, app, b, Clock(v), c) && InWrite(c, k + 1, 2 * d + v) && Same(b, c)
    ensures c.seen == b.seen + [v]
  {
    var b1 := b.(sda := v);
    DataQuiet(dev, app, b, v);
    var b2 := Act(dev, app, b1, Scl(1));
    var s := b.slave.(data := 2 * d + v, sclVal := 0, bitnum := k + 1);
    assert b2 == b1.(scl := 1, seen := b.seen + [v],
      slave := if k == 0 then s.(sdaVal := 1 - v, stopBitCheck := true) else s) && Settled(b2);
    c := Act(dev, app, b2, Scl(0));
    assert c == b2.(scl := 0, slave := b2.slave.(stopBitCheck := false, sclVal := 1)) && Settled(c);
    hide Act, Settled;
    Three(dev, app, b, Data(v), b1, Scl(1), b2, Scl(0), c);
  }

  function AckBit(app: App, k: nat): Bit {
    if Acks(app, k) then 0 else 1
  }

  lemma WriteDone(dev: nat, app: App, b: Bus, d: nat, v: Bit) returns (c: Bus)
    requires InWrite(b, 7, d)
    ensures Path(dev, app, b, Clock(v), c) && InAck(c, MasterWrite, AckBit(app, |b.slave.calls|))
    ensures c.slave.calls == b.slave.calls + [Sent(2 * d + v)] && c.slave.ignoreStopBit == b.slave.ignoreStopBit
    ensures c.seen == b.seen + [v]
  {
    var b1 := b.(sda := v);
    DataQuiet(dev, app, b, v);
    var b2 := Act(dev, app, b1, Scl(1));
    assert b2 == b1.(scl := 1, seen := b.seen + [v],
      slave := b.slave.(data := 2 * d + v, sclVal := 0, bitnum := 8)) && Settled(b2);
    c := Act(dev, app, b2, Scl(0));
    assert c == b2.(scl := 0, slave := b2.slave.(stopBitCheck := false, calls := b.slave.calls + [Sent(2 * d + v)],
      drive := AckBit(app, |b.slave.calls|), mode := AckWaitHigh, sclVal := 1)) && Settled(c);
    hide Act, Settled;
    Three(dev, app, b, Data(v), b1, Scl(1), b2, Scl(0), c);
  }

  lemma ReadBit(dev: nat, app: App, b: Bus, k: nat, v: nat) returns (c: Bus)
    requires InRead(b, k, v) && k < 7
    ensures Path(dev, app, b, Clock(1), c) && InRead(c, k + 1, v) && Same(b, c)
    ensures c.seen == b.seen + [BitOf(v, 7 - k)]
  {
    hide Mirrored, BitOf, Act, Settled;
    var b1 := b.(sda := 1);
    DataQuiet(dev, app, b, 1);
    var b2 := ReadBitRises(dev, app, b1, k, v);
    c := ReadBitFalls(dev, app, b2, k, v);
    Three(dev, app, b, Data(1), b1, Scl(1), b2, Scl(0), c);
  }

  lemma ReadBitRises(dev: nat, app: App, b: Bus, k: nat, v: nat) returns (c: Bus)
    requires InRead(b, k, v) && k < 7 && b.sda == 1
    ensures c == Act(dev, app, b, Scl(1)) && Settled(c)
    ensures c == b.(scl := 1, seen := b.seen + [BitOf(v, 7 - k)], slave := b.slave.(sclVal := 0, bitnum := k + 1))
  {
    hide Mirrored, BitOf, SdaEvent;
    c := Act(dev, app, b, Scl(1));
  }

  lemma ReadBitFalls(dev: nat, app: App, b: Bus, k: nat, v: nat) returns (c: Bus)
    requires b.scl == 1 && b.slave.mode == MasterRead && b.slave.sclVal == 0 && !b.slave.stopBitCheck && k < 7
    requires b.slave.bitnum == k + 1 && b.slave.data == Mirrored(v, 7 - k)
    ensures c == Act(dev, app, b, Scl(0)) && Settled(c)
    ensures c == b.(scl := 0, slave := b.slave.(sclVal := 1, drive := BitOf(v, 6 - k), data := Mirrored(v, 6 - k)))
  {
    MirroredBits(v, 7 - k);
    hide Mirrored, BitOf, SdaEvent;
    c := Act(dev, app, b, Scl(0));
  }

  /** The byte is out, the line released for the master's answer. */
  predicate InReadAck(b: Bus) {
    Clocked(b) && b.slave.mode == MasterRead && b.slave.bitnum == 8 && b.slave.drive == 1
  }

  lemma ReadDone(dev: nat, app: App, b: Bus, v: nat) returns (c: Bus)
    requires InRead(b, 7, v)
    ensures Path(dev, app, b, Clock(1), c) && InReadAck(c) && Same(b, c)
    ensures c.seen == b.seen + [BitOf(v, 0)]
  {
    hide Mirrored, BitOf;
    var b1 := b.(sda := 1);
    DataQuiet(dev, app, b, 1);
    var b2 := Act(dev, app, b1, Scl(1));
    assert b2 == b1.(scl := 1, seen := b.seen + [BitOf(v, 0)],
      slave := b.slave.(sclVal := 0, bitnum := 8)) && Settled(b2);
    c := Act(dev, app, b2, Scl(0));
    assert c == b2.(scl := 0, slave := b2.slave.(sclVal := 1, drive := 1)) && Settled(c);
    hide Act, Settled;
    Three(dev, app, b, Data(1), b1, Scl(1), b2, Scl(0), c);
  }

  lemma MasterAcks(dev: nat, app: App, b: Bus) returns (c: Bus)
    requires InReadAck(b)
    ensures Path(dev, app, b, Clock(0), c) && InRead(c, 0, Supplied(app, |b.slave.calls|))
    ensures c.slave.calls == b.slave.calls + [Requires] && c.slave.ignoreStopBit == b.slave.ignoreStopBit
    ensures c.seen == b.seen + [0]
  {
    var v := Supplied(app, |b.slave.calls|);
    MirroredBits(v, 8);
    hide Mirrored, BitOf, Supplied;
    var b1 := b.(sda := 0);
    DataQuiet(dev, app, b, 0);
    var b2 := Act(dev, app, b1, Scl(1));
    assert b2 == b1.(scl := 1, seen := b.seen + [0], slave := b.slave.(sclVal := 0, bitnum := 0)) && Settled(b2);
    c := Act(dev, app, b2, Scl(0));
    assert c == b2.(scl := 0, slave := b2.slave.(sclVal := 1, calls := b.slave.calls + [Requires],
      drive := BitOf(v, 7), data := Mirrored(v, 7))) && Settled(c);
    hide Act, Settled;
    Three(dev, app, b, Data(0), b1, Scl(1), b2, Scl(0), c);
  }

  lemma MasterStopsReading(dev: nat, app: App, b: Bus) returns (c: Bus)
    requires InReadAck(b)
    ensures Path(dev, app, b, Clock(1), c) && Ignoring(c) && Same(b, c) && c.seen == b.seen + [1]
  {
    var b1 := b.(sda := 1);
    DataQuiet(dev, app, b, 1);
    var b2 := Act(dev, app, b1, Scl(1));
    assert b2 == b1.(scl := 1, seen := b.seen + [1],
      slave := b.slave.(mode := WaitingForStartOrStop, sdaVal := 0)) && Settled(b2);
    c := Act(dev, app, b2, Scl(0));
    assert c == b2.(scl := 0) && Settled(c);
    hide Act, Settled;
    Three(dev, app, b, Data(1), b1, Scl(1), b2, Scl(0), c);
  }

  /** Traffic between other devices. */
  lemma IgnoredBit(dev: nat, app: App, b: Bus, v: Bit) returns (c: Bus)
    requires Ignoring(b)
    ensures Path(dev, app, b, Clock(v), c) && Ignoring(c) && Same(b, c) && c.seen == b.seen + [v]
  {
    var b1 := Act(dev, app, b, Data(v));
    assert b1 == b.(sda := v, slave := b.slave.(sdaVal := 1 - v)) && Settled(b1);
    var b2 := Act(dev, app, b1, Scl(1));
    assert b2 == b1.(scl := 1, seen := b.seen + [v]) && Settled(b2);
    c := Act(dev, app, b2, Scl(0));
    assert c == b2.(scl := 0) && Settled(c);
    hide Act, Settled;
    Three(dev, app, b, Data(v), b1, Scl(1), b2, Scl(0), c);
  }

  // ----- start and stop conditions -----

  /** Both lines high, nothing going on. */
  predicate Free(b: Bus) {
    b.scl == 1 && b.sda == 1 && b.slave.mode == WaitingForStartOrStop && b.slave.drive == 1 &&
    b.slave.sdaVal == 0 && !b.slave.stopBitCheck && b.slave.ignoreStopBit
  }

  const START: seq<Action> := [Data(0), Scl(0)]
  const RESTART: seq<Action> := [Data(1), Scl(1)] + START
  const STOP: seq<Action> := [Data(0), Scl(1), Data(1)]

  lemma Two(dev: nat, app: App, b: Bus, x: Action, b1: Bus, y: Action, c: Bus)
    requires b1 == Act(dev, app, b, x) && Settled(b1)
    requires c == Act(dev, app, b1, y) && Settled(c)
    ensures Path(dev, app, b, [x, y], c)
  {
    hide Act, Settled;
    assert [x, y][1..] == [y] && [y][1..] == [];
    assert Path(dev, app, b1, [y], c);
  }

  lemma Starts(dev: nat, app: App, b: Bus) returns (c: Bus)
    requires Free(b)
    ensures Path(dev, app, b, START, c) && InAddress(c, 0, 0) && Same(b, c) && c.seen == b.seen
  {
    var b1 := Act(dev, app, b, Data(0));
    assert b1 == b.(sda := 0,
      slave := b.slave.(mode := ReadingAddr, bitnum := 0, data := 0, sclVal := 0)) && Settled(b1);
    c := Act(dev, app, b1, Scl(0));
    assert c == b1.(scl := 0, slave := b1.slave.(sclVal := 1)) && Settled(c);
    hide Act, Settled;
    Two(dev, app, b, Data(0), b1, Scl(0), c);
  }

  /** After a transfer: a byte may follow, or the slave takes no part. */
  predicate Between(b: Bus) {
    InWrite(b, 0, 0) || Ignoring(b)
  }

  /** The data line falls while the clock is high. */
  lemma StartIsSeen(dev: nat, app: App, b: Bus) returns (b3: Bus, c: Bus)
    requires b.scl == 1 && b.sda == 1 && b.slave.drive == 1 && b.slave.sdaVal == 0
    requires b.slave.mode == WaitingForStartOrStop ||
      (b.slave.stopBitCheck && b.slave.mode == MasterWrite && b.slave.sclVal == 0)
    ensures b3 == Act(dev, app, b, Data(0)) && Settled(b3)
    ensures c == Act(dev, app, b3, Scl(0)) && Settled(c)
    ensures InAddress(c, 0, 0) && Same(b, c) && c.seen == b.seen
  {
    b3 := Act(dev, app, b, Data(0));
    assert b3 == b.(sda := 0, slave := b.slave.(mode := ReadingAddr, bitnum := 0, data := 0, sclVal := 0,
      stopBitCheck := false)) && Settled(b3);
    c := Act(dev, app, b3, Scl(0));
    assert c == b3.(scl := 0, slave := b3.slave.(sclVal := 1)) && Settled(c);
  }

  lemma Restarts(dev: nat, app: App, b: Bus) returns (c: Bus)
    requires Between(b)
    ensures Path(dev, app, b, RESTART, c) && InAddress(c, 0, 0) && Same(b, c) && c.seen == b.seen + [1]
  {
    var b1 := Act(dev, app, b, Data(1));
    assert Settled(b1) && Same(b, b1) && b1.seen == b.seen && b1.sda == 1 && b1.scl == 0;
    assert if InWrite(b, 0, 0) then InWrite(b1, 0, 0) else Ignoring(b1);
    var b2 := Act(dev, app, b1, Scl(1));
    assert Settled(b2) && Same(b, b2) && b2.seen == b.seen + [1] && b2.sda == 1 && b2.scl == 1;
    assert b2.slave.drive == 1 && b2.slave.sdaVal == 0 &&
      (if InWrite(b, 0, 0) then b2.slave.stopBitCheck && b2.slave.mode == MasterWrite && b2.slave.sclVal == 0
       else b2.slave.mode == WaitingForStartOrStop);
    hide Act, Settled;
    var b3: Bus;
    b3, c := StartIsSeen(dev, app, b2);
    Two(dev, app, b, Data(1), b1, Scl(1), b2);
    Two(dev, app, b2, Data(0), b3, Scl(0), c);
    Join(dev, app, b, [Data(1), Scl(1)], b2, START, c);
  }

  /** The data line rises while the clock is high. */
  lemma StopIsSeen(dev: nat, app: App, b: Bus) returns (c: Bus)
    requires b.scl == 1 && b.sda == 0 && b.slave.drive == 1 && b.slave.sdaVal == 1
    requires b.slave.mode == WaitingForStartOrStop ||
      (b.slave.stopBitCheck && b.slave.mode == MasterWrite && b.slave.sclVal == 0)
    ensures c == Act(dev, app, b, Data(1)) && Settled(c) && Free(c) && c.seen == b.seen
    ensures c.slave.calls == if b.slave.ignoreStopBit then b.slave.calls else b.slave.calls + [StopBit]
  {
    hide SclEvent;
    c := Act(dev, app, b, Data(1));
  }

  lemma Stops(dev: nat, app: App, b: Bus) returns (c: Bus)
    requires Between(b)
    ensures Path(dev, app, b, STOP, c) && Free(c) && c.seen == b.seen + [0]
    ensures c.slave.calls == if b.slave.ignoreStopBit then b.slave.calls else b.slave.calls + [StopBit]
  {
    var b1 := Act(dev, app, b, Data(0));
    assert Settled(b1) && Same(b, b1) && b1.seen == b.seen && b1.sda == 0 && b1.scl == 0;
    assert if InWrite(b, 0, 0) then InWrite(b1, 0, 0) else Ignoring(b1);
    var b2 := Act(dev, app, b1, Scl(1));
    assert Settled(b2) && Same(b, b2) && b2.seen == b.seen + [0] && b2.sda == 0 && b2.scl == 1;
    assert b2.slave.drive == 1 && b2.slave.sdaVal == 1 &&
      (if InWrite(b, 0, 0) then b2.slave.stopBitCheck && b2.slave.mode == MasterWrite && b2.slave.sclVal == 0
       else b2.slave.mode == WaitingForStartOrStop);
    hide Act, Settled;
    c := StopIsSeen(dev, app, b2);
    Three(dev, app, b, Data(0), b1, Scl(1), b2, Data(1), c);
  }

  // ----- where a start or stop condition is seen -----

  /** The clock is low and all events are handled: the slave takes no part, or it is somewhere
      inside an address, a byte or an acknowledge slot and leaves the line to the others. */
  predicate Midway(b: Bus) {
    || Ignoring(b)
    || (Clocked(b) && b.slave.drive == 1 &&
        (b.slave.mode == ReadingAddr || b.slave.mode == AckWaitHigh || b.slave.mode == MasterWrite ||
         b.slave.mode == MasterRead))
  }

  /** The first bit of a written byte. */
  predicate AtByteStart(b: Bus) {
    b.slave.mode == MasterWrite && b.slave.bitnum == 0
  }

  /** The slot in which the master answers a byte it has read. */
  predicate AtMastersAnswer(b: Bus) {
    b.slave.mode == MasterRead && b.slave.bitnum == 8
  }

  function ClockRises(dev: nat, app: App, b: Bus, v: Bit): Bus {
    Act(dev, app, Act(dev, app, b, Data(v)), Scl(1))
  }

  /** The master lets the data line rise, then the clock, and changes the data line: a start
      condition if v is 1, a stop condition if it is 0. */
  function Condition(dev: nat, app: App, b: Bus, v: Bit): Bus {
    Act(dev, app, ClockRises(dev, app, b, v), Data(1 - v))
  }

  /** The slave begins to read an address. */
  predicate StartSeen(dev: nat, app: App, b: Bus) {
    var s := Condition(dev, app, b, 1).slave;
    s.mode == ReadingAddr && s.bitnum == 0
  }

  predicate StopSeen(dev: nat, app: App, b: Bus) {
    Condition(dev, app, b, 0).slave.mode == WaitingForStartOrStop
  }

  /** Whether the slave watches the data line for a condition after the clock has risen. */
  predicate Watches(b: Bus, v: Bit) {
    (b.slave.mode == WaitingForStartOrStop || b.slave.stopBitCheck) && b.slave.sdaVal == 1 - v
  }

  predicate SclWaitsToFall(b: Bus) {
    b.slave.mode != WaitingForStartOrStop ==> b.slave.sclVal == 0
  }

  /** The bus after the clock has risen: the slave watches for a condition, or not at all. */
  predicate Risen(b: Bus, v: Bit, watching: bool) {
    && Settled(b) && b.scl == 1 && b.sda == v && b.slave.drive == 1 && SclWaitsToFall(b)
    && (b.slave.mode == ReadingAddr ==> 0 < b.slave.bitnum)
    && (if watching then Watches(b, v) else b.slave.mode != WaitingForStartOrStop && !b.slave.stopBitCheck)
  }

  lemma IgnoringWatches(dev: nat, app: App, b: Bus, v: Bit)
    requires Ignoring(b)
    ensures Risen(ClockRises(dev, app, b, v), v, true)
  {
    hide SclEvent;
    var b1 := Act(dev, app, b, Data(v));
    assert b1 == b.(sda := v, slave := b.slave.(sdaVal := 1 - v));
  }

  lemma ByteWatches(dev: nat, app: App, b: Bus, v: Bit)
    requires Clocked(b) && b.slave.drive == 1 && (b.slave.mode == MasterWrite || b.slave.mode == MasterRead)
    ensures Risen(ClockRises(dev, app, b, v), v, AtByteStart(b) || (v == 1 && AtMastersAnswer(b)))
  {
    hide SdaEvent;
    DataQuiet(dev, app, b, v);
    var b1 := b.(sda := v, scl := 1, seen := b.seen + [v]);
    var b2 := b1.(slave := SclEvent(dev, app, v, b.slave));
    assert Handle(dev, app, b1) == b2 && Handle(dev, app, b2) == b2;
  }

  lemma AddressWatches(dev: nat, app: App, b: Bus, v: Bit)
    requires Clocked(b) && b.slave.drive == 1 && (b.slave.mode == ReadingAddr || b.slave.mode == AckWaitHigh)
    ensures Risen(ClockRises(dev, app, b, v), v, false)
  {
    hide SdaEvent;
    DataQuiet(dev, app, b, v);
    var b1 := b.(sda := v, scl := 1, seen := b.seen + [v]);
    var b2 := b1.(slave := SclEvent(dev, app, v, b.slave));
    assert Handle(dev, app, b1) == b2 && Handle(dev, app, b2) == b2;
  }

  /** What the slave watches for once the clock has risen. */
  lemma WatchesIff(dev: nat, app: App, b: Bus, v: Bit)
    requires Midway(b)
    ensures Risen(ClockRises(dev, app, b, v), v, Ignoring(b) || AtByteStart(b) || (v == 1 && AtMastersAnswer(b)))
  {
    hide ClockRises, Risen;
    if Ignoring(b) {
      IgnoringWatches(dev, app, b, v);
    } else if b.slave.mode == MasterWrite || b.slave.mode == MasterRead {
      ByteWatches(dev, app, b, v);
    } else {
      AddressWatches(dev, app, b, v);
    }
  }

  /** A start condition is recognised, with nothing read of the address yet, exactly if the slave
      takes no part in the transfer, expects the first bit of a written byte, or waits for the
      master's answer to a byte. Inside an address, a byte or the acknowledge slot after them it is not. */
  lemma StartRecognisedIff(dev: nat, app: App, b: Bus)
    requires Midway(b)
    ensures StartSeen(dev, app, b) <==> Ignoring(b) || AtByteStart(b) || AtMastersAnswer(b)
  {
    hide Act, ClockRises, Settled;
    WatchesIff(dev, app, b, 1);
    DataChanges(dev, app, ClockRises(dev, app, b, 1), 1, Ignoring(b) || AtByteStart(b) || AtMastersAnswer(b));
  }

  /** A stop condition is recognised exactly if the slave takes no part in the transfer or
      expects the first bit of a written byte. */
  lemma StopRecognisedIff(dev: nat, app: App, b: Bus)
    requires Midway(b)
    ensures StopSeen(dev, app, b) <==> Ignoring(b) || AtByteStart(b)
  {
    hide Act, ClockRises, Settled;
    WatchesIff(dev, app, b, 0);
    DataChanges(dev, app, ClockRises(dev, app, b, 0), 0, Ignoring(b) || AtByteStart(b));
  }

  lemma DataChanges(dev: nat, app: App, b: Bus, v: Bit, watching: bool)
    requires Risen(b, v, watching)
    ensures var s := Act(dev, app, b, Data(1 - v)).slave;
      if !watching then s == b.slave
      else if v == 1 then s.mode == ReadingAddr && s.bitnum == 0
      else s.mode == WaitingForStartOrStop
  {
    hide SclEvent;
  }

  /** What holds of the automaton between any two events. */
  predicate Steady(s: Slave) {
    && (s.stopBitCheck ==> s.mode == MasterWrite && s.sclVal == 0)
    && (s.mode == AckAddr || s.mode == IgnoreAck || s.mode == AckWaitLow ==> s.sclVal == 0)
    && (s.mode == AckWaitHigh || s.mode == AckWaitLow ==>
          s.next == WaitingForStartOrStop || s.next == MasterWrite || s.next == MasterRead)
    && (s.mode == MasterWrite ==> s.next == MasterWrite)
  }

  lemma HandleKeepsSteady(dev: nat, app: App, b: Bus)
    requires Steady(b.slave)
    ensures Steady(Handle(dev, app, b).slave)
  {
    hide Supplied, Mirrored, Acks;
  }

  lemma ActKeepsSteady(dev: nat, app: App, b: Bus, a: Action)
    requires Steady(b.slave)
    ensures Steady(Act(dev, app, b, a).slave)
  {
    hide Handle, Steady;
    var x := match a
      case Scl(v) => b.(scl := v, seen := if v == 1 && b.scl == 0 then b.seen + [b.Sda()] else b.seen)
      case Data(v) => b.(sda := v);
    HandleKeepsSteady(dev, app, x);
    HandleKeepsSteady(dev, app, Handle(dev, app, x));
    HandleKeepsSteady(dev, app, Handle(dev, app, Handle(dev, app, x)));
  }

  lemma {:induction false} PathKeepsSteady(dev: nat, app: App, b: Bus, actions: seq<Action>, c: Bus)
    requires Steady(b.slave) && Path(dev, app, b, actions, c)
    ensures Steady(c.slave) && (actions != [] ==> Settled(c))
    decreases |actions|
  {
    hide Act, Steady, Settled;
    if actions != [] {
      ActKeepsSteady(dev, app, b, actions[0]);
      PathKeepsSteady(dev, app, Act(dev, app, b, actions[0]), actions[1..], c);
      assert |actions| == 1 ==> actions[1..] == [];
    }
  }

  /** In every run from the start, legal or not, a bus with the clock low that the slave does not
      hold is one of those that the two conditions are about. */
  lemma RunsAreMidway(dev: nat, app: App, actions: seq<Action>, b: Bus)
    requires Path(dev, app, Start(), actions, b) && b.scl == 0 && b.slave.drive == 1
    ensures Midway(b)
  {
    hide Act;
    PathKeepsSteady(dev, app, Start(), actions, b);
  }

  // ----- bytes -----

  /** The n low bits of v, the most significant one first. */
  function MsbBits(v: nat, n: nat): (r: seq<Bit>)
    ensures |r| == n
    decreases n
  {
    if n == 0 then [] else MsbBits(v / 2, n - 1) + [v % 2]
  }

  function Clocks(bits: seq<Bit>): seq<Action> {
    if bits == [] then [] else Clocks(bits[..|bits| - 1]) + Clock(bits[|bits| - 1])
  }

  /** Clocking in bits leads from b to c, and on the data line one sees the bits of seen. */
  predicate Goes(dev: nat, app: App, b: Bus, bits: seq<Bit>, c: Bus, seen: seq<Bit>) {
    Path(dev, app, b, Clocks(bits), c) && c.seen == b.seen + seen
  }

  lemma {:induction false} ClocksJoin(x: seq<Bit>, y: seq<Bit>)
    ensures Clocks(x + y) == Clocks(x) + Clocks(y)
    decreases |y|
  {
    if y == [] {
      assert x + y == x;
    } else {
      var n := |y| - 1;
      ClocksJoin(x, y[..n]);
      assert (x + y)[..|x + y| - 1] == x + y[..n];
    }
  }

  lemma GoesOn(dev: nat, app: App, b: Bus, x: seq<Bit>, c: Bus, s: seq<Bit>, y: seq<Bit>, d: Bus, t: seq<Bit>)
    requires Goes(dev, app, b, x, c, s) && Goes(dev, app, c, y, d, t)
    ensures Goes(dev, app, b, x + y, d, s + t)
  {
    hide Path, Clocks;
    ClocksJoin(x, y);
    Join(dev, app, b, Clocks(x), c, Clocks(y), d);
  }

  lemma GoesNowhere(dev: nat, app: App, b: Bus)
    ensures Goes(dev, app, b, [], b, [])
  {}

  lemma GoesOne(dev: nat, app: App, b: Bus, v: Bit, c: Bus, w: Bit)
    requires Path(dev, app, b, Clock(v), c) && c.seen == b.seen + [w]
    ensures Goes(dev, app, b, [v], c, [w])
  {
    hide Path;
    assert [v][..0] == [];
    assert Clocks([v]) == Clocks([]) + Clock(v);
    assert Clocks([v]) == Clock(v);
  }

  lemma {:induction false} AddressBits(dev: nat, app: App, b: Bus, v: nat, n: nat) returns (c: Bus)
    requires InAddress(b, 0, 0) && n <= 7 && v < Pow2(n)
    ensures InAddress(c, n, v) && Same(b, c) && Goes(dev, app, b, MsbBits(v, n), c, MsbBits(v, n))
    decreases n
  {
    if n == 0 {
      c := b;
    } else {
      hide InAddress, Goes, Path;
      c := AddressBits(dev, app, b, v / 2, n - 1);
      var d := AddressBit(dev, app, c, n - 1, v / 2, v % 2);
      GoesOne(dev, app, c, v % 2, d, v % 2);
      GoesOn(dev, app, b, MsbBits(v / 2, n - 1), c, MsbBits(v / 2, n - 1), [v % 2], d, [v % 2]);
      c := d;
    }
  }

  lemma {:induction false} WriteBits(dev: nat, app: App, b: Bus, v: nat, n: nat) returns (c: Bus)
    requires InWrite(b, 0, 0) && n <= 7 && v < Pow2(n)
    ensures InWrite(c, n, v) && Same(b, c) && Goes(dev, app, b, MsbBits(v, n), c, MsbBits(v, n))
    decreases n
  {
    if n == 0 {
      c := b;
    } else {
      hide InWrite, Goes, Path;
      c := WriteBits(dev, app, b, v / 2, n - 1);
      var d := WriteBit(dev, app, c, n - 1, v / 2, v % 2);
      GoesOne(dev, app, c, v % 2, d, v % 2);
      GoesOn(dev, app, b, MsbBits(v / 2, n - 1), c, MsbBits(v / 2, n - 1), [v % 2], d, [v % 2]);
      c := d;
    }
  }

  lemma MsbSplit(v: Byte) returns (hi: nat, lo: Bit)
    ensures v == 2 * hi + lo && hi < Pow2(7) && MsbBits(v, 8) == MsbBits(hi, 7) + [lo]
  {
    var n: int := v;
    hi, lo := n / 2, n % 2;
    assert Pow2(4) == 16 && Pow2(7) == 8 * Pow2(4);
  }

  /** Eight bits of the master: the byte is handed to the application. */
  lemma WriteEightBits(dev: nat, app: App, b: Bus, v: Byte) returns (c: Bus)
    requires InWrite(b, 0, 0)
    ensures InAck(c, MasterWrite, AckBit(app, |b.slave.calls|)) && c.slave.ignoreStopBit == b.slave.ignoreStopBit
    ensures c.slave.calls == b.slave.calls + [Sent(v)]
    ensures Goes(dev, app, b, MsbBits(v, 8), c, MsbBits(v, 8))
  {
    hide InWrite, InAck, Goes, Path, AckBit, Pow2, MsbBits;
    var hi, lo := MsbSplit(v);
    var x := WriteBits(dev, app, b, hi, 7);
    c := WriteDone(dev, app, x, hi, lo);
    GoesOne(dev, app, x, lo, c, lo);
    GoesOn(dev, app, b, MsbBits(hi, 7), x, MsbBits(hi, 7), [lo], c, [lo]);
  }

  /** And the slave's answer. */
  lemma WriteByte(dev: nat, app: App, b: Bus, v: Byte) returns (c: Bus)
    requires InWrite(b, 0, 0)
    ensures InWrite(c, 0, 0) && c.slave.ignoreStopBit == b.slave.ignoreStopBit
    ensures c.slave.calls == b.slave.calls + [Sent(v)]
    ensures Goes(dev, app, b, MsbBits(v, 8) + [1], c, MsbBits(v, 8) + [AckBit(app, |b.slave.calls|)])
  {
    hide InWrite, InAck, Goes, Path, AckBit, MsbBits;
    var y := WriteEightBits(dev, app, b, v);
    var answer := AckBit(app, |b.slave.calls|);
    c := AckToWrite(dev, app, y, answer);
    GoesOne(dev, app, y, 1, c, answer);
    GoesOn(dev, app, b, MsbBits(v, 8), y, MsbBits(v, 8), [1], c, [answer]);
  }

  function Ones(n: nat): (r: seq<Bit>)
    ensures |r| == n
  {
    if n == 0 then [] else Ones(n - 1) + [1]
  }

  lemma {:induction false} ReadBits(dev: nat, app: App, b: Bus, v: nat, k: nat) returns (c: Bus)
    requires InRead(b, 0, v) && k <= 7
    ensures InRead(c, k, v) && Same(b, c) && Goes(dev, app, b, Ones(k), c, MsbBits(Top(v, 8 - k), k))
    decreases k
  {
    hide InRead, Top, MsbBits, BitOf, Mirrored, Goes, Clocks, Path;
    if k == 0 {
      c := b;
      GoesNowhere(dev, app, b);
      assert MsbBits(Top(v, 8), 0) == [];
    } else {
      c := ReadBits(dev, app, b, v, k - 1);
      var d := ReadOneBit(dev, app, c, v, k - 1);
      var bit := BitOf(v, 8 - k);
      var before := MsbBits(Top(v, 9 - k), k - 1);
      GoesOn(dev, app, b, Ones(k - 1), c, before, [1], d, [bit]);
      TopBits(v, k);
      c := d;
    }
  }

  lemma ReadOneBit(dev: nat, app: App, b: Bus, v: nat, k: nat) returns (c: Bus)
    requires InRead(b, k, v) && k < 7
    ensures InRead(c, k + 1, v) && Same(b, c) && Goes(dev, app, b, [1], c, [BitOf(v, 7 - k)])
  {
    hide InRead, Goes, Path, BitOf;
    c := ReadBit(dev, app, b, k, v);
    GoesOne(dev, app, b, 1, c, BitOf(v, 7 - k));
  }

  lemma {:induction false} TopHalf(v: nat, n: nat)
    ensures Top(v, n + 1) == Top(v, n) / 2
    decreases n
  {
    if n != 0 {
      TopHalf(v / 2, n - 1);
    }
  }

  lemma TopBits(v: nat, k: nat)
    requires 0 < k <= 8
    ensures MsbBits(Top(v, 9 - k), k - 1) + [BitOf(v, 8 - k)] == MsbBits(Top(v, 8 - k), k)
  {
    TopHalf(v, 8 - k);
  }

  /** Eight bits of the slave, up to the master's answer. */
  lemma ReadByte(dev: nat, app: App, b: Bus, v: Byte) returns (c: Bus)
    requires InRead(b, 0, v)
    ensures InReadAck(c) && Same(b, c) && Goes(dev, app, b, Ones(8), c, MsbBits(v, 8))
  {
    TopBits(v, 8);
    assert Top(v, 0) == v;
    hide InRead, InReadAck, Goes, Path, BitOf, MsbBits, Pow2, Top;
    var x := ReadBits(dev, app, b, v, 7);
    c := ReadDone(dev, app, x, v);
    GoesOne(dev, app, x, 1, c, BitOf(v, 0));
    GoesOn(dev, app, b, Ones(7), x, MsbBits(Top(v, 1), 7), [1], c, [BitOf(v, 0)]);
  }

  lemma {:induction false} IgnoredBits(dev: nat, app: App, b: Bus, bits: seq<Bit>) returns (c: Bus)
    requires Ignoring(b)
    ensures Ignoring(c) && Same(b, c) && Goes(dev, app, b, bits, c, bits)
    decreases |bits|
  {
    if bits == [] {
      c := b;
    } else {
      hide Ignoring, Goes, Path;
      var n := |bits| - 1;
      c := IgnoredBits(dev, app, b, bits[..n]);
      var d := IgnoredBit(dev, app, c, bits[n]);
      GoesOne(dev, app, c, bits[n], d, bits[n]);
      GoesOn(dev, app, b, bits[..n], c, bits[..n], [bits[n]], d, [bits[n]]);
      assert bits == bits[..n] + [bits[n]];
      c := d;
    }
  }

  // ----- transfers -----

  /** A transfer after a start condition. others are the bits on the bus after the address if
      this slave takes no part: slot in the acknowledge slot, then any number of bits. */
  datatype Transfer =
    | Write(addr: nat, bytes: seq<Byte>, slot: Bit, others: seq<Bit>)
    | Read(addr: nat, count: nat, slot: Bit, others: seq<Bit>)
  {
    /** The master of a read answers the last byte with a NACK, so there is one. */
    predicate Legal() {
      addr < 128 && (Read? ==> 0 < count)
    }

    function Rw(): Bit {
      if Read? then 1 else 0
    }
  }

  function WriteClocks(bytes: seq<Byte>): seq<Bit> {
    if bytes == [] then []
    else WriteClocks(bytes[..|bytes| - 1]) + (MsbBits(bytes[|bytes| - 1], 8) + [1])
  }

  /** k is the number of the callback for the first byte. */
  function WriteSeen(app: App, k: nat, bytes: seq<Byte>): seq<Bit> {
    if bytes == [] then []
    else
      var n := |bytes| - 1;
      WriteSeen(app, k, bytes[..n]) + (MsbBits(bytes[n], 8) + [AckBit(app, k + n)])
  }

  function WriteCalls(bytes: seq<Byte>): (r: seq<Callback>)
    ensures |r| == |bytes|
  {
    if bytes == [] then [] else WriteCalls(bytes[..|bytes| - 1]) + [Sent(bytes[|bytes| - 1])]
  }

  /** n bytes that the master acknowledges, and one that it does not. */
  function ReadClocks(n: nat): seq<Bit> {
    if n == 0 then [] else ReadClocks(n - 1) + (Ones(8) + [0])
  }

  function ReadSeen(app: App, k: nat, n: nat): seq<Bit>
    decreases n
  {
    if n == 0 then [] else ReadSeen(app, k, n - 1) + (MsbBits(Supplied(app, k + n - 1), 8) + [0])
  }

  function ReadCalls(n: nat): (r: seq<Callback>)
    ensures |r| == n
  {
    if n == 0 then [] else ReadCalls(n - 1) + [Requires]
  }

  lemma {:induction false} WriteBytes(dev: nat, app: App, b: Bus, bytes: seq<Byte>) returns (c: Bus)
    requires InWrite(b, 0, 0)
    ensures InWrite(c, 0, 0) && c.slave.ignoreStopBit == b.slave.ignoreStopBit
    ensures c.slave.calls == b.slave.calls + WriteCalls(bytes)
    ensures Goes(dev, app, b, WriteClocks(bytes), c, WriteSeen(app, |b.slave.calls|, bytes))
    decreases |bytes|
  {
    hide InWrite, MsbBits, AckBit, Goes, Path, Clocks;
    if bytes == [] {
      c := b;
      GoesNowhere(dev, app, b);
    } else {
      var n := |bytes| - 1;
      var k := |b.slave.calls|;
      var x := WriteBytes(dev, app, b, bytes[..n]);
      c := WriteByte(dev, app, x, bytes[n]);
      var bits := MsbBits(bytes[n], 8);
      GoesOn(dev, app, b, WriteClocks(bytes[..n]), x, WriteSeen(app, k, bytes[..n]),
        bits + [1], c, bits + [AckBit(app, k + n)]);
    }
  }

  lemma {:induction false} ReadAcked(dev: nat, app: App, b: Bus, k: nat, n: nat) returns (c: Bus)
    requires |b.slave.calls| == k + 1 && InRead(b, 0, Supplied(app, k))
    ensures InRead(c, 0, Supplied(app, k + n)) && c.slave.ignoreStopBit == b.slave.ignoreStopBit
    ensures c.slave.calls == b.slave.calls + ReadCalls(n)
    ensures Goes(dev, app, b, ReadClocks(n), c, ReadSeen(app, k, n))
    decreases n
  {
    hide InRead, MsbBits, Ones, Supplied, Goes, Path, Clocks;
    if n == 0 {
      c := b;
      GoesNowhere(dev, app, b);
    } else {
      var x := ReadAcked(dev, app, b, k, n - 1);
      var v := Supplied(app, k + n - 1);
      c := ReadAckedByte(dev, app, x, v);
      GoesOn(dev, app, b, ReadClocks(n - 1), x, ReadSeen(app, k, n - 1), Ones(8) + [0], c, MsbBits(v, 8) + [0]);
    }
  }

  lemma ReadAckedByte(dev: nat, app: App, b: Bus, v: Byte) returns (c: Bus)
    requires InRead(b, 0, v)
    ensures InRead(c, 0, Supplied(app, |b.slave.calls|)) && c.slave.ignoreStopBit == b.slave.ignoreStopBit
    ensures c.slave.calls == b.slave.calls + [Requires]
    ensures Goes(dev, app, b, Ones(8) + [0], c, MsbBits(v, 8) + [0])
  {
    hide InRead, InReadAck, MsbBits, Ones, Supplied, Goes, Path;
    var y := ReadByte(dev, app, b, v);
    c := MasterAcks(dev, app, y);
    GoesOne(dev, app, y, 0, c, 0);
    GoesOn(dev, app, b, Ones(8), y, MsbBits(v, 8), [0], c, [0]);
  }

  /** The transfer as a specification: the bits the other devices clock, the callbacks, and the
      bits on the data line. k is the number of its first callback. */
  function BodyClocks(dev: nat, app: App, k: nat, t: Transfer): seq<Bit> {
    if t.addr != dev then [t.slot] + t.others
    else if !Acks(app, k) then [1] + t.others
    else if t.Write? then [1] + WriteClocks(t.bytes)
    else if t.count == 0 then [1]
    else [1] + (ReadClocks(t.count - 1) + (Ones(8) + [1]))
  }

  function BodySeen(dev: nat, app: App, k: nat, t: Transfer): seq<Bit> {
    if t.addr != dev then [t.slot] + t.others
    else if !Acks(app, k) then [1] + t.others
    else if t.Write? then [0] + WriteSeen(app, k + 1, t.bytes)
    else if t.count == 0 then [0]
    else [0] + (ReadSeen(app, k + 1, t.count - 1) + (MsbBits(Supplied(app, k + t.count), 8) + [1]))
  }

  function AddressCall(t: Transfer): Callback {
    if t.Read? then AckRead else AckWrite
  }

  function Calls(dev: nat, app: App, k: nat, t: Transfer): seq<Callback> {
    if t.addr != dev then []
    else if !Acks(app, k) then [AddressCall(t)]
    else [AddressCall(t)] + (if t.Write? then WriteCalls(t.bytes) else ReadCalls(t.count))
  }

  function TransferClocks(dev: nat, app: App, k: nat, t: Transfer): seq<Bit> {
    MsbBits(t.addr, 7) + [t.Rw()] + BodyClocks(dev, app, k, t)
  }

  function TransferSeen(dev: nat, app: App, k: nat, t: Transfer): seq<Bit> {
    MsbBits(t.addr, 7) + [t.Rw()] + BodySeen(dev, app, k, t)
  }

  lemma IgnoredBody(dev: nat, app: App, b: Bus, slot: Bit, others: seq<Bit>) returns (c: Bus)
    requires InAck(b, WaitingForStartOrStop, 1)
    ensures Ignoring(c) && Same(b, c) && Goes(dev, app, b, [slot] + others, c, [slot] + others)
  {
    hide InAck, Ignoring, Goes, Path;
    var x := AckIgnored(dev, app, b, slot);
    GoesOne(dev, app, b, slot, x, slot);
    c := IgnoredBits(dev, app, x, others);
    GoesOn(dev, app, b, [slot], x, [slot], others, c, others);
  }

  lemma WriteBody(dev: nat, app: App, b: Bus, bytes: seq<Byte>) returns (c: Bus)
    requires InAck(b, MasterWrite, 0)
    ensures InWrite(c, 0, 0) && c.slave.ignoreStopBit == b.slave.ignoreStopBit
    ensures c.slave.calls == b.slave.calls + WriteCalls(bytes)
    ensures Goes(dev, app, b, [1] + WriteClocks(bytes), c, [0] + WriteSeen(app, |b.slave.calls|, bytes))
  {
    hide InAck, InWrite, Goes, Path, WriteClocks, WriteSeen;
    var x := AckToWrite(dev, app, b, 0);
    GoesOne(dev, app, b, 1, x, 0);
    c := WriteBytes(dev, app, x, bytes);
    GoesOn(dev, app, b, [1], x, [0], WriteClocks(bytes), c, WriteSeen(app, |b.slave.calls|, bytes));
  }

  lemma LastRead(dev: nat, app: App, b: Bus, v: Byte) returns (c: Bus)
    requires InRead(b, 0, v)
    ensures Ignoring(c) && Same(b, c) && Goes(dev, app, b, Ones(8) + [1], c, MsbBits(v, 8) + [1])
  {
    hide InRead, InReadAck, Ignoring, Goes, Path, Ones, MsbBits;
    var x := ReadByte(dev, app, b, v);
    c := MasterStopsReading(dev, app, x);
    GoesOne(dev, app, x, 1, c, 1);
    GoesOn(dev, app, b, Ones(8), x, MsbBits(v, 8), [1], c, [1]);
  }

  lemma ReadBody(dev: nat, app: App, b: Bus, count: nat) returns (c: Bus)
    requires InAck(b, MasterRead, 0) && 0 < count
    ensures Ignoring(c) && c.slave.ignoreStopBit == b.slave.ignoreStopBit
    ensures c.slave.calls == b.slave.calls + ReadCalls(count)
    ensures var k := |b.slave.calls|;
      Goes(dev, app, b, [1] + (ReadClocks(count - 1) + (Ones(8) + [1])), c,
           [0] + (ReadSeen(app, k, count - 1) + (MsbBits(Supplied(app, k + count - 1), 8) + [1])))
  {
    hide InAck, InRead, Ignoring, Goes, Path, Ones, MsbBits, Supplied, ReadClocks, ReadSeen;
    var k := |b.slave.calls|;
    var v := Supplied(app, k + count - 1);
    var x := AckToRead(dev, app, b);
    GoesOne(dev, app, b, 1, x, 0);
    var y := ReadAcked(dev, app, x, k, count - 1);
    c := LastRead(dev, app, y, v);
    GoesOn(dev, app, x, ReadClocks(count - 1), y, ReadSeen(app, k, count - 1), Ones(8) + [1], c, MsbBits(v, 8) + [1]);
    GoesOn(dev, app, b, [1], x, [0], ReadClocks(count - 1) + (Ones(8) + [1]), c,
      ReadSeen(app, k, count - 1) + (MsbBits(v, 8) + [1]));
    CallsShift(count - 1);
  }

  lemma {:induction false} CallsShift(n: nat)
    ensures [Requires] + ReadCalls(n) == ReadCalls(n + 1)
  {
    if n != 0 {
      CallsShift(n - 1);
      assert [Requires] + ReadCalls(n) == [Requires] + ReadCalls(n - 1) + [Requires];
    }
  }

  lemma Body(dev: nat, app: App, b: Bus, t: Transfer, x: Bus) returns (c: Bus)
    requires t.Legal()
    requires t.addr != dev ==> InAck(x, WaitingForStartOrStop, 1) && Same(b, x)
    requires t.addr == dev ==>
      x.slave.calls == b.slave.calls + [AddressCall(t)] && !x.slave.ignoreStopBit &&
      if Acks(app, |b.slave.calls|) then InAck(x, if t.Read? then MasterRead else MasterWrite, 0)
      else InAck(x, WaitingForStartOrStop, 1)
    ensures Between(c)
    ensures c.slave.calls == b.slave.calls + Calls(dev, app, |b.slave.calls|, t)
    ensures c.slave.ignoreStopBit == (t.addr != dev && b.slave.ignoreStopBit)
    ensures var k := |b.slave.calls|; Goes(dev, app, x, BodyClocks(dev, app, k, t), c, BodySeen(dev, app, k, t))
  {
    hide InAck, InWrite, Ignoring, Goes, Ones, MsbBits, Supplied, ReadClocks, ReadSeen, WriteClocks, WriteSeen,
      ReadCalls, WriteCalls, Acks;
    if t.addr != dev {
      c := IgnoredBody(dev, app, x, t.slot, t.others);
    } else if !Acks(app, |b.slave.calls|) {
      c := IgnoredBody(dev, app, x, 1, t.others);
    } else if t.Write? {
      c := WriteBody(dev, app, x, t.bytes);
    } else {
      c := ReadBody(dev, app, x, t.count);
    }
  }

  lemma TransferRuns(dev: nat, app: App, b: Bus, t: Transfer) returns (c: Bus)
    requires InAddress(b, 0, 0) && t.Legal()
    ensures Between(c)
    ensures c.slave.calls == b.slave.calls + Calls(dev, app, |b.slave.calls|, t)
    ensures c.slave.ignoreStopBit == (t.addr != dev && b.slave.ignoreStopBit)
    ensures var k := |b.slave.calls|;
      Goes(dev, app, b, TransferClocks(dev, app, k, t), c, TransferSeen(dev, app, k, t))
  {
    assert Pow2(7) == 128 by {
      assert Pow2(4) == 16 && Pow2(7) == 8 * Pow2(4);
    }
    hide InAddress, InAck, Between, Goes, Path, MsbBits, BodyClocks, BodySeen, Calls, Pow2, Acks;
    var k := |b.slave.calls|;
    var x := AddressBits(dev, app, b, t.addr, 7);
    var y := AddressDone(dev, app, x, t.addr, t.Rw());
    GoesOne(dev, app, x, t.Rw(), y, t.Rw());
    GoesOn(dev, app, b, MsbBits(t.addr, 7), x, MsbBits(t.addr, 7), [t.Rw()], y, [t.Rw()]);
    c := Body(dev, app, b, t, y);
    GoesOn(dev, app, b, MsbBits(t.addr, 7) + [t.Rw()], y, MsbBits(t.addr, 7) + [t.Rw()],
      BodyClocks(dev, app, k, t), c, BodySeen(dev, app, k, t));
  }

  // ----- conditions that are missed -----

  /** Both conditions are missed on a bus that a run from the start leads to. */
  ghost predicate Misses(dev: nat, app: App, b: Bus) {
    && (exists actions: seq<Action> :: Path(dev, app, Start(), actions, b))
    && Midway(b) && !StartSeen(dev, app, b) && !StopSeen(dev, app, b)
  }

  lemma MissesBoth(dev: nat, app: App, actions: seq<Action>, b: Bus)
    requires Path(dev, app, Start(), actions, b) && Clocked(b) && b.slave.drive == 1
    requires !AtByteStart(b) && !AtMastersAnswer(b)
    ensures Misses(dev, app, b)
  {
    hide Path, StartSeen, StopSeen;
    RunsAreMidway(dev, app, actions, b);
    StartRecognisedIff(dev, app, b);
    StopRecognisedIff(dev, app, b);
  }

  /** The start of a transfer and the first n bits of an address. */
  lemma ReachAddress(dev: nat, app: App, v: nat, n: nat) returns (actions: seq<Action>, b: Bus)
    requires n <= 7 && v < Pow2(n)
    ensures Path(dev, app, Start(), actions, b) && InAddress(b, n, v) && b.slave.calls == []
  {
    StartIsFree();
    hide Path, InAddress, Pow2, MsbBits, Clocks;
    var x := Starts(dev, app, Start());
    b := AddressBits(dev, app, x, v, n);
    actions := START + Clocks(MsbBits(v, n));
    Join(dev, app, Start(), START, x, Clocks(MsbBits(v, n)), b);
  }

  /** After the first bit of an address. */
  lemma MissedInAddress(dev: nat, app: App) returns (b: Bus)
    ensures Misses(dev, app, b) && InAddress(b, 1, 1)
  {
    hide Path, Misses, Pow2;
    assert Pow2(1) == 2 by { Pow2OfOne(); }
    var actions;
    actions, b := ReachAddress(dev, app, 1, 1);
    MissesBoth(dev, app, actions, b);
  }

  lemma Pow2OfOne()
    ensures Pow2(1) == 2
  {}

  /** In the acknowledge slot after the address of another device. */
  lemma MissedInAckSlot(dev: nat, app: App, addr: nat) returns (b: Bus)
    requires addr < 128 && addr != dev
    ensures Misses(dev, app, b) && InAck(b, WaitingForStartOrStop, 1)
  {
    AddressRange();
    hide Path, Misses, Pow2, InAddress;
    var actions, x := ReachAddress(dev, app, addr, 7);
    b := AddressDone(dev, app, x, addr, 0);
    Join(dev, app, Start(), actions, x, Clock(0), b);
    MissesBoth(dev, app, actions + Clock(0), b);
  }

  lemma AddressRange()
    ensures Pow2(7) == 128
  {
    assert Pow2(4) == 16 && Pow2(7) == 8 * Pow2(4);
  }

  /** After the first bit of a byte that is written to the slave. */
  lemma MissedInByte(dev: nat, app: App, v: Bit) returns (b: Bus)
    requires dev < 128 && Acks(app, 0)
    ensures Misses(dev, app, b) && InWrite(b, 1, v)
  {
    AddressRange();
    hide Path, Misses, Pow2, InAddress, InAck, Acks;
    var actions, x := ReachAddress(dev, app, dev, 7);
    var y := AddressDone(dev, app, x, dev, 0);
    Join(dev, app, Start(), actions, x, Clock(0), y);
    var z := AckToWrite(dev, app, y, 0);
    Join(dev, app, Start(), actions + Clock(0), y, Clock(1), z);
    b := WriteBit(dev, app, z, 0, 0, v);
    Join(dev, app, Start(), actions + Clock(0) + Clock(1), z, Clock(v), b);
    MissesBoth(dev, app, actions + Clock(0) + Clock(1) + Clock(v), b);
  }

  // ----- whole sessions -----

  /** What the bus does from a start condition on, with repeated start conditions in between. */
  function Actions(dev: nat, app: App, k: nat, ts: seq<Transfer>): seq<Action> {
    if ts == [] then []
    else
      var n := |ts| - 1;
      var at := k + |AllCalls(dev, app, k, ts[..n])|;
      Actions(dev, app, k, ts[..n]) + (if n == 0 then START else RESTART) +
        Clocks(TransferClocks(dev, app, at, ts[n]))
  }

  function AllCalls(dev: nat, app: App, k: nat, ts: seq<Transfer>): seq<Callback> {
    if ts == [] then []
    else
      var n := |ts| - 1;
      var before := AllCalls(dev, app, k, ts[..n]);
      before + Calls(dev, app, k + |before|, ts[n])
  }

  function AllSeen(dev: nat, app: App, k: nat, ts: seq<Transfer>): seq<Bit> {
    if ts == [] then []
    else
      var n := |ts| - 1;
      var at := k + |AllCalls(dev, app, k, ts[..n])|;
      AllSeen(dev, app, k, ts[..n]) + (if n == 0 then [] else [1]) + TransferSeen(dev, app, at, ts[n])
  }

  predicate AllLegal(ts: seq<Transfer>) {
    forall i | 0 <= i < |ts| :: ts[i].Legal()
  }

  predicate Addressed(dev: nat, ts: seq<Transfer>) {
    exists i | 0 <= i < |ts| :: ts[i].addr == dev
  }

  lemma AddressedLast(dev: nat, ts: seq<Transfer>)
    requires ts != []
    ensures Addressed(dev, ts) == (Addressed(dev, ts[..|ts| - 1]) || ts[|ts| - 1].addr == dev)
  {
    var n := |ts| - 1;
    if Addressed(dev, ts) && ts[n].addr != dev {
      var i :| 0 <= i < |ts| && ts[i].addr == dev;
      assert ts[..n][i].addr == dev;
    }
  }

  lemma LastTransfer(dev: nat, app: App, k: nat, ts: seq<Transfer>, at: nat)
    requires ts != [] && at == k + |AllCalls(dev, app, k, ts[..|ts| - 1])|
    ensures var n := |ts| - 1; var init := ts[..n];
      && Actions(dev, app, k, ts) == Actions(dev, app, k, init) + (if n == 0 then START else RESTART) +
           Clocks(TransferClocks(dev, app, at, ts[n]))
      && AllCalls(dev, app, k, ts) == AllCalls(dev, app, k, init) + Calls(dev, app, at, ts[n])
      && AllSeen(dev, app, k, ts) == AllSeen(dev, app, k, init) + (if n == 0 then [] else [1]) +
           TransferSeen(dev, app, at, ts[n])
  {
    hide Clocks, Calls, TransferClocks, TransferSeen;
  }

  lemma OneMore(dev: nat, app: App, b: Bus, before: seq<Action>, x: Bus, t: Transfer, k: nat) returns (c: Bus)
    requires InAddress(x, 0, 0) && t.Legal() && Path(dev, app, b, before, x) && k == |x.slave.calls|
    ensures Between(c) && c.slave.calls == x.slave.calls + Calls(dev, app, k, t)
    ensures c.slave.ignoreStopBit == (t.addr != dev && x.slave.ignoreStopBit)
    ensures Path(dev, app, b, before + Clocks(TransferClocks(dev, app, k, t)), c)
    ensures c.seen == x.seen + TransferSeen(dev, app, k, t)
  {
    hide Between, InAddress, Path, Clocks, Calls, TransferClocks, TransferSeen;
    c := TransferRuns(dev, app, x, t);
    Join(dev, app, b, before, x, Clocks(TransferClocks(dev, app, k, t)), c);
  }

  lemma NotAddressedYet(b: Bus)
    requires Free(b)
    ensures b.slave.ignoreStopBit
  {}

  lemma NoTransfers(dev: nat, app: App, k: nat, ts: seq<Transfer>)
    requires ts == []
    ensures !Addressed(dev, ts) && Actions(dev, app, k, ts) == [] && AllCalls(dev, app, k, ts) == [] &&
      AllSeen(dev, app, k, ts) == []
  {}

  lemma FirstTransfer(dev: nat, app: App, b: Bus, ts: seq<Transfer>) returns (c: Bus)
    requires Free(b) && |ts| == 1 && AllLegal(ts)
    ensures Between(c) && c.slave.calls == b.slave.calls + AllCalls(dev, app, |b.slave.calls|, ts)
    ensures c.slave.ignoreStopBit == !Addressed(dev, ts)
    ensures Path(dev, app, b, Actions(dev, app, |b.slave.calls|, ts), c)
    ensures c.seen == b.seen + AllSeen(dev, app, |b.slave.calls|, ts)
  {
    hide Between, InAddress, Free, Path, Clocks, Calls, TransferClocks, TransferSeen, Addressed, Actions, AllCalls,
      AllSeen, START, RESTART;
    var k := |b.slave.calls|;
    NotAddressedYet(b);
    var none: seq<Transfer> := ts[..0];
    NoTransfers(dev, app, k, none);
    AddressedLast(dev, ts);
    LastTransfer(dev, app, k, ts, k);
    assert Actions(dev, app, k, none) + START == START;
    var x := Starts(dev, app, b);
    c := OneMore(dev, app, b, START, x, ts[0], k);
  }

  lemma {:induction false} TransfersRun(dev: nat, app: App, b: Bus, ts: seq<Transfer>) returns (c: Bus)
    requires Free(b) && ts != [] && AllLegal(ts)
    ensures Between(c) && c.slave.calls == b.slave.calls + AllCalls(dev, app, |b.slave.calls|, ts)
    ensures c.slave.ignoreStopBit == !Addressed(dev, ts)
    ensures Path(dev, app, b, Actions(dev, app, |b.slave.calls|, ts), c)
    ensures c.seen == b.seen + AllSeen(dev, app, |b.slave.calls|, ts)
    decreases |ts|
  {
    hide Between, InAddress, Free, Path, Clocks, Calls, TransferClocks, TransferSeen, Addressed, Actions, AllCalls,
      AllSeen, START, RESTART;
    if |ts| == 1 {
      c := FirstTransfer(dev, app, b, ts);
    } else {
      var t, init := ts[|ts| - 1], ts[..|ts| - 1];
      var k := |b.slave.calls|;
      var y := TransfersRun(dev, app, b, init);
      var at := |y.slave.calls|;
      AddressedLast(dev, ts);
      LastTransfer(dev, app, k, ts, at);
      var before := Actions(dev, app, k, init);
      var x := Restarts(dev, app, y);
      Join(dev, app, b, before, y, RESTART, x);
      c := OneMore(dev, app, b, before + RESTART, x, t, at);
    }
  }

  /** For every series of legal transfers, from a start condition to a stop condition, and
      whatever the application answers: the callbacks are those of the specification, with the
      bytes that were written; the bytes supplied for reads are on the data line, most
      significant bit first; transfers to other addresses cause no callbacks, and the stop
      callback comes exactly if one of the transfers had the slave's address. */
  lemma SlaveDecodes(dev: nat, app: App, b: Bus, ts: seq<Transfer>) returns (c: Bus)
    requires Free(b) && ts != [] && AllLegal(ts)
    ensures Free(c) && Path(dev, app, b, Actions(dev, app, |b.slave.calls|, ts) + STOP, c)
    ensures c.slave.calls ==
      b.slave.calls + AllCalls(dev, app, |b.slave.calls|, ts) + if Addressed(dev, ts) then [StopBit] else []
    ensures c.seen == b.seen + AllSeen(dev, app, |b.slave.calls|, ts) + [0]
  {
    hide Free, Between, Path, Actions, AllCalls, AllSeen;
    var x := TransfersRun(dev, app, b, ts);
    c := Stops(dev, app, x);
    Join(dev, app, b, Actions(dev, app, |b.slave.calls|, ts), x, STOP, c);
  }

  /** The first series of transfers can begin right after the start. */
  lemma StartIsFree()
    ensures Free(Start()) && Settled(Start())
  {}

  // ----- the callbacks on arbitrary waveforms -----

  /** Where a series of callbacks is; Refused means that the application did not acknowledge. */
  datatype Phase = Stopped | Writing | Reading | Refused | Bad

  /** The order that an application may rely on: data only inside an acknowledged transfer of
      that direction, and one stop after the transfers. */
  function Next(p: Phase, call: Callback, acks: bool): Phase {
    match call
    case AckRead => if p.Bad? then Bad else if acks then Reading else Refused
    case AckWrite => if p.Bad? then Bad else if acks then Writing else Refused
    case Sent(_) => if p.Writing? then Writing else Bad
    case Requires => if p.Reading? then Reading else Bad
    case StopBit => if p.Bad? || p.Stopped? then Bad else Stopped
  }

  function PhaseAfter(app: App, calls: seq<Callback>): Phase {
    if calls == [] then Stopped
    else
      var n := |calls| - 1;
      Next(PhaseAfter(app, calls[..n]), calls[n], Acks(app, n))
  }

  lemma PhaseExtends(app: App, calls: seq<Callback>, call: Callback)
    ensures PhaseAfter(app, calls + [call]) == Next(PhaseAfter(app, calls), call, Acks(app, |calls|))
  {
    assert (calls + [call])[..|calls|] == calls;
  }

  /** What the automaton's state says about the callbacks made. */
  predicate Orderly(app: App, s: Slave) {
    var p := PhaseAfter(app, s.calls);
    && !p.Bad? && (s.ignoreStopBit <==> p.Stopped?)
    && (s.mode.MasterWrite? ==> s.next.MasterWrite? && p.Writing?)
    && (s.mode.MasterRead? ==> p.Reading?)
    && (s.mode.AckWaitHigh? || s.mode.AckWaitLow? ==>
          && (s.next.MasterWrite? ==> p.Writing?) && (s.next.MasterRead? ==> p.Reading?)
          && (s.next.MasterWrite? || s.next.MasterRead? || s.next.WaitingForStartOrStop?))
  }

  lemma HandleKeepsOrder(dev: nat, app: App, b: Bus)
    requires Orderly(app, b.slave)
    ensures Orderly(app, Handle(dev, app, b).slave)
  {
    hide PhaseAfter, Supplied, Mirrored, Acks;
    var s := b.slave;
    var call :=
      if SclReady(b) then
        (if s.mode.AckAddr? then (if s.rw == 1 then AckRead else AckWrite)
         else if s.mode.MasterWrite? then Sent(s.data) else Requires)
      else StopBit;
    PhaseExtends(app, s.calls, call);
  }

  function AfterActions(dev: nat, app: App, b: Bus, actions: seq<Action>): Bus
    decreases |actions|
  {
    if actions == [] then b else AfterActions(dev, app, Act(dev, app, b, actions[0]), actions[1..])
  }

  /** Whatever happens on the bus, legal or not, the callbacks come in the order that an
      application may rely on. */
  lemma {:induction false} CallbacksInOrder(dev: nat, app: App, b: Bus, actions: seq<Action>)
    requires Orderly(app, b.slave)
    ensures Orderly(app, AfterActions(dev, app, b, actions).slave)
    ensures !PhaseAfter(app, AfterActions(dev, app, b, actions).slave.calls).Bad?
    decreases |actions|
  {
    if actions != [] {
      hide Handle, PhaseAfter;
      var a := actions[0];
      var x := match a
        case Scl(v) => b.(scl := v, seen := if v == 1 && b.scl == 0 then b.seen + [b.Sda()] else b.seen)
        case Data(v) => b.(sda := v);
      assert Orderly(app, x.slave) && Act(dev, app, b, a) == Settle(dev, app, x);
      HandleKeepsOrder(dev, app, x);
      HandleKeepsOrder(dev, app, Handle(dev, app, x));
      HandleKeepsOrder(dev, app, Handle(dev, app, Handle(dev, app, x)));
      CallbacksInOrder(dev, app, Act(dev, app, b, a), actions[1..]);
    }
  }
}
