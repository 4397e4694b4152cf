/** The event loop of i2c_slave as it is written, with its variables, against the automaton. */
module I2cEventLoop {
  import opened Arith
  import opened Bytes
  import opened I2cSlave

  lemma MirroredStep(v: nat, n: nat)
    requires 0 < n
    ensures Mirrored(v, n) == (if v % 2 == 1 then Pow2(n - 1) else 0) + Mirrored(v / 2, n - 1)
  {}

  class Loop {
    const deviceAddr: nat
    const app: App
    var mode: Mode
    var nextMode: Mode
    var sclVal: Bit
    var sdaVal: Bit
    var bitnum: nat
    var rw: Bit
    var stopBitCheck: bool
    var ignoreStopBit: bool
    var data: nat
    var drive: Bit
    var calls: seq<Callback>

    ghost function View(): Slave
      reads this
    {
      Slave(mode, nextMode, sclVal, sdaVal, bitnum, data, rw, stopBitCheck, ignoreStopBit, drive, calls)
    }

    constructor (deviceAddr: nat, app: App)
      ensures View() == Start().slave && this.deviceAddr == deviceAddr && this.app == app
    {
      this.deviceAddr, this.app := deviceAddr, app;
      mode, nextMode := WaitingForStartOrStop, WaitingForStartOrStop;
      sclVal, sdaVal, bitnum, rw, data, drive := 0, 0, 0, 0, 0, 1;
      stopBitCheck, ignoreStopBit, calls := false, true, [];
    }

    /** A callback of the application that acknowledges or does not. */
    method Ask(call: Callback) returns (acks: bool)
      modifies this`calls
      ensures calls == old(calls) + [call] && acks == Acks(app, |old(calls)|)
    {
      acks := app(|calls|) == 0;
      calls := calls + [call];
    }

    /** bitrev and the shift: the bits of a byte in reverse order. */
    method Reverse(v: nat) returns (r: nat)
      ensures r == Mirrored(v, 8)
    {
      r := 0;
      var rest, n := v, 8;
      while 0 < n
        invariant 0 <= n <= 8
        invariant Mirrored(v, 8) == r + Mirrored(rest, n)
        decreases n
      {
        hide Mirrored, Pow2;
        MirroredStep(rest, n);
        if rest % 2 == 1 {
          r := r + Pow2(n - 1);
        }
        rest, n := rest / 2, n - 1;
      }
    }

    /** event_scl. */
    method EventScl(sda: Bit)
      requires mode != WaitingForStartOrStop
      modifies this
      ensures View() == SclEvent(deviceAddr, app, sda, old(View()))
    {
      hide Mirrored, Pow2;
      match mode {
        case ReadingAddr =>
          if sclVal == 0 {
            sclVal := 1;
          } else if bitnum < 7 {
            data := 2 * data + sda;
            bitnum := bitnum + 1;
            sclVal := 0;
          } else {
            if data != deviceAddr {
              mode := IgnoreAck;
            } else {
              mode := AckAddr;
              rw := sda;
            }
            sclVal := 0;
          }
        case IgnoreAck =>
          nextMode := WaitingForStartOrStop;
          sclVal := 1;
          mode := AckWaitHigh;
        case AckAddr =>
          var acks := Ask(if rw == 1 then AckRead else AckWrite);
          ignoreStopBit := false;
          if !acks {
            drive := 1;
            nextMode := WaitingForStartOrStop;
          } else {
            drive := 0;
            nextMode := if rw == 1 then MasterRead else MasterWrite;
          }
          sclVal := 1;
          mode := AckWaitHigh;
        case AckWaitHigh =>
          mode := AckWaitLow;
          sclVal := 0;
        case AckWaitLow =>
          drive := 1;
          if nextMode == MasterRead {
            sclVal := 0;
          } else if nextMode == MasterWrite {
            data := 0;
            sclVal := 1;
          } else {
            sdaVal := 0;
          }
          mode := nextMode;
          bitnum := 0;
        case MasterRead => Reading(sda);
        case MasterWrite => Writing(sda);
      }
    }

    /** The master reads. */
    method Reading(sda: Bit)
      requires mode == MasterRead
      modifies this
      ensures View() == SclEvent(deviceAddr, app, sda, old(View()))
    {
      hide Mirrored;
      if sclVal == 1 {
        if bitnum == 8 {
          if sda == 1 {
            mode := WaitingForStartOrStop;
            sdaVal := 0;
          } else {
            bitnum := 0;
            sclVal := 0;
          }
        } else {
          sclVal := 0;
          bitnum := bitnum + 1;
        }
      } else {
        if bitnum < 8 {
          if bitnum == 0 {
            var byte := Supplied(app, |calls|);
            calls := calls + [Requires];
            data := Reverse(byte);
          }
          drive := data % 2;
          data := data / 2;
        } else {
          drive := 1;
        }
        sclVal := 1;
      }
    }

    /** The master writes. */
    method Writing(sda: Bit)
      requires mode == MasterWrite
      modifies this
      ensures View() == SclEvent(deviceAddr, app, sda, old(View()))
    {
      if sclVal == 1 {
        data := 2 * data + sda;
        if bitnum == 0 {
          sdaVal := 1 - sda;
          stopBitCheck := true;
        }
        sclVal := 0;
        bitnum := bitnum + 1;
      } else {
        stopBitCheck := false;
        if bitnum == 8 {
          var acks := Ask(Sent(data));
          drive := if acks then 0 else 1;
          mode := AckWaitHigh;
        }
        sclVal := 1;
      }
    }

    /** event_sda. */
    method EventSda(scl: Bit)
      modifies this
      ensures View() == SdaEvent(scl, old(View()))
    {
      if sdaVal == 1 {
        if scl == 1 {
          if !ignoreStopBit {
            calls := calls + [StopBit];
          }
          mode := WaitingForStartOrStop;
          ignoreStopBit := true;
          stopBitCheck := false;
        }
        sdaVal := 0;
      } else if scl == 1 {
        mode := ReadingAddr;
        bitnum := 0;
        data := 0;
        sclVal := 0;
        stopBitCheck := false;
      } else {
        sdaVal := 1;
      }
    }

    /** One round of the loop: it waits for an event and handles it. other is the data line as
        the other devices drive it. */
    method Round(scl: Bit, other: Bit, ghost seen: seq<Bit>)
      modifies this
      ensures Bus(scl, other, View(), seen) == Handle(deviceAddr, app, old(Bus(scl, other, View(), seen)))
    {
      var sda: Bit := if other == 0 || drive == 0 then 0 else 1;
      if mode != WaitingForStartOrStop && scl == sclVal {
        EventScl(sda);
      } else if (mode == WaitingForStartOrStop || stopBitCheck) && sda == sdaVal {
        EventSda(scl);
      }
    }
  }
}
