/** The RPC messages: a function code, the parameters' descriptors and the input data one way,
    the function code and the output data the other. */
module Rpc {
  import opened Basics
  import opened Memory
  import opened Bytes

  /** The length of a parameter has 24 bits. */
  const LENGTH_LIMIT: nat := 0x100_0000

  datatype Desc = Desc(length: nat, ptr: bool, input: bool, output: bool)
  {
    predicate Valid() {
      length < LENGTH_LIMIT
    }

    /** Neither an input nor an output: the end of a descriptor list. */
    predicate End() {
      !input && !output
    }
  }

  // ----- descriptors in a message -----

  function Flag(b: bool, weight: nat): nat {
    if b then weight else 0
  }

  /** The bit field as a word. */
  function Packed(d: Desc): (n: nat)
    requires d.Valid()
    ensures n < U32
  {
    d.length + LENGTH_LIMIT * (Flag(d.ptr, 1) + Flag(d.input, 2) + Flag(d.output, 4))
  }

  function Unpacked(n: nat): Desc {
    var flags := n / LENGTH_LIMIT;
    Desc(n % LENGTH_LIMIT, flags % 2 == 1, flags / 2 % 2 == 1, flags / 4 % 2 == 1)
  }

  lemma PackRoundTrip(d: Desc)
    requires d.Valid()
    ensures Unpacked(Packed(d)) == d
  {
    var flags := Flag(d.ptr, 1) + Flag(d.input, 2) + Flag(d.output, 4);
    assert Packed(d) / LENGTH_LIMIT == flags && Packed(d) % LENGTH_LIMIT == d.length;
  }

  predicate AllValid(descs: seq<Desc>) {
    forall i | 0 <= i < |descs| :: descs[i].Valid() && !descs[i].End()
  }

  function DescBytes(descs: seq<Desc>): (r: seq<Byte>)
    requires AllValid(descs)
    ensures |r| == 4 * |descs|
  {
    if descs == [] then []
    else DescBytes(descs[..|descs| - 1]) + LittleWord(Packed(descs[|descs| - 1]))
  }

  function DescAt(b: seq<Byte>, i: nat): Desc
    requires 4 * i + 4 <= |b|
  {
    Unpacked(LittleUnword(b[4 * i..4 * i + 4]))
  }

  lemma {:induction false} DescsRoundTrip(descs: seq<Desc>, i: nat)
    requires AllValid(descs) && i < |descs|
    ensures DescAt(DescBytes(descs), i) == descs[i]
  {
    hide Packed, Unpacked, LittleWord, LittleUnword;
    var n := |descs| - 1;
    var all, init, last := DescBytes(descs), DescBytes(descs[..n]), LittleWord(Packed(descs[n]));
    assert all == init + last && |init| == 4 * n;
    var o := 4 * i;
    if i < n {
      DescsRoundTrip(descs[..n], i);
      hide DescBytes;
      assert all[o..o + 4] == init[o..o + 4];
    } else {
      hide DescBytes;
      assert all[o..o + 4] == last;
      LittleRoundTrip(Packed(descs[n]));
      PackRoundTrip(descs[n]);
    }
  }

  // ----- parameter data in a message -----

  /** Whether a parameter's data travels in the given direction. */
  predicate Travels(d: Desc, request: bool) {
    if request then d.input else d.output
  }

  /** The memory the caller's pointers refer to is at least as long as the descriptors say. */
  predicate Covers(descs: seq<Desc>, args: seq<seq<Byte>>, request: bool) {
    |args| == |descs| &&
    forall i | 0 <= i < |descs| && Travels(descs[i], request) :: descs[i].length <= |args[i]|
  }

  /** Where the data of parameter i begins, and for i = |descs| where all of it ends. */
  function Offset(descs: seq<Desc>, i: nat, request: bool): (r: nat)
    requires i <= |descs|
  {
    if i == 0 then 0
    else Offset(descs, i - 1, request) + if Travels(descs[i - 1], request) then descs[i - 1].length else 0
  }

  /** The data of the first n parameters, packed. */
  function Payload(descs: seq<Desc>, args: seq<seq<Byte>>, n: nat, request: bool): (r: seq<Byte>)
    requires Covers(descs, args, request) && n <= |descs|
    ensures |r| == Offset(descs, n, request)
  {
    if n == 0 then []
    else
      Payload(descs, args, n - 1, request) +
      if Travels(descs[n - 1], request) then args[n - 1][..descs[n - 1].length] else []
  }

  lemma {:induction false} OffsetGrows(descs: seq<Desc>, i: nat, n: nat, request: bool)
    requires i <= n <= |descs|
    ensures Offset(descs, i, request) <= Offset(descs, n, request)
  {
    if i < n {
      OffsetGrows(descs, i, n - 1, request);
    }
  }

  lemma {:induction false} PayloadAt(descs: seq<Desc>, args: seq<seq<Byte>>, i: nat, n: nat, request: bool)
    requires Covers(descs, args, request) && i < n <= |descs| && Travels(descs[i], request)
    ensures var o := Offset(descs, i, request);
      o + descs[i].length <= Offset(descs, n, request) &&
      Payload(descs, args, n, request)[o..o + descs[i].length] == args[i][..descs[i].length]
  {
    var o, len := Offset(descs, i, request), descs[i].length;
    var all := Payload(descs, args, n, request);
    if i == n - 1 {
      assert all[o..o + len] == args[i][..len];
    } else {
      PayloadAt(descs, args, i, n - 1, request);
      assert all[o..o + len] == Payload(descs, args, n - 1, request)[o..o + len];
    }
  }

  // ----- the request -----

  function RequestBytes(fcode: nat, descs: seq<Desc>, args: seq<seq<Byte>>): seq<Byte>
    requires fcode < U32 && |descs| < U32 && AllValid(descs) && Covers(descs, args, true)
  {
    LittleWord(fcode) + LittleWord(|descs|) + DescBytes(descs) + Payload(descs, args, |descs|, true)
  }

  /** How many descriptors come before the end of the list. */
  function Count(list: seq<Desc>): (n: nat)
    ensures n <= |list| && (n < |list| ==> list[n].End())
    ensures forall i | 0 <= i < n :: !list[i].End()
  {
    if list == [] || list[0].End() then 0 else 1 + Count(list[1..])
  }

  /** What a descriptor list has to be: terminated, with lengths in range. */
  predicate IsList(list: seq<Desc>) {
    Count(list) < |list| && forall i | 0 <= i < |list| :: list[i].Valid()
  }

  /** The message so far grows by data. */
  method Append(msg: array<Byte>, at: nat, data: seq<Byte>, ghost before: seq<Byte>) returns (next: nat)
    requires at + |data| <= msg.Length && msg[..at] == before
    modifies msg
    ensures next == at + |data| && msg[..next] == before + data
  {
    Copy(msg, at, data);
    next := at + |data|;
  }

  /** The loop that appends the parameters' data. */
  method AppendPayload(msg: array<Byte>, at: nat, descs: seq<Desc>, args: seq<seq<Byte>>, request: bool,
      ghost before: seq<Byte>)
    requires Covers(descs, args, request) && at + Offset(descs, |descs|, request) == msg.Length
    requires msg[..at] == before
    modifies msg
    ensures msg[..] == before + Payload(descs, args, |descs|, request)
  {
    var p := at;
    for i := 0 to |descs|
      invariant p == at + Offset(descs, i, request) <= msg.Length
      invariant msg[..p] == before + Payload(descs, args, i, request)
    {
      OffsetGrows(descs, i + 1, |descs|, request);
      if Travels(descs[i], request) {
        p := Append(msg, p, args[i][..descs[i].length], msg[..p]);
      }
    }
    assert msg[..] == msg[..p];
  }

  /** rpc_request_marshall_va: args are what the caller's pointers refer to. */
  method RequestMarshall(fcode: nat, list: seq<Desc>, args: seq<seq<Byte>>) returns (msg: array<Byte>, length: nat)
    requires fcode < U32 && |list| < U32 && IsList(list) && Covers(list[..Count(list)], args, true)
    ensures fresh(msg) && length == msg.Length
    ensures msg[..] == RequestBytes(fcode, list[..Count(list)], args)
  {
    ghost var descs := list[..Count(list)];
    var count, total := 0, 0;
    while !list[count].End()
      invariant count <= Count(list)
      invariant total == Offset(descs, count, true)
      decreases Count(list) - count
    {
      if list[count].input {
        total := total + list[count].length;
      }
      count := count + 1;
    }
    length := 4 + 4 + 4 * count + total;
    msg := new Byte[length];
    var bytes := DescBytes(list[..count]);
    var p := Append(msg, 0, LittleWord(fcode), []);
    p := Append(msg, p, LittleWord(count), LittleWord(fcode));
    p := Append(msg, p, bytes, LittleWord(fcode) + LittleWord(count));
    AppendPayload(msg, p, list[..count], args, true, LittleWord(fcode) + LittleWord(count) + bytes);
  }

  /** rpc_msg_t, with its pointers as offsets into the message. */
  datatype Parsed = Parsed(fcode: nat, count: nat, descsAt: nat, paramsAt: nat)

  function ReadWord(msg: seq<Byte>, at: nat): (n: nat)
    requires at + 4 <= |msg|
    ensures n < U32
  {
    LittleUnword(msg[at..at + 4])
  }

  /** rpc_request_parse. */
  function RequestParse(msg: seq<Byte>): Parsed
    requires 8 <= |msg|
  {
    Parsed(ReadWord(msg, 0), ReadWord(msg, 4), 8, 8 + 4 * ReadWord(msg, 4))
  }

  function ParsedDesc(msg: seq<Byte>, m: Parsed, i: nat): Desc
    requires m.descsAt + 4 * i + 4 <= |msg|
  {
    Unpacked(ReadWord(msg, m.descsAt + 4 * i))
  }

  /** An argument on the remote side: a pointer, of which the message can provide the target, or
      a variable's own bytes. */
  datatype Slot = Null | Invalid | At(offset: nat) | Value(bytes: seq<Byte>) | Untouched

  /** The message's parts are where m says. */
  predicate WellFormed(msg: seq<Byte>, m: Parsed, descs: seq<Desc>) {
    && m.count == |descs|
    && m.paramsAt + Offset(descs, |descs|, true) <= |msg|
    && forall i: nat | i < |descs| :: m.descsAt + 4 * i + 4 <= |msg| && ParsedDesc(msg, m, i) == descs[i]
  }

  /** The parsed message has the function code, the descriptors and the input data it was made of. */
  lemma RequestParses(fcode: nat, descs: seq<Desc>, args: seq<seq<Byte>>)
    requires fcode < U32 && |descs| < U32 && AllValid(descs) && Covers(descs, args, true)
    ensures var msg := RequestBytes(fcode, descs, args); var m := RequestParse(msg);
      && m.fcode == fcode && WellFormed(msg, m, descs)
      && msg[m.paramsAt..] == Payload(descs, args, |descs|, true)
  {
    hide LittleWord, LittleUnword, DescBytes, Unpacked, Payload;
    var msg := RequestBytes(fcode, descs, args);
    var all, words := DescBytes(descs), Payload(descs, args, |descs|, true);
    assert msg[0..4] == LittleWord(fcode) && msg[4..8] == LittleWord(|descs|);
    LittleRoundTrip(fcode);
    LittleRoundTrip(|descs|);
    assert msg[8 + 4 * |descs|..] == words;
    forall i: nat | i < |descs| ensures 8 + 4 * i + 4 <= |msg| && Unpacked(ReadWord(msg, 8 + 4 * i)) == descs[i] {
      DescsRoundTrip(descs, i);
      assert msg[8 + 4 * i..8 + 4 * i + 4] == all[4 * i..4 * i + 4];
    }
  }

  /** What becomes of parameter i. */
  predicate Unmarshalled(msg: seq<Byte>, m: Parsed, descs: seq<Desc>, i: nat, slot: Slot)
    requires i < |descs| && m.paramsAt + Offset(descs, |descs|, true) <= |msg|
  {
    var d := descs[i];
    var o := m.paramsAt + Offset(descs, i, true);
    if d.input && d.ptr then slot == if d.length > 0 then At(o) else Null
    else if d.input then o + d.length <= |msg| && slot == Value(msg[o..o + d.length])
    else if d.output && d.ptr then slot == if d.length == 0 then Null else Invalid
    else slot == Untouched
  }

  /** rpc_request_unmarshall_va. */
  method RequestUnmarshall(msg: seq<Byte>, m: Parsed, ghost descs: seq<Desc>) returns (slots: seq<Slot>)
    requires WellFormed(msg, m, descs)
    ensures |slots| == |descs| && forall i: nat | i < |descs| :: Unmarshalled(msg, m, descs, i, slots[i])
  {
    hide Unpacked, ReadWord, Unmarshalled, Offset;
    slots := [];
    var p := m.paramsAt;
    NoOffset(descs, true);
    for i := 0 to m.count
      invariant |slots| == i && p == m.paramsAt + Offset(descs, i, true)
      invariant forall k: nat | k < i :: Unmarshalled(msg, m, descs, k, slots[k])
    {
      OffsetGrows(descs, i + 1, |descs|, true);
      NextOffset(descs, i, true);
      var slot: Slot;
      slot, p := UnmarshallOne(msg, m, p, i, descs);
      slots := slots + [slot];
    }
  }

  /** The body of its loop: the argument's value, and where the next data begins. */
  method UnmarshallOne(msg: seq<Byte>, m: Parsed, p: nat, i: nat, ghost descs: seq<Desc>)
    returns (slot: Slot, next: nat)
    requires WellFormed(msg, m, descs) && i < m.count && p == m.paramsAt + Offset(descs, i, true)
    requires p + (if descs[i].input then descs[i].length else 0) <= |msg|
    ensures Unmarshalled(msg, m, descs, i, slot)
    ensures next == p + if descs[i].input then descs[i].length else 0
  {
    hide Unpacked, ReadWord, Offset;
    var d := ParsedDesc(msg, m, i);
    slot, next := Untouched, p;
    if d.ptr {
      if d.input {
        slot := if d.length > 0 then At(p) else Null;
        next := p + d.length;
      } else if d.output {
        slot := if d.length == 0 then Null else Invalid;
      }
    } else if d.input {
      slot := Value(msg[p..p + d.length]);
      next := p + d.length;
    }
  }

  /** The slot gives access to exactly the data. */
  predicate Gives(msg: seq<Byte>, slot: Slot, ptr: bool, data: seq<Byte>) {
    match slot
    case Null => ptr && data == []
    case At(o) => ptr && data != [] && o + |data| <= |msg| && msg[o..o + |data|] == data
    case Value(bytes) => !ptr && bytes == data
    case Invalid => false
    case Untouched => false
  }

  lemma SliceOfTail(s: seq<Byte>, p: nat, o: nat, len: nat)
    requires p <= |s| && o + len <= |s[p..]|
    ensures s[p..][o..o + len] == s[p + o..p + o + len]
  {}

  lemma InputArrives(msg: seq<Byte>, m: Parsed, descs: seq<Desc>, args: seq<seq<Byte>>, i: nat, slot: Slot)
    requires Covers(descs, args, true) && i < |descs| && descs[i].input && m.paramsAt <= |msg|
    requires msg[m.paramsAt..] == Payload(descs, args, |descs|, true)
    requires m.paramsAt + Offset(descs, |descs|, true) <= |msg| && Unmarshalled(msg, m, descs, i, slot)
    ensures Gives(msg, slot, descs[i].ptr, args[i][..descs[i].length])
  {
    hide Payload, Offset;
    PayloadAt(descs, args, i, |descs|, true);
    var o, len := Offset(descs, i, true), descs[i].length;
    SliceOfTail(msg, m.paramsAt, o, len);
  }

  /** Every input arrives in its place, whatever the descriptors and the values; slots are what
      rpc_request_unmarshall_va makes of the message. */
  lemma RequestRoundTrip(fcode: nat, descs: seq<Desc>, args: seq<seq<Byte>>, msg: seq<Byte>, slots: seq<Slot>)
    requires fcode < U32 && |descs| < U32 && AllValid(descs) && Covers(descs, args, true)
    requires msg == RequestBytes(fcode, descs, args) && |slots| == |descs|
    requires 8 <= |msg| && RequestParse(msg).paramsAt + Offset(descs, |descs|, true) <= |msg|
    requires forall i: nat | i < |descs| :: Unmarshalled(msg, RequestParse(msg), descs, i, slots[i])
    ensures RequestParse(msg).fcode == fcode && WellFormed(msg, RequestParse(msg), descs)
    ensures forall i: nat | i < |descs| && descs[i].input ::
      Gives(msg, slots[i], descs[i].ptr, args[i][..descs[i].length])
  {
    RequestParses(fcode, descs, args);
    hide RequestBytes, RequestParse, Unmarshalled, Gives, Payload;
    forall i: nat | i < |descs| && descs[i].input
      ensures Gives(msg, slots[i], descs[i].ptr, args[i][..descs[i].length])
    {
      InputArrives(msg, RequestParse(msg), descs, args, i, slots[i]);
    }
  }

  // ----- the response -----

  /** An argument as it was passed to the remote function. */
  datatype Result = Buffer(bytes: seq<Byte>) | Number(value: int)

  /** The low bytes of a number, least significant first: what a cast to a shorter type keeps. */
  function LowBytes(value: int, n: nat): (r: seq<Byte>)
    ensures |r| == n
    decreases n
  {
    if n == 0 then [] else [Low(value)] + LowBytes(value / 256, n - 1)
  }

  /** What rpc_response_marshall_va demands of its arguments. */
  predicate Fits(d: Desc, r: Result) {
    if d.ptr then r.Buffer? && (d.output ==> d.length <= |r.bytes|)
    else r.Number? && d.length in {1, 2, 4, 8}
  }

  predicate AllFit(descs: seq<Desc>, results: seq<Result>) {
    |results| == |descs| && forall i | 0 <= i < |descs| :: Fits(descs[i], results[i])
  }

  /** The memory that is copied for each argument. */
  function ArgumentBytes(descs: seq<Desc>, results: seq<Result>): (r: seq<seq<Byte>>)
    requires AllFit(descs, results)
    ensures Covers(descs, r, false)
    ensures forall i | 0 <= i < |descs| ::
      r[i] == if descs[i].ptr then results[i].bytes else LowBytes(results[i].value, descs[i].length)
  {
    seq(|descs|, i requires 0 <= i < |descs| =>
      if descs[i].ptr then results[i].bytes else LowBytes(results[i].value, descs[i].length))
  }

  function ResponseBytes(fcode: nat, descs: seq<Desc>, results: seq<Result>): seq<Byte>
    requires fcode < U32 && AllFit(descs, results)
  {
    LittleWord(fcode) + Payload(descs, ArgumentBytes(descs, results), |descs|, false)
  }

  /** rpc_response_marshall_va, with the function code and descriptors of the parsed request. */
  method ResponseMarshall(fcode: nat, descs: seq<Desc>, results: seq<Result>) returns (msg: array<Byte>, length: nat)
    requires fcode < U32 && AllFit(descs, results)
    ensures fresh(msg) && length == msg.Length && msg[..] == ResponseBytes(fcode, descs, results)
  {
    var total := 0;
    for i := 0 to |descs|
      invariant total == Offset(descs, i, false)
    {
      if descs[i].output {
        total := total + descs[i].length;
      }
    }
    length := 4 + total;
    msg := new Byte[length];
    var p := Append(msg, 0, LittleWord(fcode), []);
    AppendPayload(msg, p, descs, ArgumentBytes(descs, results), false, LittleWord(fcode));
  }

  /** The data of output i in a response. */
  function OutputAt(msg: seq<Byte>, paramsAt: nat, list: seq<Desc>, i: nat): seq<Byte>
    requires i < |list|
  {
    var o := paramsAt + Offset(list, i, false);
    if o + list[i].length <= |msg| then msg[o..o + list[i].length] else []
  }

  /** data has been copied over the beginning of before. */
  predicate Copied(now: seq<Byte>, before: seq<Byte>, data: seq<Byte>) {
    |data| <= |now| == |before| && now[..|data|] == data && now[|data|..] == before[|data|..]
  }

  function Contents(slots: seq<array<Byte>>): (r: seq<seq<Byte>>)
    reads set i | 0 <= i < |slots| :: slots[i]
    ensures |r| == |slots|
    ensures forall i | 0 <= i < |slots| :: r[i] == slots[i][..]
  {
    seq(|slots|, i requires 0 <= i < |slots| reads set k | 0 <= k < |slots| :: slots[k] => slots[i][..])
  }

  function Over(before: seq<Byte>, data: seq<Byte>): (r: seq<Byte>)
    ensures |r| == |before|
  {
    if |data| <= |before| then Overwritten(before, 0, data) else before
  }

  method CopyTo(slot: array<Byte>, data: seq<Byte>)
    requires |data| <= slot.Length
    modifies slot
    ensures slot[..] == Over(old(slot[..]), data)
  {
    Copy(slot, 0, data);
  }

  /** What the memory of argument j holds when the first n outputs have been copied to theirs, in
      order; arguments may share memory. */
  function Landed(list: seq<Desc>, slots: seq<array<Byte>>, datas: seq<seq<Byte>>, before: seq<seq<Byte>>,
                  n: nat, j: nat): (r: seq<Byte>)
    requires n <= |slots| <= |list| && |datas| == |before| == |slots| && j < |slots|
    ensures |r| == |before[j]|
  {
    if n == 0 then before[j]
    else
      var init := Landed(list, slots, datas, before, n - 1, j);
      if list[n - 1].output && slots[n - 1] == slots[j] then Over(init, datas[n - 1]) else init
  }

  lemma NothingLanded(list: seq<Desc>, slots: seq<array<Byte>>, datas: seq<seq<Byte>>, before: seq<seq<Byte>>)
    requires |datas| == |before| == |slots| <= |list|
    ensures forall j: nat | j < |slots| :: Landed(list, slots, datas, before, 0, j) == before[j]
  {}

  lemma OneLands(list: seq<Desc>, slots: seq<array<Byte>>, datas: seq<seq<Byte>>, before: seq<seq<Byte>>, n: nat)
    requires n < |slots| <= |list| && |datas| == |before| == |slots|
    ensures forall j: nat | j < |slots| :: Landed(list, slots, datas, before, n + 1, j) ==
              if list[n].output && slots[n] == slots[j] then Over(Landed(list, slots, datas, before, n, j), datas[n])
              else Landed(list, slots, datas, before, n, j)
  {
    hide Over;
  }

  /** An output that shares its memory with no other one is there in the end, and nothing else is
      written to that memory. */
  lemma {:induction false} LandedAlone(list: seq<Desc>, slots: seq<array<Byte>>, datas: seq<seq<Byte>>,
                                       before: seq<seq<Byte>>, n: nat, j: nat)
    requires n <= |slots| <= |list| && |datas| == |before| == |slots| && j < |slots|
    requires list[j].output && |datas[j]| <= |before[j]|
    requires forall i | 0 <= i < |slots| && i != j && list[i].output :: slots[i] != slots[j]
    ensures if j < n then Copied(Landed(list, slots, datas, before, n, j), before[j], datas[j])
            else Landed(list, slots, datas, before, n, j) == before[j]
  {
    if n != 0 {
      LandedAlone(list, slots, datas, before, n - 1, j);
    }
  }

  /** Of outputs that share memory the last one is there in the end. */
  lemma {:induction false} LastLands(list: seq<Desc>, slots: seq<array<Byte>>, datas: seq<seq<Byte>>,
                                     before: seq<seq<Byte>>, n: nat, j: nat)
    requires j < n <= |slots| <= |list| && |datas| == |before| == |slots|
    requires list[j].output && |datas[j]| <= |before[j]|
    requires forall i | j < i < n && list[i].output :: slots[i] != slots[j]
    ensures Landed(list, slots, datas, before, n, j)[..|datas[j]|] == datas[j]
  {
    if j < n - 1 {
      LastLands(list, slots, datas, before, n - 1, j);
    }
  }

  /** The data of all outputs in a response. */
  function Outputs(msg: seq<Byte>, paramsAt: nat, list: seq<Desc>, n: nat): (r: seq<seq<Byte>>)
    requires n <= |list|
    ensures |r| == n
  {
    seq(n, i requires 0 <= i < n => OutputAt(msg, paramsAt, list, i))
  }

  /** One output is copied. */
  method StoreOutput(list: seq<Desc>, slots: seq<array<Byte>>, data: seq<Byte>, i: nat,
                     ghost datas: seq<seq<Byte>>, ghost before: seq<seq<Byte>>)
    requires i < |slots| <= |list| && |datas| == |before| == |slots|
    requires list[i].output && data == datas[i] && |data| <= slots[i].Length
    requires forall j: nat | j < |slots| :: slots[j][..] == Landed(list, slots, datas, before, i, j)
    modifies slots[i]
    ensures forall j: nat | j < |slots| :: slots[j][..] == Landed(list, slots, datas, before, i + 1, j)
  {
    hide Landed, Over;
    OneLands(list, slots, datas, before, i);
    CopyTo(slots[i], data);
    forall j: nat | j < |slots| ensures slots[j][..] == Landed(list, slots, datas, before, i + 1, j) {
      if slots[j] != slots[i] {
        assert slots[j][..] == old(slots[j][..]);
      }
    }
  }

  /** rpc_response_unmarshall_va: the outputs are copied, in order, to the memory their arguments
      point to, and nothing else is written. */
  method ResponseUnmarshall(msg: seq<Byte>, paramsAt: nat, list: seq<Desc>, slots: seq<array<Byte>>)
    requires IsList(list) && |slots| == Count(list)
    requires forall i | 0 <= i < |slots| && list[i].output :: list[i].length <= slots[i].Length
    requires paramsAt + Offset(list, Count(list), false) <= |msg|
    modifies set i | 0 <= i < |slots| && list[i].output :: slots[i]
    ensures forall j: nat | j < |slots| ::
      slots[j][..] == Landed(list, slots, Outputs(msg, paramsAt, list, |slots|), old(Contents(slots)), |slots|, j)
  {
    hide OutputAt, Offset, Over, Landed;
    ghost var before, datas := Contents(slots), Outputs(msg, paramsAt, list, |slots|);
    var i, p := 0, paramsAt;
    NoOffset(list, false);
    NothingLanded(list, slots, datas, before);
    while !list[i].End()
      invariant i <= Count(list) && p == paramsAt + Offset(list, i, false)
      invariant forall j: nat | j < |slots| :: slots[j][..] == Landed(list, slots, datas, before, i, j)
      decreases Count(list) - i
    {
      OffsetGrows(list, i + 1, Count(list), false);
      NextOffset(list, i, false);
      if list[i].output {
        OutputIs(msg, paramsAt, list, i);
        StoreOutput(list, slots, msg[p..p + list[i].length], i, datas, before);
        p := p + list[i].length;
      } else {
        OneLands(list, slots, datas, before, i);
      }
      i := i + 1;
    }
  }

  lemma OutputIs(msg: seq<Byte>, paramsAt: nat, list: seq<Desc>, i: nat)
    requires i < |list| && paramsAt + Offset(list, i, false) + list[i].length <= |msg|
    ensures var o := paramsAt + Offset(list, i, false); OutputAt(msg, paramsAt, list, i) == msg[o..o + list[i].length]
  {}

  lemma NoOffset(descs: seq<Desc>, request: bool)
    ensures Offset(descs, 0, request) == 0
  {}

  lemma NextOffset(descs: seq<Desc>, i: nat, request: bool)
    requires i < |descs|
    ensures Offset(descs, i + 1, request) ==
      Offset(descs, i, request) + if Travels(descs[i], request) then descs[i].length else 0
  {}

  /** Offsets depend on the descriptors before only. */
  lemma {:induction false} OffsetOfPrefix(list: seq<Desc>, n: nat, i: nat, request: bool)
    requires i <= n <= |list|
    ensures Offset(list[..n], i, request) == Offset(list, i, request)
  {
    if i != 0 {
      OffsetOfPrefix(list, n, i - 1, request);
    }
  }

  lemma ResponseParts(fcode: nat, descs: seq<Desc>, results: seq<Result>)
    requires fcode < U32 && AllFit(descs, results)
    ensures var msg := ResponseBytes(fcode, descs, results);
      |msg| == 4 + Offset(descs, |descs|, false) && ReadWord(msg, 0) == fcode &&
      msg[4..] == Payload(descs, ArgumentBytes(descs, results), |descs|, false)
  {
    hide LittleWord, LittleUnword, Payload, Offset, ArgumentBytes, AllFit;
    var msg := ResponseBytes(fcode, descs, results);
    assert msg[0..4] == LittleWord(fcode);
    LittleRoundTrip(fcode);
  }

  /** Every output of a response is where the caller's side looks for it. */
  lemma ResponseRoundTrip(fcode: nat, list: seq<Desc>, results: seq<Result>, i: nat)
    requires fcode < U32 && IsList(list) && AllFit(list[..Count(list)], results)
    requires i < Count(list) && list[i].output
    ensures var msg := ResponseBytes(fcode, list[..Count(list)], results);
      && ReadWord(msg, 0) == fcode
      && 4 + Offset(list, Count(list), false) == |msg|
      && OutputAt(msg, 4, list, i) == ArgumentBytes(list[..Count(list)], results)[i][..list[i].length]
  {
    hide LittleUnword, Payload, Offset, ArgumentBytes, ResponseBytes, AllFit, IsList, Count;
    var n := Count(list);
    var descs := list[..n];
    ResponseParts(fcode, descs, results);
    PayloadAt(descs, ArgumentBytes(descs, results), i, n, false);
    OffsetOfPrefix(list, n, i, false);
    OffsetOfPrefix(list, n, n, false);
    SliceOfTail(ResponseBytes(fcode, descs, results), 4, Offset(list, i, false), list[i].length);
  }

  /** A number that the remote function returned arrives as it was, if the type of the
      descriptor can hold it. */
  lemma {:induction false} NumberArrives(value: nat, n: nat)
    requires value < Power256(n)
    ensures Number256(LowBytes(value, n)) == value
    decreases n
  {
    if n != 0 {
      NumberArrives(value / 256, n - 1);
      assert LowBytes(value, n)[1..] == LowBytes(value / 256, n - 1);
    }
  }

  /** The number that bytes stand for in two's complement. */
  function Signed256(b: seq<Byte>): int {
    if 2 * Number256(b) < Power256(|b|) then Number256(b) else Number256(b) - Power256(|b|)
  }

  /** Cut to n bytes, a number keeps its remainder. */
  lemma {:induction false} LowBytesAreRemainder(value: int, n: nat) returns (q: int)
    ensures value == q * Power256(n) + Number256(LowBytes(value, n))
    ensures 0 <= Number256(LowBytes(value, n)) < Power256(n)
    decreases n
  {
    if n == 0 {
      q := value;
    } else {
      q := LowBytesAreRemainder(value / 256, n - 1);
      assert LowBytes(value, n)[1..] == LowBytes(value / 256, n - 1);
      assert value == 256 * (value / 256) + Low(value);
      var t: int := q * Power256(n - 1);
      assert q * (256 * Power256(n - 1)) == 256 * t;
    }
  }

  /** A number with a sign arrives as it was, if the type of the descriptor can hold it. */
  lemma SignedArrives(value: int, n: nat)
    requires 0 <= 2 * value + Power256(n) && 2 * value < Power256(n)
    ensures Signed256(LowBytes(value, n)) == value
  {
    var q := LowBytesAreRemainder(value, n);
    var p, r := Power256(n), Number256(LowBytes(value, n));
    hide Power256, Number256, LowBytes;
    QuotientIsSmall(value, q, p, r);
  }

  lemma QuotientIsSmall(value: int, q: int, p: int, r: int)
    requires value == q * p + r && 0 <= r < p && -p <= 2 * value < p
    ensures (q == 0 && 2 * r < p) || (q == -1 && p <= 2 * r && value == r - p)
  {
    if 1 <= q {
      AtLeast(q, p);
    } else if q <= -2 {
      AtMost(q, p);
    }
  }

  lemma AtLeast(q: int, p: int)
    requires 1 <= q && 0 <= p
    ensures p <= q * p
  {
    assert (q - 1) * p >= 0;
    assert q * p == (q - 1) * p + p;
  }

  lemma AtMost(q: int, p: int)
    requires q <= -2 && 0 <= p
    ensures q * p <= -2 * p
  {
    assert (-2 - q) * p >= 0;
    assert q * p == -2 * p - (-2 - q) * p;
  }

  function Power256(n: nat): nat {
    if n == 0 then 1 else 256 * Power256(n - 1)
  }

  /** The number that bytes stand for, least significant first. */
  function Number256(b: seq<Byte>): nat {
    if b == [] then 0 else b[0] + 256 * Number256(b[1..])
  }

  /** What the remote function left for the caller. */
  function Returned(descs: seq<Desc>, results: seq<Result>): (r: seq<seq<Byte>>)
    requires AllFit(descs, results)
    ensures |r| == |descs|
    ensures forall i | 0 <= i < |descs| && descs[i].output ::
      |r[i]| == descs[i].length && r[i] == ArgumentBytes(descs, results)[i][..descs[i].length]
  {
    seq(|descs|, i requires 0 <= i < |descs| =>
      if descs[i].output then ArgumentBytes(descs, results)[i][..descs[i].length] else [])
  }

  /** Only the data of outputs matters. */
  lemma {:induction false} LandedSame(list: seq<Desc>, slots: seq<array<Byte>>, a: seq<seq<Byte>>, b: seq<seq<Byte>>,
                                      before: seq<seq<Byte>>, n: nat, j: nat)
    requires n <= |slots| <= |list| && |a| == |b| == |before| == |slots| && j < |slots|
    requires forall i | 0 <= i < |slots| && list[i].output :: a[i] == b[i]
    ensures Landed(list, slots, a, before, n, j) == Landed(list, slots, b, before, n, j)
  {
    if n != 0 {
      LandedSame(list, slots, a, b, before, n - 1, j);
    }
  }

  /** The part of rpc_client_call_generic after the request has been sent: reply is what the
      link delivers, the response made of the remote function's results. */
  method CompleteCall(fcode: nat, list: seq<Desc>, slots: seq<array<Byte>>, reply: seq<Byte>,
                      ghost results: seq<Result>)
    requires fcode < U32 && IsList(list) && |slots| == Count(list)
    requires forall i | 0 <= i < |slots| && list[i].output :: list[i].length <= slots[i].Length
    requires AllFit(list[..Count(list)], results) && reply == ResponseBytes(fcode, list[..Count(list)], results)
    modifies set i | 0 <= i < |slots| && list[i].output :: slots[i]
    ensures forall j: nat | j < |slots| ::
      slots[j][..] == Landed(list, slots, Returned(list[..Count(list)], results), old(Contents(slots)), |slots|, j)
  {
    hide LittleWord, LittleUnword, Payload, Offset, ArgumentBytes, Landed;
    ghost var before, datas := Contents(slots), Returned(list[..Count(list)], results);
    OffsetOfPrefix(list, Count(list), Count(list), false);
    ResponseParts(fcode, list[..Count(list)], results);
    assert ReadWord(reply, 0) == fcode;
    forall i: nat | i < |slots| && list[i].output ensures OutputAt(reply, 4, list, i) == datas[i] {
      ResponseRoundTrip(fcode, list, results, i);
    }
    hide OutputAt, ResponseBytes, Returned;
    ResponseUnmarshall(reply, 4, list, slots);
    forall j: nat | j < |slots| ensures slots[j][..] == Landed(list, slots, datas, before, |slots|, j) {
      LandedSame(list, slots, Outputs(reply, 4, list, |slots|), datas, before, |slots|, j);
    }
  }

  // ----- a whole call -----

  /** The function on the remote side: from the bytes of its inputs, in order, to what it leaves in
      its arguments. */
  type Remote = seq<seq<Byte>> -> seq<Result>

  /** What the inputs are, on the caller's side. */
  function Inputs(descs: seq<Desc>, args: seq<seq<Byte>>): (r: seq<seq<Byte>>)
    requires Covers(descs, args, true)
    ensures |r| == |descs|
  {
    seq(|descs|, i requires 0 <= i < |descs| => if descs[i].input then args[i][..descs[i].length] else [])
  }

  /** What the remote function can read through an argument. */
  function SlotBytes(msg: seq<Byte>, slot: Slot, d: Desc): seq<Byte> {
    match slot
    case At(o) => if o + d.length <= |msg| then msg[o..o + d.length] else []
    case Value(bytes) => bytes
    case _ => []
  }

  function AllSlotBytes(msg: seq<Byte>, slots: seq<Slot>, descs: seq<Desc>): (r: seq<seq<Byte>>)
    requires |slots| == |descs|
  {
    seq(|descs|, i requires 0 <= i < |descs| => SlotBytes(msg, slots[i], descs[i]))
  }

  /** The descriptors of a parsed message. */
  function ParsedDescs(msg: seq<Byte>, m: Parsed): (r: seq<Desc>)
    requires m.descsAt + 4 * m.count <= |msg|
    ensures |r| == m.count
  {
    seq(m.count, i requires 0 <= i < m.count => ParsedDesc(msg, m, i))
  }

  lemma SlotGives(msg: seq<Byte>, m: Parsed, descs: seq<Desc>, i: nat, slot: Slot, data: seq<Byte>)
    requires i < |descs| && m.paramsAt + Offset(descs, |descs|, true) <= |msg|
    requires Unmarshalled(msg, m, descs, i, slot)
    requires if descs[i].input then |data| == descs[i].length && Gives(msg, slot, descs[i].ptr, data) else data == []
    ensures SlotBytes(msg, slot, descs[i]) == data
  {}

  /** The remote side gets the caller's inputs, all of them. */
  lemma InputsArrive(fcode: nat, descs: seq<Desc>, args: seq<seq<Byte>>, msg: seq<Byte>, slots: seq<Slot>)
    requires fcode < U32 && |descs| < U32 && AllValid(descs) && Covers(descs, args, true)
    requires msg == RequestBytes(fcode, descs, args) && |slots| == |descs|
    requires 8 <= |msg| && RequestParse(msg).paramsAt + Offset(descs, |descs|, true) <= |msg|
    requires forall i: nat | i < |descs| :: Unmarshalled(msg, RequestParse(msg), descs, i, slots[i])
    ensures AllSlotBytes(msg, slots, descs) == Inputs(descs, args)
  {
    RequestRoundTrip(fcode, descs, args, msg, slots);
    hide RequestBytes, RequestParse, Unmarshalled, Gives, SlotBytes;
    forall i: nat | i < |descs| ensures SlotBytes(msg, slots[i], descs[i]) == Inputs(descs, args)[i] {
      SlotGives(msg, RequestParse(msg), descs, i, slots[i], Inputs(descs, args)[i]);
    }
  }

  lemma DescsArrive(msg: seq<Byte>, m: Parsed, descs: seq<Desc>)
    requires WellFormed(msg, m, descs) && m.descsAt + 4 * m.count <= |msg|
    ensures ParsedDescs(msg, m) == descs
  {
    hide ParsedDesc;
    forall i: nat | i < |descs| ensures ParsedDescs(msg, m)[i] == descs[i] {}
  }

  lemma RequestIsLong(fcode: nat, descs: seq<Desc>, args: seq<seq<Byte>>)
    requires fcode < U32 && |descs| < U32 && AllValid(descs) && Covers(descs, args, true)
    ensures 8 + 4 * |descs| <= |RequestBytes(fcode, descs, args)|
  {}

  /** The remote side: the request is parsed and unmarshalled, the function called with what the
      arguments give access to, and the response made of its results. */
  method Serve(msg: seq<Byte>, f: Remote, ghost fcode: nat, ghost descs: seq<Desc>, ghost args: seq<seq<Byte>>)
    returns (reply: array<Byte>)
    requires fcode < U32 && |descs| < U32 && AllValid(descs) && Covers(descs, args, true)
    requires msg == RequestBytes(fcode, descs, args) && AllFit(descs, f(Inputs(descs, args)))
    ensures fresh(reply) && reply[..] == ResponseBytes(fcode, descs, f(Inputs(descs, args)))
  {
    RequestIsLong(fcode, descs, args);
    RequestParses(fcode, descs, args);
    var m := RequestParse(msg);
    hide RequestBytes, Unmarshalled, Inputs, AllFit, Payload, ReadWord;
    var slots := RequestUnmarshall(msg, m, descs);
    InputsArrive(fcode, descs, args, msg, slots);
    DescsArrive(msg, m, descs);
    hide RequestParse;
    var parsed := ParsedDescs(msg, m);
    var length;
    reply, length := ResponseMarshall(m.fcode, parsed, f(AllSlotBytes(msg, slots, parsed)));
  }

  /** rpc_client_call_generic: the caller's memory ends up as if the remote function had been
      called with the caller's inputs, and its outputs copied to their arguments in order. */
  method ClientCall(fcode: nat, list: seq<Desc>, slots: seq<array<Byte>>, f: Remote)
    requires fcode < U32 && |list| < U32 && IsList(list) && |slots| == Count(list)
    requires forall i | 0 <= i < |slots| && (list[i].input || list[i].output) :: list[i].length <= slots[i].Length
    requires Covers(list[..Count(list)], Contents(slots), true)
    requires AllFit(list[..Count(list)], f(Inputs(list[..Count(list)], Contents(slots))))
    modifies set i | 0 <= i < |slots| && list[i].output :: slots[i]
    ensures old(AllFit(list[..Count(list)], f(Inputs(list[..Count(list)], Contents(slots)))))
    ensures var results := old(f(Inputs(list[..Count(list)], Contents(slots))));
      forall j: nat | j < |slots| ::
        slots[j][..] == Landed(list, slots, Returned(list[..Count(list)], results), old(Contents(slots)), |slots|, j)
  {
    hide Inputs, RequestBytes, ResponseBytes, ArgumentBytes, AllFit, Landed, Returned, Offset, Payload, Covers;
    var args := Contents(slots);
    ghost var descs := list[..Count(list)];
    ghost var results := f(Inputs(descs, args));
    ListIsValid(list);
    var request, length := RequestMarshall(fcode, list, args);
    var reply := Serve(request[..], f, fcode, descs, args);
    assert Contents(slots) == args;
    CompleteCall(fcode, list, slots, reply[..], results);
  }

  lemma ListIsValid(list: seq<Desc>)
    requires IsList(list)
    ensures AllValid(list[..Count(list)])
  {}
}
