/** memcpy. */
module Memory {

  /** buf with data copied to it at index at. */
  function Overwritten<T>(buf: seq<T>, at: nat, data: seq<T>): (r: seq<T>)
    requires at + |data| <= |buf|
    ensures |r| == |buf|
  {
    buf[..at] + data + buf[at + |data|..]
  }

  method Copy<T>(buf: array<T>, at: nat, data: seq<T>)
    requires at + |data| <= buf.Length
    modifies buf
    ensures buf[..] == Overwritten(old(buf[..]), at, data)
  {
    ghost var before := buf[..];
    forall i | 0 <= i < |data| {
      buf[at + i] := data[i];
    }
    var now, wanted := buf[..], Overwritten(before, at, data);
    forall i | 0 <= i < |now| ensures now[i] == wanted[i] {
      assert i < at || at + |data| <= i ==> now[i] == before[i];
    }
  }
}
