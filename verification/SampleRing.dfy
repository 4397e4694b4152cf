/** The sample buffers of the I2S and microphone drivers as objects, and the functions on both
    sides of them, each run without interruption. How they interleave is the subject of
    TransmitProtocol and ReceiveProtocol. */
module SampleRing {
  import opened Basics
  import opened Memory
  import opened Arith
  import opened Ring

  lemma SlicesJoin(s: seq<int>, a: nat, b: nat, c: nat)
    requires a <= b <= c <= |s|
    ensures s[a..b] + s[b..c] == s[a..c]
  {}

  class SampleRing {
    const buf: array<int>
    var writeIndex: nat
    var readIndex: nat
    var totalWritten: nat
    var totalRead: nat
    var required: nat      // required_free_count or required_available_count
    var blocked: bool      // send_blocked or recv_blocked

    ghost var stream: seq<int>   // all words ever copied in
    ghost var given: nat         // how many of them have been copied out

    ghost function View(): Ring
      reads this, buf
    {
      Ring(buf[..], writeIndex, readIndex, totalWritten, totalRead)
    }

    ghost predicate Valid()
      reads this, buf
    {
      Stores(View(), stream, |stream|, given, given)
    }

    /** The words in the buffer, oldest first. */
    ghost function Queue(): seq<int>
      reads this, buf
      requires Valid()
    {
      stream[given..]
    }

    /** The room left. */
    ghost function Room(): nat
      reads this, buf
      requires Valid()
    {
      buf.Length - |Queue()|
    }

    constructor (size: nat)
      requires 0 < size < U32
      ensures Valid() && fresh(buf) && buf.Length == size && Queue() == [] && required == 0 && !blocked && given == 0
    {
      buf := new int[size];
      writeIndex, readIndex, totalWritten, totalRead := 0, 0, 0, 0;
      required, blocked := 0, false;
      stream, given := [], 0;
      new;
      EmptyStores(size, buf[..]);
    }

    /** One memcpy into the buffer, and the write index. */
    method PutChunk(words: seq<int>, ghost published: nat)
      requires Stores(View(), stream, published, given, given)
      requires writeIndex + |words| <= buf.Length && |stream| + |words| <= given + buf.Length
      modifies this`writeIndex, this`stream, buf
      ensures stream == old(stream) + words && Stores(View(), stream, published, given, given)
    {
      hide Stores, Overwritten;
      ghost var v := View();
      ChunkInStores(v, words, stream, published, given, given);
      Copy(buf, writeIndex, words);
      writeIndex := writeIndex + |words|;
      if writeIndex >= buf.Length {
        writeIndex := 0;
      }
      assert View() == ChunkIn(v, words);
      stream := stream + words;
    }

    /** One memcpy out of the buffer, and the read index. */
    method TakeChunk(k: nat, ghost taken: nat) returns (words: seq<int>)
      requires Stores(View(), stream, |stream|, given, taken)
      requires readIndex + k <= buf.Length && taken + k <= |stream|
      modifies this`readIndex
      ensures words == stream[taken..taken + k] && Stores(View(), stream, |stream|, given, taken + k)
    {
      hide Stores, Place;
      ghost var v := View();
      ChunkOutStores(v, k, stream, |stream|, given, taken);
      words := buf[readIndex..readIndex + k];
      readIndex := readIndex + k;
      if readIndex >= buf.Length {
        readIndex := 0;
      }
      assert View() == ChunkOut(v, k);
    }

    /** The words become visible to the other side. */
    method Announce(n: nat)
      requires |stream| >= n && Stores(View(), stream, |stream| - n, given, given)
      modifies this`totalWritten
      ensures Valid()
    {
      hide Stores, Place;
      ghost var v := View();
      PublishStores(v, n, stream, |stream| - n, given, given);
      totalWritten := (totalWritten + n) % U32;
      assert View() == Publish(v, n);
    }

    /** The room becomes available to the other side. */
    method GiveBack(n: nat)
      requires Stores(View(), stream, |stream|, given, given + n)
      modifies this`totalRead, this`given
      ensures Valid() && given == old(given) + n
    {
      hide Stores, Place;
      ghost var v := View();
      ReleaseStores(v, n, stream, |stream|, given, given + n);
      totalRead := (totalRead + n) % U32;
      given := given + n;
      assert View() == Release(v, n);
    }

    /** The copying loop of i2s_local_tx and of the microphone interrupt, which goes around the
        end of the buffer, and the update of the total that announces the words. */
    method CopyIn(words: seq<int>)
      requires Valid() && |words| <= Room()
      modifies this`writeIndex, this`totalWritten, this`stream, buf
      ensures Valid() && stream == old(stream) + words && given <= |old(stream)|
    {
      hide Stores, Place;
      StoresBounds(View(), stream, |stream|, given, given);
      ghost var before := stream;
      var remaining := words;
      while remaining != []
        invariant |remaining| <= |words| && remaining == words[|words| - |remaining|..]
        invariant stream == before + words[..|words| - |remaining|]
        invariant Stores(View(), stream, |before|, given, given)
        invariant |before| + |words| <= given + buf.Length
        decreases |remaining|
      {
        StoresBounds(View(), stream, |before|, given, given);
        var n := Min(|remaining|, buf.Length - writeIndex);
        PutChunk(remaining[..n], |before|);
        remaining := remaining[n..];
      }
      assert stream == before + words;
      Announce(|words|);
    }

    /** The copying loop of i2s_local_rx and mic_array_local_rx. */
    method CopyOut(n: nat) returns (words: seq<int>)
      requires Valid() && n <= |Queue()|
      modifies this`readIndex, this`totalRead, this`given
      ensures Valid() && given == old(given) + n <= |stream| && words == stream[old(given)..given]
    {
      hide Stores, Place;
      StoresBounds(View(), stream, |stream|, given, given);
      ghost var all := stream;
      var done := 0;
      words := [];
      while done < n
        invariant given == old(given) && given + n <= |all|
        invariant |words| == done <= n && words == all[old(given)..given + done]
        invariant Stores(View(), stream, |stream|, given, given + done)
        decreases n - done
      {
        StoresBounds(View(), stream, |stream|, given, given + done);
        var k := Min(n - done, buf.Length - readIndex);
        var more := TakeChunk(k, given + done);
        SlicesJoin(all, given, given + done, given + done + k);
        words := words + more;
        done := done + k;
      }
      GiveBack(n);
    }

    method Available() returns (n: nat)
      requires Valid()
      ensures n == |Queue()|
    {
      LevelIsExact(View(), stream, |stream|, given, given);
      n := (totalWritten - totalRead) % U32;
    }

    method Free() returns (n: nat)
      requires Valid()
      ensures n == Room()
    {
      LevelIsExact(View(), stream, |stream|, given, given);
      n := (buf.Length - (totalWritten - totalRead) % U32) % U32;
    }

    // ----- I2S, transmit -----

    /** i2s_local_tx; woken is the outcome of the wait for the semaphore, should it come to one. */
    method LocalTx(data: seq<int>, woken: bool) returns (sent: nat)
      requires Valid() && |data| <= buf.Length
      requires woken ==> |data| <= Room()
      modifies this, buf
      ensures Valid() && given == old(given)
      ensures blocked == ((old(blocked) || |data| > old(Room())) && !woken)
      ensures required == if !old(blocked) && |data| > old(Room()) then |data| else old(required)
      ensures sent == if blocked then 0 else |data|
      ensures Queue() == old(Queue()) + data[..sent]
    {
      hide Stores, Place, Aligned;
      sent := 0;
      if !blocked {
        var free := Free();
        if |data| > free {
          required := |data|;
          blocked := true;
        }
      }
      if blocked && woken {
        blocked := false;
      }
      if !blocked {
        CopyIn(data);
        sent := |data|;
      }
    }

    /** The waiting side asked for room, and there is enough. */
    method GrantRoom() returns (wake: bool)
      requires Valid()
      modifies this`required
      ensures wake == (old(required) > 0 && Room() >= old(required))
      ensures required == if wake then 0 else old(required)
    {
      wake := false;
      if required > 0 {
        var free := Free();
        if free >= required {
          required := 0;
          wake := true;
        }
      }
    }

    /** i2s_send without a filter: one memcpy, which does not go around the end. */
    method Send(count: nat) returns (frame: seq<int>, wake: bool)
      requires Valid() && Aligned(buf.Length, count) && Aligned(given, count)
      modifies this
      ensures Valid() && Aligned(given, count)
      ensures frame == if |old(Queue())| >= count then old(Queue())[..count] else []
      ensures Queue() == old(Queue())[|frame|..]
      ensures wake == (old(required) > 0 && Room() >= old(required))
      ensures required == if wake then 0 else old(required)
    {
      hide Stores, Place, Aligned;
      StoresBounds(View(), stream, |stream|, given, given);
      frame := [];
      var available := Available();
      if available >= count {
        FrameFits(given, count, buf.Length);
        FrameMultiple(given, count);
        frame := TakeChunk(count, given);
        GiveBack(count);
      }
      wake := GrantRoom();
    }

    // ----- receiving -----

    /** The waiting side asked for words, and there are enough. */
    method GrantWords() returns (wake: bool)
      requires Valid()
      modifies this`required
      ensures wake == (old(required) > 0 && |Queue()| >= old(required))
      ensures required == if wake then 0 else old(required)
    {
      wake := false;
      if required > 0 {
        var available := Available();
        if available >= required {
          required := 0;
          wake := true;
        }
      }
    }

    /** The microphone interrupt: a block is stored whole or not at all. */
    method Deliver(block: seq<int>) returns (wake: bool)
      requires Valid()
      modifies this, buf
      ensures Valid() && given == old(given)
      ensures Queue() == if |block| <= old(Room()) then old(Queue()) + block else old(Queue())
      ensures wake == (old(required) > 0 && |Queue()| >= old(required))
      ensures required == if wake then 0 else old(required)
    {
      hide Stores, Place, Aligned;
      var free := Free();
      if |block| <= free {
        CopyIn(block);
      }
      wake := GrantWords();
    }

    /** i2s_receive without a filter: as Deliver, with one memcpy. */
    method Receive(frame: seq<int>) returns (wake: bool)
      requires Valid() && Aligned(buf.Length, |frame|) && Aligned(|stream|, |frame|)
      modifies this, buf
      ensures Valid() && given == old(given) && Aligned(|stream|, |frame|)
      ensures Queue() == if |frame| <= old(Room()) then old(Queue()) + frame else old(Queue())
      ensures wake == (old(required) > 0 && |Queue()| >= old(required))
      ensures required == if wake then 0 else old(required)
    {
      hide Stores, Place, Aligned;
      StoresBounds(View(), stream, |stream|, given, given);
      var free := Free();
      if |frame| <= free {
        FrameFits(|stream|, |frame|, buf.Length);
        FrameMultiple(|stream|, |frame|);
        PutChunk(frame, |stream|);
        Announce(|frame|);
      }
      wake := GrantWords();
    }

    /** i2s_local_rx and mic_array_local_rx. */
    method LocalRx(count: nat, woken: bool) returns (words: seq<int>)
      requires Valid() && count <= buf.Length
      requires woken ==> count <= |Queue()|
      modifies this
      ensures Valid()
      ensures blocked == ((old(blocked) || count > |old(Queue())|) && !woken)
      ensures required == if !old(blocked) && count > |old(Queue())| then count else old(required)
      ensures |words| == if blocked then 0 else count
      ensures words == old(Queue())[..|words|] && Queue() == old(Queue())[|words|..]
    {
      hide Stores, Place, Aligned;
      words := [];
      if !blocked {
        var available := Available();
        if count > available {
          required := count;
          blocked := true;
        }
      }
      if blocked && woken {
        blocked := false;
      }
      if !blocked {
        words := CopyOut(count);
      }
    }
  }
}
