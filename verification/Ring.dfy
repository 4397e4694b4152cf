/** The sample rings of the I2S and microphone drivers: one side copies samples in, the other
    copies them out, each keeps its own index, and two totals that wrap at 2^32 are all that
    they tell each other. */
module Ring {
  import opened Basics
  import opened Memory
  import opened Arith

  datatype Ring = Ring(buf: seq<int>, writeIndex: nat, readIndex: nat, totalWritten: nat, totalRead: nat)
  {
    function Size(): nat {
      |buf|
    }

    /** words_available, and words_free below: what a side computes from the totals. */
    function Available(): nat {
      (totalWritten - totalRead) % U32
    }

    function Free(): nat {
      (Size() - Available()) % U32
    }

    predicate Indexed() {
      writeIndex < Size() && readIndex < Size()
    }
  }

  function Empty(size: nat, filler: seq<int>): Ring
    requires |filler| == size
  {
    Ring(filler, 0, 0, 0, 0)
  }

  /** An index moves on by n and starts over at the end. */
  function Advanced(index: nat, n: nat, size: nat): nat {
    if index + n >= size then 0 else index + n
  }

  /** One memcpy into the ring. */
  function ChunkIn(r: Ring, chunk: seq<int>): Ring
    requires r.writeIndex + |chunk| <= r.Size()
  {
    r.(buf := Overwritten(r.buf, r.writeIndex, chunk),
       writeIndex := Advanced(r.writeIndex, |chunk|, r.Size()))
  }

  /** One memcpy out of it. */
  function ChunkOut(r: Ring, n: nat): Ring
    requires r.readIndex + n <= r.Size()
  {
    r.(readIndex := Advanced(r.readIndex, n, r.Size()))
  }

  function Publish(r: Ring, n: nat): Ring {
    r.(totalWritten := (r.totalWritten + n) % U32)
  }

  function Release(r: Ring, n: nat): Ring {
    r.(totalRead := (r.totalRead + n) % U32)
  }

  // ----- the stream in the ring -----

  /** Where word number k of the stream is kept. */
  function Place(k: nat, size: nat): (r: nat)
    requires 0 < size
    ensures r < size
  {
    k % size
  }

  lemma PlaceWithin(k: nat, j: nat, size: nat)
    requires 0 < size && Place(k, size) + j < size
    ensures Place(k + j, size) == Place(k, size) + j
  {
    DivMod(k, size);
    DivModUnique(k + j, size, k / size, k % size + j);
  }

  lemma PlaceAdvances(k: nat, n: nat, size: nat)
    requires 0 < size && Place(k, size) + n <= size
    ensures Place(k + n, size) == Advanced(Place(k, size), n, size)
  {
    if Place(k, size) + n < size {
      PlaceWithin(k, n, size);
    } else {
      DivMod(k, size);
      DivModUnique(k + n, size, k / size + 1, 0);
    }
  }

  lemma PlacesDiffer(a: nat, b: nat, size: nat)
    requires 0 < size && a < b < a + size
    ensures Place(a, size) != Place(b, size)
  {
    if Place(a, size) == Place(b, size) {
      DivMod(a, size);
      DivMod(b, size);
      assert b - a == (b / size - a / size) * size;
      if a / size < b / size {
        MulMonotone(1, b / size - a / size, size);
      } else {
        MulMonotone(b / size - a / size, 0, size);
      }
      assert false;
    }
  }

  /** All words of w have been copied in, the first published of them have been announced; the
      first taken have been copied out, and the room of the first read has been given back. */
  ghost predicate Stores(r: Ring, w: seq<int>, published: nat, read: nat, taken: nat) {
    && 0 < r.Size() < U32
    && read <= taken <= published <= |w| <= read + r.Size()
    && r.totalWritten == published % U32 && r.totalRead == read % U32
    && r.writeIndex == Place(|w|, r.Size()) && r.readIndex == Place(taken, r.Size())
    && forall k: nat | read <= k < |w| :: r.buf[Place(k, r.Size())] == w[k]
  }

  lemma StoresBounds(r: Ring, w: seq<int>, published: nat, read: nat, taken: nat)
    requires Stores(r, w, published, read, taken)
    ensures r.Indexed() && read <= taken <= published <= |w| <= read + r.Size()
    ensures r.writeIndex == Place(|w|, r.Size()) && r.readIndex == Place(taken, r.Size())
  {}

  lemma EmptyStores(size: nat, filler: seq<int>)
    requires 0 < size < U32 && |filler| == size
    ensures Stores(Empty(size, filler), [], 0, 0, 0)
  {
    SmallMod(0, size);
    SmallMod(0, U32);
  }

  /** The wrapped totals give the true level, however long the ring has been in use. */
  lemma LevelIsExact(r: Ring, w: seq<int>, published: nat, read: nat, taken: nat)
    requires Stores(r, w, published, read, taken)
    ensures r.Available() == published - read && r.Free() == r.Size() - (published - read)
  {
    var p, q := r.totalWritten, r.totalRead;
    var level := published - read;
    var size := r.Size();
    assert p == published % U32 && q == read % U32 && 0 <= level <= size < U32;
    hide Stores, Place;
    LevelWraps(published, read);
    SmallMod(level, U32);
    SmallMod(size - level, U32);
  }

  lemma LevelWraps(published: nat, read: nat)
    requires read <= published
    ensures (published % U32 - read % U32) % U32 == (published - read) % U32
  {
    DivMod(published, U32);
    DivMod(read, U32);
    var q := read / U32 - published / U32;
    assert published % U32 - read % U32 == q * U32 + (published - read);
    ModShift(published - read, q, U32);
  }

  /** Copying in appends to the stream as long as the room for it has been given back. */
  lemma ChunkInStores(r: Ring, chunk: seq<int>, w: seq<int>, published: nat, read: nat, taken: nat)
    requires Stores(r, w, published, read, taken)
    requires r.writeIndex + |chunk| <= r.Size() && |w| + |chunk| <= read + r.Size()
    ensures Stores(ChunkIn(r, chunk), w + chunk, published, read, taken)
  {
    hide Place, Advanced;
    var n := ChunkIn(r, chunk);
    var size := r.Size();
    PlaceAdvances(|w|, |chunk|, size);
    forall k: nat | read <= k < |w + chunk| ensures n.buf[Place(k, size)] == (w + chunk)[k] {
      if k < |w| {
        if r.writeIndex <= Place(k, size) < r.writeIndex + |chunk| {
          var j: nat := Place(k, size) - r.writeIndex;
          PlaceWithin(|w|, j, size);
          PlacesDiffer(k, |w| + j, size);
        }
        assert n.buf[Place(k, size)] == r.buf[Place(k, size)];
      } else {
        var j: nat := k - |w|;
        PlaceWithin(|w|, j, size);
      }
    }
  }

  lemma PublishStores(r: Ring, n: nat, w: seq<int>, published: nat, read: nat, taken: nat)
    requires Stores(r, w, published, read, taken) && published + n <= |w|
    ensures Stores(Publish(r, n), w, published + n, read, taken)
  {
    TotalAdds(published, n);
  }

  lemma TotalAdds(total: nat, n: nat)
    ensures (total % U32 + n) % U32 == (total + n) % U32
  {
    DivMod(total, U32);
    ModShift(total % U32 + n, total / U32, U32);
  }

  /** What is copied out is the next part of the stream. */
  lemma ChunkOutStores(r: Ring, n: nat, w: seq<int>, published: nat, read: nat, taken: nat)
    requires Stores(r, w, published, read, taken)
    requires r.readIndex + n <= r.Size() && taken + n <= published
    ensures Stores(ChunkOut(r, n), w, published, read, taken + n)
    ensures r.buf[r.readIndex..r.readIndex + n] == w[taken..taken + n]
  {
    hide Place, Advanced;
    var size := r.Size();
    PlaceAdvances(taken, n, size);
    var found, wanted := r.buf[r.readIndex..r.readIndex + n], w[taken..taken + n];
    forall j: nat | j < n ensures found[j] == wanted[j] {
      PlaceWithin(taken, j, size);
    }
  }

  lemma ReleaseStores(r: Ring, n: nat, w: seq<int>, published: nat, read: nat, taken: nat)
    requires Stores(r, w, published, read, taken) && read + n <= taken
    ensures Stores(Release(r, n), w, published, read + n, taken)
  {
    TotalAdds(read, n);
  }

  /** n words are whole frames. */
  predicate Aligned(n: nat, frame: nat) {
    0 < frame && n % frame == 0
  }

  lemma AlignedSum(a: nat, b: nat, frame: nat)
    requires Aligned(a, frame) && Aligned(b, frame)
    ensures Aligned(a + b, frame)
    ensures b <= a ==> Aligned(a - b, frame)
  {
    DivMod(a, frame);
    DivMod(b, frame);
    var p, q := a / frame, b / frame;
    assert a + b == (p + q) * frame && a - b == (p - q) * frame;
    DivModUnique(a + b, frame, p + q, 0);
    DivModUnique(a - b, frame, p - q, 0);
  }

  /** What is left of all after n more words. */
  lemma SuffixMoves(all: seq<int>, rest: seq<int>, n: nat)
    requires |rest| <= |all| && rest == all[|all| - |rest|..] && n <= |rest|
    ensures rest[n..] == all[|all| - (|rest| - n)..]
    ensures all[..|all| - |rest|] + rest[..n] == all[..|all| - (|rest| - n)]
  {}

  lemma FrameMultiple(n: nat, k: nat)
    requires Aligned(n, k)
    ensures Aligned(n + k, k)
  {
    ModShift(n, 1, k);
  }

  /** An index that moves in steps of k around a ring of a multiple of k words never has less
      than k words before the end. */
  lemma FrameFits(taken: nat, k: nat, size: nat)
    requires 0 < size && Aligned(size, k) && Aligned(taken, k)
    ensures Place(taken, size) + k <= size
  {
    var p := Place(taken, size);
    DivMod(taken, size);
    DivMod(size, k);
    DivMod(taken, k);
    var f := taken / k - (taken / size) * (size / k);
    assert (taken / size) * ((size / k) * k) == ((taken / size) * (size / k)) * k;
    assert p == f * k;
    assert f < size / k by {
      if size / k <= f {
        MulMonotone(size / k, f, k);
      }
    }
    MulMonotone(f + 1, size / k, k);
  }
}
