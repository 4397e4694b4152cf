/** Bytes, and words made of four of them. */
module Bytes {
  import opened Basics

  type Byte = x: int | 0 <= x < 256

  function Low(n: int): Byte {
    n % 256
  }

  /** Most significant byte first. */
  function Word(n: nat): (r: seq<Byte>)
    requires n < U32
    ensures |r| == 4
  {
    var p: int := n / 256;
    var q: int := p / 256;
    [Low(q / 256), Low(q), Low(p), Low(n)]
  }

  function Unword(b: seq<Byte>): (n: nat)
    requires |b| == 4
    ensures n < U32
  {
    ((b[0] as int * 256 + b[1] as int) * 256 + b[2] as int) * 256 + b[3] as int
  }

  lemma LowAndRest(n: nat)
    ensures n == n / 256 * 256 + Low(n)
  {}

  lemma WordRoundTrip(n: nat)
    requires n < U32
    ensures Unword(Word(n)) == n
  {
    LowAndRest(n);
    LowAndRest(n / 256);
    LowAndRest(n / 256 / 256);
    hide Low;
  }

  lemma UnwordRoundTrip(b: seq<Byte>)
    requires |b| == 4
    ensures Word(Unword(b)) == b
  {
    var q: int := b[0] as int * 256 + b[1] as int;
    var p: int := q * 256 + b[2] as int;
    var n: int := p * 256 + b[3] as int;
    assert n / 256 == p && n % 256 == b[3];
    assert p / 256 == q && p % 256 == b[2];
    assert q / 256 == b[0] && q % 256 == b[1];
  }

  /** Least significant byte first. */
  function Reversed(b: seq<Byte>): (r: seq<Byte>)
    requires |b| == 4
    ensures |r| == 4
  {
    [b[3], b[2], b[1], b[0]]
  }

  function LittleWord(n: nat): (r: seq<Byte>)
    requires n < U32
    ensures |r| == 4
  {
    Reversed(Word(n))
  }

  function LittleUnword(b: seq<Byte>): (n: nat)
    requires |b| == 4
    ensures n < U32
  {
    Unword(Reversed(b))
  }

  lemma LittleRoundTrip(n: nat)
    requires n < U32
    ensures LittleUnword(LittleWord(n)) == n
  {
    assert Reversed(Reversed(Word(n))) == Word(n);
    WordRoundTrip(n);
  }
}
