/** The flash chip's geometry, what its commands do to memory, and the simple range
    operations the driver has to provide on top of them. */
module FlashSpec {
  import opened Basics
  import opened Arith
  import opened Bits

  type byte = bv8

  const ERASED: byte := 0xFF

  /** The driver sends three address bytes. */
  const ADDRESS_SPACE: nat := 0x100_0000

  const READ_CHUNK_SIZE: nat := 24 * 1024

  /** Sizes the driver learns from the chip: bytes, bytes per page, and the log2 of the four
      erasable sector sizes, zero for an entry that is not available. */
  datatype Geometry = Geometry(size: nat, pageSize: nat, sizeLog2: seq<nat>)
  {
    ghost predicate Valid() {
      && 0 < size <= ADDRESS_SPACE
      && IsPow2(pageSize) && size % pageSize == 0
      && |sizeLog2| == 4 && 0 < sizeLog2[0]
      && (forall i, j | 0 <= i < j < 4 && 0 < sizeLog2[j] :: 0 < sizeLog2[i] <= sizeLog2[j])
      && (forall i | 0 <= i < 4 && 0 < sizeLog2[i] :: size % Pow2(sizeLog2[i]) == 0)
    }

    /** The smallest sector. */
    function Sector(): (s: nat)
      requires |sizeLog2| == 4
      ensures 0 < s
    {
      Pow2(sizeLog2[0])
    }
  }

  // ----- range operations -----

  /** mem with every byte in [lo, hi) erased. */
  function Erased(mem: seq<byte>, lo: int, hi: int): (r: seq<byte>)
    ensures |r| == |mem|
  {
    seq(|mem|, i requires 0 <= i < |mem| => if lo <= i < hi then ERASED else mem[i])
  }

  /** mem with data programmed from address on: flash bits only ever go from one to zero. */
  function Written(mem: seq<byte>, address: nat, data: seq<byte>): (r: seq<byte>)
    ensures |r| == |mem|
  {
    seq(|mem|, i requires 0 <= i < |mem| =>
      if address <= i < address + |data| then mem[i] & data[i - address] else mem[i])
  }

  lemma ErasedJoins(mem: seq<byte>, a: int, b: int, c: int)
    requires a <= b <= c
    ensures Erased(Erased(mem, a, b), b, c) == Erased(mem, a, c)
  {}

  lemma WrittenJoins(mem: seq<byte>, address: nat, left: seq<byte>, right: seq<byte>)
    ensures Written(Written(mem, address, left), address + |left|, right) == Written(mem, address, left + right)
  {}

  lemma WrittenNothing(mem: seq<byte>, address: nat)
    ensures Written(mem, address, []) == mem
  {}

  // ----- what the chip does -----

  /** The sector of 2^log2 bytes that holds address. */
  function SectorStart(address: nat, log2: nat): nat {
    Shl(Shr(address, log2), log2)
  }

  /** Page program: the bytes go to successive places of the page that holds address,
      wrapping round from its end to its beginning. */
  function PageProgrammed(mem: seq<byte>, pageSize: nat, address: nat, data: seq<byte>): (r: seq<byte>)
    requires 0 < pageSize
    ensures |r| == |mem|
  {
    if data == [] then mem else
      var last := |data| - 1;
      var m := PageProgrammed(mem, pageSize, address, data[..last]);
      var at := PagePlace(pageSize, address, last);
      if at < |m| then m[at := m[at] & data[last]] else m
  }

  function PagePlace(pageSize: nat, address: nat, i: nat): nat
    requires 0 < pageSize
  {
    DivMod(address, pageSize);
    DivMod(address % pageSize + i, pageSize);
    (address - address % pageSize) + (address % pageSize + i) % pageSize
  }

  predicate InsidePage(pageSize: nat, address: nat, len: nat)
    requires 0 < pageSize
  {
    address % pageSize + len <= pageSize
  }

  lemma PlaceInsidePage(pageSize: nat, address: nat, i: nat)
    requires 0 < pageSize && InsidePage(pageSize, address, i + 1)
    ensures PagePlace(pageSize, address, i) == address + i
    ensures InsidePage(pageSize, address, i)
  {
    SmallMod(address % pageSize + i, pageSize);
  }

  /** As long as it stays inside its page, page program is a plain write. */
  lemma {:induction false} ProgramInsidePage(mem: seq<byte>, pageSize: nat, address: nat, data: seq<byte>)
    requires 0 < pageSize && InsidePage(pageSize, address, |data|)
    ensures PageProgrammed(mem, pageSize, address, data) == Written(mem, address, data)
  {
    hide InsidePage, PagePlace;
    if data == [] {
      WrittenNothing(mem, address);
    } else {
      var last := |data| - 1;
      PlaceInsidePage(pageSize, address, last);
      ProgramInsidePage(mem, pageSize, address, data[..last]);
      WrittenJoins(mem, address, data[..last], [data[last]]);
      assert data[..last] + [data[last]] == data;
    }
  }

  // ----- erase, write, read back -----

  /** Writing over an erased range and reading it back gives the data. */
  lemma EraseWriteReadBack(mem: seq<byte>, lo: nat, hi: nat, address: nat, data: seq<byte>)
    requires lo <= address && address + |data| <= hi && address + |data| <= |mem|
    ensures Written(Erased(mem, lo, hi), address, data)[address..address + |data|] == data
  {
    forall i | 0 <= i < |data| ensures Written(Erased(mem, lo, hi), address, data)[address + i] == data[i] {
      ErasedKeepsData(data[i]);
    }
  }

  lemma ErasedKeepsData(b: byte)
    ensures ERASED & b == b
  {}
}
