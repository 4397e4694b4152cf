/** The flash chip behind its command interface: a write needs the write-enable latch, takes
    a while during which the chip ignores everything but status polls, and clears the latch. */
module QspiFlash {
  import opened Arith
  import opened Bits
  import opened FlashSpec
  import opened ErasePlan

  class Chip {
    const g: Geometry
    var mem: seq<byte>
    var writeEnabled: bool
    // How many more status polls will find the last write still in progress.
    var pollsLeft: nat
    // Every sector erase and page program the chip has carried out.
    ghost var erases: seq<Block>
    ghost var programs: seq<(nat, nat)>

    constructor (geometry: Geometry, contents: seq<byte>)
      requires geometry.Valid() && |contents| == geometry.size
      ensures Idle() && mem == contents && g == geometry
    {
      g, mem, writeEnabled, pollsLeft := geometry, contents, false, 0;
      erases, programs := [], [];
    }

    ghost predicate Valid()
      reads this
    {
      g.Valid() && |mem| == g.size
    }

    ghost predicate Idle()
      reads this
    {
      Valid() && pollsLeft == 0
    }

    /** What the chip does with a write-enable command. */
    method WriteEnableCommand()
      modifies this`writeEnabled
      ensures writeEnabled == (old(writeEnabled) || pollsLeft == 0)
    {
      if pollsLeft == 0 {
        writeEnabled := true;
      }
    }

    /** A read of the status register: the write-enable latch. It takes as long as a poll. */
    method ReadLatch() returns (latched: bool)
      modifies this`pollsLeft
      ensures latched == writeEnabled
      ensures pollsLeft == if 0 < old(pollsLeft) then old(pollsLeft) - 1 else 0
    {
      latched := writeEnabled;
      if 0 < pollsLeft {
        pollsLeft := pollsLeft - 1;
      }
    }

    /** qspi_flash_write_enable: the command is repeated until the latch reads back set. It always
        is in the end, and if it was clear, the chip has finished its last write by then. */
    method WriteEnable()
      modifies this`writeEnabled, this`pollsLeft
      ensures writeEnabled
      ensures pollsLeft <= old(pollsLeft) && (!old(writeEnabled) ==> pollsLeft == 0)
    {
      var latched := false;
      while !latched
        invariant pollsLeft <= old(pollsLeft)
        invariant latched ==> writeEnabled
        invariant !old(writeEnabled) && writeEnabled ==> pollsLeft == 0
        decreases !latched, pollsLeft
      {
        WriteEnableCommand();
        latched := ReadLatch();
      }
    }

    /** qspi_flash_write_in_progress */
    method WriteInProgress() returns (busy: bool)
      modifies this`pollsLeft
      ensures busy == (0 < old(pollsLeft))
      ensures pollsLeft == if busy then old(pollsLeft) - 1 else 0
    {
      busy := 0 < pollsLeft;
      if busy {
        pollsLeft := pollsLeft - 1;
      }
    }

    /** qspi_flash_erase with one of the four sector sizes: any address in the sector will do. */
    method Erase(address: nat, eraseType: nat)
      requires Valid() && eraseType < 4
      modifies this
      ensures Valid()
      ensures var log2 := g.sizeLog2[eraseType];
              var start := SectorStart(address % ADDRESS_SPACE, log2);
              if old(writeEnabled) && old(pollsLeft) == 0 && 0 < log2
              then mem == Erased(old(mem), start, start + Pow2(log2)) && !writeEnabled
                   && erases == old(erases) + [Block(start, log2)] && programs == old(programs)
              else mem == old(mem) && writeEnabled == old(writeEnabled) && pollsLeft == old(pollsLeft)
                   && erases == old(erases) && programs == old(programs)
    {
      var log2 := g.sizeLog2[eraseType];
      if log2 == 0 {
        return;
      }
      if writeEnabled && pollsLeft == 0 {
        var start := SectorStart(address % ADDRESS_SPACE, log2);
        mem := Erased(mem, start, start + Pow2(log2));
        writeEnabled := false;
        pollsLeft := *;
        erases := erases + [Block(start, log2)];
      }
    }

    /** qspi_flash_erase of the whole chip. */
    method EraseChip()
      requires Valid()
      modifies this
      ensures Valid() && erases == old(erases) && programs == old(programs)
      ensures if old(writeEnabled) && old(pollsLeft) == 0
              then mem == Erased(old(mem), 0, g.size) && !writeEnabled
              else mem == old(mem) && writeEnabled == old(writeEnabled) && pollsLeft == old(pollsLeft)
    {
      if writeEnabled && pollsLeft == 0 {
        mem := Erased(mem, 0, g.size);
        writeEnabled := false;
        pollsLeft := *;
      }
    }

    /** qspi_flash_write: one page program command. */
    method Program(data: seq<byte>, address: nat)
      requires Valid() && 0 < g.pageSize
      modifies this
      ensures Valid() && erases == old(erases)
      ensures if old(writeEnabled) && old(pollsLeft) == 0
              then mem == PageProgrammed(old(mem), g.pageSize, address % ADDRESS_SPACE, data) && !writeEnabled
                   && programs == old(programs) + [(address, |data|)]
              else mem == old(mem) && writeEnabled == old(writeEnabled) && pollsLeft == old(pollsLeft)
                   && programs == old(programs)
    {
      if writeEnabled && pollsLeft == 0 {
        mem := PageProgrammed(mem, g.pageSize, address % ADDRESS_SPACE, data);
        writeEnabled := false;
        pollsLeft := *;
        programs := programs + [(address, |data|)];
      }
    }

    /** qspi_flash_read: a stretch of memory, as long as no write is in progress. */
    method Read(address: nat, len: nat) returns (data: seq<byte>)
      requires Idle() && address + len <= g.size
      ensures data == mem[address..address + len]
    {
      data := mem[address..address + len];
    }
  }
}
