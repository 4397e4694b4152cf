/** read_op, write_op and erase_op: simple range operations out of chip commands. */
module FlashDriver {
  import opened Basics
  import opened Memory
  import opened Arith
  import opened Bits
  import opened FlashSpec
  import opened ErasePlan
  import opened QspiFlash

  // ----- erase -----

  /** The request rounded down to the smallest sector. */
  function EraseStart(g: Geometry, address: nat): nat
    requires |g.sizeLog2| == 4
  {
    SectorStart(address, g.sizeLog2[0])
  }

  lemma EraseStartBounds(g: Geometry, address: nat)
    requires |g.sizeLog2| == 4
    ensures EraseStart(g, address) <= address < EraseStart(g, address) + g.Sector()
    ensures OnSector(g, EraseStart(g, address))
    ensures EraseStart(g, address) == address <==> OnSector(g, address)
  {
    ShiftRoundsDown(address, g.sizeLog2[0]);
    DivMod(address, g.Sector());
    MultipleHasNoRemainder(address / g.Sector(), g.Sector());
  }

  /** The number of bytes to erase from there, in 32-bit arithmetic. */
  function EraseLeft(g: Geometry, address: nat, len: nat): nat
    requires |g.sizeLog2| == 4
  {
    EraseStartBounds(g, address);
    if EraseStart(g, address) == address then len
    else (len + (address - EraseStart(g, address))) % U32
  }

  predicate WholeChip(g: Geometry, address: nat, len: nat) {
    address == 0 && g.size <= len
  }

  function EraseCommands(g: Geometry, address: nat, len: nat): seq<Block>
    requires |g.sizeLog2| == 4
  {
    if WholeChip(g, address, len) then [] else Plan(g, EraseStart(g, address), EraseLeft(g, address, len))
  }

  function EraseEffect(mem: seq<byte>, g: Geometry, address: nat, len: nat): (r: seq<byte>)
    requires |g.sizeLog2| == 4
    ensures |r| == |mem|
  {
    if WholeChip(g, address, len) then Erased(mem, 0, g.size) else Apply(mem, EraseCommands(g, address, len))
  }

  method WhileBusy(chip: Chip)
    requires chip.Valid()
    modifies chip`pollsLeft
    ensures chip.Idle()
  {
    var busy := true;
    while busy
      invariant chip.Valid() && (!busy ==> chip.pollsLeft == 0)
      decreases chip.pollsLeft, busy
    {
      busy := chip.WriteInProgress();
    }
  }

  /** The search for the largest sector size that is aligned here and not too long. */
  method ChooseErase(g: Geometry, address: nat, left: nat) returns (cmd: nat)
    requires |g.sizeLog2| == 4
    ensures cmd == Choose(g, address, left, 3) < 4
    ensures cmd == 0 || Eligible(g, address, left, cmd)
    ensures forall i | cmd < i < 4 :: !Eligible(g, address, left, i)
  {
    cmd := 0;
    var i := 3;
    while 0 < i
      invariant 0 <= i < 4 && cmd == 0
      invariant forall j | i < j < 4 :: !Eligible(g, address, left, j)
      invariant Choose(g, address, left, 3) == Choose(g, address, left, i)
    {
      var sizeLog2 := g.sizeLog2[i];
      if sizeLog2 != 0 && Shl(Shr(address, sizeLog2), sizeLog2) == address {
        if left >= Pow2(sizeLog2) {
          cmd := i;
          break;
        }
      }
      i := i - 1;
    }
  }

  /** erase_op carries out exactly the planned commands. */
  method EraseOp(chip: Chip, address: nat, len: nat)
    requires chip.Idle() && address < U32 && len < U32
    modifies chip
    ensures chip.Idle() && chip.programs == old(chip.programs)
    ensures chip.erases == old(chip.erases) + EraseCommands(chip.g, address, len)
    ensures chip.mem == EraseEffect(old(chip.mem), chip.g, address, len)
  {
    hide Shl, Shr, OnSector, Pow2;
    var g := chip.g;
    var left, at := len, address;
    if at == 0 && left >= g.size {
      chip.WriteEnable();
      chip.EraseChip();
      WhileBusy(chip);
    } else {
      EraseStartBounds(g, address);
      if Shl(Shr(at, g.sizeLog2[0]), g.sizeLog2[0]) != at {
        var sectorAddress := Shr(at, g.sizeLog2[0]);
        left := (left + (at - Shl(sectorAddress, g.sizeLog2[0]))) % U32;
        at := Shl(sectorAddress, g.sizeLog2[0]);
      }
      EraseSectors(chip, at, left);
    }
  }

  /** One enabled, completed sector erase. */
  method EraseOne(chip: Chip, address: nat, cmd: nat, ghost b: Block)
    requires chip.Idle() && cmd < 4
    requires b == Block(address, chip.g.sizeLog2[cmd]) && 0 < b.log2
    requires address % ADDRESS_SPACE == address && SectorStart(address, b.log2) == address
    modifies chip
    ensures chip.Idle() && chip.programs == old(chip.programs)
    ensures chip.erases == old(chip.erases) + [b]
    ensures chip.mem == Erased(old(chip.mem), b.start, b.End())
  {
    hide SectorStart, Pow2;
    chip.WriteEnable();
    chip.Erase(address, cmd);
    WhileBusy(chip);
  }

  /** The loop of erase_op. */
  method EraseSectors(chip: Chip, start: nat, bytes: nat)
    requires chip.Idle() && OnSector(chip.g, start)
    modifies chip
    ensures chip.Idle() && chip.programs == old(chip.programs)
    ensures chip.erases == old(chip.erases) + Plan(chip.g, start, bytes)
    ensures chip.mem == Apply(old(chip.mem), Plan(chip.g, start, bytes))
  {
    hide OnSector, Choose, Apply, Erased, Pow2, Shl, Shr, Plan, Eligible;
    ApplyNothing(chip.mem);
    var g := chip.g;
    var at: nat, left: nat := start, bytes;
    ghost var done, whole := [], Plan(g, start, bytes);
    while left > 0
      invariant chip.Idle() && chip.programs == old(chip.programs)
      invariant OnSector(g, at)
      invariant whole == done + Plan(g, at, left)
      invariant chip.erases == old(chip.erases) + done
      invariant chip.mem == Apply(old(chip.mem), done)
    {
      if at >= g.size {
        break;
      }
      var cmd := ChooseErase(g, at, left);
      var lengthLog2 := g.sizeLog2[cmd];
      var length := Pow2(lengthLog2);
      ghost var b := Block(at, lengthLog2);
      NextErase(g, at, left, b);
      assert at == Shl(Shr(at, lengthLog2), lengthLog2);
      EraseOne(chip, at, cmd, b);
      ApplyAppends(old(chip.mem), done, b);
      done := done + [b];
      at := at + length;
      left := left - (if length < left then length else left);
    }
    NothingPlanned(g, at, left);
    assert whole == done;
  }

  lemma NothingPlanned(g: Geometry, at: nat, left: nat)
    requires |g.sizeLog2| == 4 && (left == 0 || g.size <= at)
    ensures Plan(g, at, left) == []
  {}

  lemma ApplyNothing(mem: seq<byte>)
    ensures Apply(mem, []) == mem
  {}

  lemma NextErase(g: Geometry, at: nat, left: nat, b: Block)
    requires g.Valid() && OnSector(g, at) && at < g.size && 0 < left
    requires b == Block(at, ChosenLog2(g, at, left))
    ensures 0 < b.log2 && at % ADDRESS_SPACE == at && SectorStart(at, b.log2) == at
    ensures OnSector(g, b.End())
    ensures Plan(g, at, left) == [b] + Plan(g, b.End(), LeftAfter(left, Pow2(b.log2)))
  {
    FirstBlock(g, at, left, b);
    PlanUnfolds(g, at, left);
    ShiftRoundsDown(at, b.log2);
    SmallMod(at, ADDRESS_SPACE);
  }

  /** mem with the range rounded out to smallest-sector boundaries erased. */
  function RoundedErase(mem: seq<byte>, g: Geometry, address: nat, len: nat): seq<byte>
    requires |g.sizeLog2| == 4
  {
    Erased(mem, EraseStart(g, address), AlignUp(address + len, g.Sector()))
  }

  /** What a request should do: erase the sectors that the range touches, and none if it is empty. */
  function EraseHull(mem: seq<byte>, g: Geometry, address: nat, len: nat): seq<byte>
    requires |g.sizeLog2| == 4
  {
    if len == 0 then mem else RoundedErase(mem, g, address, len)
  }

  /** bytes_left_to_erase does not overflow when the start is rounded down. */
  predicate NoOverflow(g: Geometry, address: nat, len: nat)
    requires |g.sizeLog2| == 4
  {
    len + (address - EraseStart(g, address)) < U32
  }

  /** The rounded range inside the flash is erased, and nothing else, even for an empty request. */
  lemma EraseIsRounded(g: Geometry, mem: seq<byte>, address: nat, len: nat)
    requires g.Valid() && |mem| == g.size && NoOverflow(g, address, len)
    ensures EraseEffect(mem, g, address, len) == RoundedErase(mem, g, address, len)
  {
    EraseStartBounds(g, address);
    AlignUpBounds(address + len, g.Sector());
    hide Pow2, AlignUp;
    if WholeChip(g, address, len) {
      assert EraseStart(g, address) == 0;
    } else {
      SmallMod(len + (address - EraseStart(g, address)), U32);
      PlanErases(g, mem, EraseStart(g, address), EraseLeft(g, address, len));
    }
  }

  /** The requests for which the driver does just that. An empty one has to be aligned, or past the
      flash; for others an overflowing length is harmless only past the flash or in its last sector. */
  predicate ExactRequest(g: Geometry, address: nat, len: nat)
    requires |g.sizeLog2| == 4
  {
    || g.size <= EraseStart(g, address)
    || (len == 0 && EraseStart(g, address) == address)
    || (0 < len && NoOverflow(g, address, len))
    || (0 < len && 0 < EraseLeft(g, address, len) && g.size <= EraseStart(g, address) + g.Sector())
  }

  ghost predicate AlwaysErasesHull(g: Geometry, address: nat, len: nat)
    requires |g.sizeLog2| == 4
  {
    forall mem: seq<byte> | |mem| == g.size :: EraseEffect(mem, g, address, len) == EraseHull(mem, g, address, len)
  }

  /** After an overflow at most one sector is erased, though the range runs past the flash. */
  lemma OverflowedErase(g: Geometry, mem: seq<byte>, address: nat, len: nat)
    requires g.Valid() && |mem| == g.size && address < U32 && len < U32 && !NoOverflow(g, address, len)
    ensures var start := EraseStart(g, address);
            && EraseHull(mem, g, address, len) == Erased(mem, start, g.size)
            && EraseEffect(mem, g, address, len) ==
               Erased(mem, start, if EraseLeft(g, address, len) == 0 then start else start + g.Sector())
  {
    var start, left := EraseStart(g, address), EraseLeft(g, address, len);
    EraseStartBounds(g, address);
    AlignUpBounds(address + len, g.Sector());
    assert !WholeChip(g, address, len);
    ModShift(len + (address - start) - U32, 1, U32);
    SmallMod(len + (address - start) - U32, U32);
    assert left < g.Sector();
    PlanErases(g, mem, start, left);
    assert AlignUp(start + left, g.Sector()) == if left == 0 then start else start + g.Sector() by {
      if left == 0 {
        OnSectorAlignUp(g, start);
      } else {
        SumIsMultiple(start, g.Sector(), g.Sector());
        AlignUpIs(start + left, g.Sector(), start + g.Sector());
      }
    }
  }

  /** An empty request erases the sector around an unaligned address. */
  lemma EmptyErase(g: Geometry, mem: seq<byte>, address: nat)
    requires g.Valid() && |mem| == g.size && address < U32
    ensures var start := EraseStart(g, address);
      EraseEffect(mem, g, address, 0) == Erased(mem, start, if start == address then start else start + g.Sector())
  {
    hide EraseEffect;
    EraseStartBounds(g, address);
    EraseIsRounded(g, mem, address, 0);
    AlignUpBounds(address, g.Sector());
    var start := EraseStart(g, address);
    if start == address {
      OnSectorAlignUp(g, start);
    } else {
      SumIsMultiple(start, g.Sector(), g.Sector());
      AlignUpIs(address, g.Sector(), start + g.Sector());
    }
  }

  lemma EmptyEraseIsExactIff(g: Geometry, address: nat)
    requires g.Valid() && address < U32
    ensures AlwaysErasesHull(g, address, 0) <==> ExactRequest(g, address, 0)
  {
    hide EraseEffect, EraseStart, EraseLeft;
    var start := EraseStart(g, address);
    var zeros: seq<byte> := seq(g.size, _ => 0);
    EmptyErase(g, zeros, address);
    if start != address && start < g.size {
      assert EraseEffect(zeros, g, address, 0)[start] == ERASED && EraseHull(zeros, g, address, 0)[start] == 0;
    } else {
      forall mem: seq<byte> | |mem| == g.size
        ensures EraseEffect(mem, g, address, 0) == EraseHull(mem, g, address, 0)
      {
        EmptyErase(g, mem, address);
      }
    }
  }

  /** Whatever the flash holds, exactly the sectors that the range touches are erased, if and only
      if the request is exact. */
  lemma EraseIsExactIff(g: Geometry, address: nat, len: nat)
    requires g.Valid() && address < U32 && len < U32
    ensures AlwaysErasesHull(g, address, len) <==> ExactRequest(g, address, len)
  {
    hide EraseEffect, RoundedErase, EraseStart, EraseLeft;
    if len == 0 {
      EmptyEraseIsExactIff(g, address);
    } else if NoOverflow(g, address, len) {
      forall mem: seq<byte> | |mem| == g.size
        ensures EraseEffect(mem, g, address, len) == EraseHull(mem, g, address, len)
      {
        EraseIsRounded(g, mem, address, len);
      }
    } else {
      OverflowIsExactIff(g, address, len);
    }
  }

  lemma OverflowIsExactIff(g: Geometry, address: nat, len: nat)
    requires g.Valid() && address < U32 && 0 < len < U32 && !NoOverflow(g, address, len)
    ensures AlwaysErasesHull(g, address, len) <==> ExactRequest(g, address, len)
  {
    hide EraseEffect, EraseHull, EraseStart, EraseLeft, NoOverflow;
    var start, left := EraseStart(g, address), EraseLeft(g, address, len);
    var zeros: seq<byte> := seq(g.size, _ => 0);
    OverflowedErase(g, zeros, address, len);
    var stop := if left == 0 then start else start + g.Sector();
    assert stop < g.size ==> Erased(zeros, start, stop)[stop] != Erased(zeros, start, g.size)[stop];
    if g.size <= stop {
      forall mem: seq<byte> | |mem| == g.size
        ensures EraseEffect(mem, g, address, len) == EraseHull(mem, g, address, len)
      {
        OverflowedErase(g, mem, address, len);
        assert Erased(mem, start, stop) == Erased(mem, start, g.size);
      }
    }
  }

  /** A request that overflows: from an odd address, the largest length erases nothing. */
  lemma OverflowExample()
    ensures var g := Geometry(0x10_0000, 256, [12, 16, 0, 0]);
            EraseStart(g, 1) == 0 && EraseLeft(g, 1, U32 - 1) == 0 && EraseCommands(g, 1, U32 - 1) == []
  {
    assert Pow2(12) == 4096 by {
      assert Pow2(6) == 64;
    }
  }

  // ----- write -----

  /** The pieces write_op cuts a write into: address and length of each page program. */
  function PageChunks(g: Geometry, address: nat, left: nat): seq<(nat, nat)>
    requires 0 < g.pageSize
    decreases left
  {
    if left == 0 || g.size <= address then [] else
      var n := ChunkLength(g, address, left);
      [(address, n)] + PageChunks(g, address + n, left - n)
  }

  /** What is left of the page that holds address, or of the data. */
  function ChunkLength(g: Geometry, address: nat, left: nat): (n: nat)
    requires 0 < g.pageSize && 0 < left
    ensures 0 < n <= left
  {
    DivMod(address, g.pageSize);
    var max := g.pageSize - address % g.pageSize;
    if left <= max then left else max
  }

  /** Each piece is non-empty and stays inside its page and inside the flash. */
  lemma {:induction false} ChunksInsidePages(g: Geometry, address: nat, left: nat)
    requires g.Valid() && 0 < g.pageSize
    ensures forall c | c in PageChunks(g, address, left) ::
              0 < c.1 && InsidePage(g.pageSize, c.0, c.1) && address <= c.0 && c.0 + c.1 <= g.size
    decreases left
  {
    hide ChunkLength, InsidePage;
    if left != 0 && address < g.size {
      ChunkFits(g, address, left);
      ChunksInsidePages(g, address + ChunkLength(g, address, left), left - ChunkLength(g, address, left));
    }
  }

  lemma ChunkFits(g: Geometry, address: nat, left: nat)
    requires g.Valid() && 0 < g.pageSize && 0 < left && address < g.size
    ensures InsidePage(g.pageSize, address, ChunkLength(g, address, left))
    ensures address + ChunkLength(g, address, left) <= g.size
  {
    DivMod(address, g.pageSize);
    var pageEnd := address - address % g.pageSize + g.pageSize;
    assert pageEnd == (address / g.pageSize + 1) * g.pageSize;
    MultipleHasNoRemainder(address / g.pageSize + 1, g.pageSize);
    if g.size < pageEnd {
      Gap(g.size, pageEnd, g.pageSize);
    }
  }

  /** Successive pieces follow on from each other and make up the whole range inside the flash. */
  lemma {:induction false} ChunksContiguous(g: Geometry, address: nat, left: nat)
    requires g.Valid() && 0 < g.pageSize
    ensures var cs := PageChunks(g, address, left);
            && (cs != [] ==> cs[0].0 == address)
            && (forall i | 0 < i < |cs| :: cs[i].0 == cs[i - 1].0 + cs[i - 1].1)
            && (cs != [] ==> var last := cs[|cs| - 1];
                             last.0 + last.1 == if address + left <= g.size then address + left else g.size)
            && (cs == [] ==> left == 0 || g.size <= address)
    decreases left
  {
    hide ChunkLength;
    if left != 0 && address < g.size {
      var n := ChunkLength(g, address, left);
      ChunkFits(g, address, left);
      ChunksContiguous(g, address + n, left - n);
      var rest := PageChunks(g, address + n, left - n);
      assert PageChunks(g, address, left) == [(address, n)] + rest;
      assert rest == [] ==> left == n || g.size == address + n;
    }
  }

  /** One enabled, completed page program. */
  method ProgramOne(chip: Chip, chunk: seq<byte>, address: nat)
    requires chip.Idle() && 0 < chip.g.pageSize && address % ADDRESS_SPACE == address
    modifies chip
    ensures chip.Idle() && chip.erases == old(chip.erases)
    ensures chip.programs == old(chip.programs) + [(address, |chunk|)]
    ensures chip.mem == PageProgrammed(old(chip.mem), chip.g.pageSize, address, chunk)
  {
    hide PageProgrammed;
    chip.WriteEnable();
    chip.Program(chunk, address);
    WhileBusy(chip);
  }

  /** write_op is one plain write of the data, cut off at the end of the flash. */
  method WriteOp(chip: Chip, data: seq<byte>, address: nat)
    requires chip.Idle() && 0 < chip.g.pageSize && address < U32
    modifies chip
    ensures chip.Idle() && chip.erases == old(chip.erases)
    ensures chip.programs == old(chip.programs) + PageChunks(chip.g, address, |data|)
    ensures chip.mem == Written(old(chip.mem), address, data)
  {
    hide PageChunks, Written, ChunkLength, InsidePage, PageProgrammed, And;
    var g := chip.g;
    var left: nat, at: nat, written: nat := |data|, address, 0;
    ghost var done: seq<(nat, nat)>, whole := [], PageChunks(g, address, |data|);
    WrittenNothing(chip.mem, address);
    assert data[..0] == [];
    while left > 0
      invariant chip.Idle() && chip.erases == old(chip.erases)
      invariant 0 <= written <= |data| && left == |data| - written && at == address + written
      invariant whole == done + PageChunks(g, at, left)
      invariant chip.programs == old(chip.programs) + done
      invariant chip.mem == Written(old(chip.mem), address, data[..written])
    {
      MaskPage(g, at);
      var max := g.pageSize - And(at, g.pageSize - 1);
      var n := if left <= max then left else max;
      if at >= g.size {
        break;
      }
      ChunkIs(g, at, left, n);
      ChunkFits(g, at, left);
      var chunk := data[written..written + n];
      ProgramInsidePage(chip.mem, g.pageSize, at, chunk);
      SmallMod(at, ADDRESS_SPACE);
      ProgramOne(chip, chunk, at);
      WrittenJoins(old(chip.mem), address, data[..written], chunk);
      assert data[..written] + chunk == data[..written + n];
      done := done + [(at, n)];
      left := left - n;
      written := written + n;
      at := at + n;
    }
    NoChunks(g, at, left);
    assert whole == done;
    RestIsPastEnd(old(chip.mem), address, data, written);
  }

  lemma MaskPage(g: Geometry, at: nat)
    requires g.Valid() && 0 < g.pageSize
    ensures And(at, g.pageSize - 1) == at % g.pageSize < g.pageSize
  {
    var k: nat :| g.pageSize == Pow2(k);
    MaskIsRemainder(at, k);
  }

  lemma ChunkIs(g: Geometry, at: nat, left: nat, n: nat)
    requires 0 < g.pageSize && 0 < left && at < g.size
    requires n == if left <= g.pageSize - at % g.pageSize then left else g.pageSize - at % g.pageSize
    ensures n == ChunkLength(g, at, left)
    ensures PageChunks(g, at, left) == [(at, n)] + PageChunks(g, at + n, left - n)
  {}

  lemma NoChunks(g: Geometry, at: nat, left: nat)
    requires 0 < g.pageSize && (left == 0 || g.size <= at)
    ensures PageChunks(g, at, left) == []
  {}

  lemma RestIsPastEnd(mem: seq<byte>, address: nat, data: seq<byte>, written: nat)
    requires written <= |data| && (written == |data| || |mem| <= address + written)
    ensures Written(mem, address, data[..written]) == Written(mem, address, data)
  {}

  // ----- read -----

  /** The caller's buffer after len bytes of memory have been copied to it. */
  ghost predicate Filled(before: seq<byte>, now: seq<byte>, at: nat, mem: seq<byte>, address: nat, len: nat) {
    && at + len <= |before| == |now| && address + len <= |mem|
    && now[..at] == before[..at]
    && now[at..at + len] == mem[address..address + len]
    && now[at + len..] == before[at + len..]
  }

  lemma FilledJoins(a: seq<byte>, b: seq<byte>, c: seq<byte>, at: nat, mem: seq<byte>, address: nat, n: nat, m: nat)
    requires Filled(a, b, at, mem, address, n) && Filled(b, c, at + n, mem, address + n, m)
    ensures Filled(a, c, at, mem, address, n + m)
  {
    assert c[..at] == c[..at + n][..at] == b[..at + n][..at] == b[..at];
    var copied, wanted := c[at..at + (n + m)], mem[address..address + (n + m)];
    forall i | 0 <= i < n + m ensures copied[i] == wanted[i] {
      if i < n {
        assert copied[i] == c[..at + n][at + i] == b[at + i] == b[at..at + n][i] == mem[address..address + n][i];
      } else {
        assert copied[i] == c[at + n..at + n + m][i - n] == mem[address + n..address + n + m][i - n];
      }
    }
    assert c[at + (n + m)..] == b[at + n..][m..] == a[at + n..][m..];
  }

  /** One round of read_op's loop. Inside the flash neither cap of the source applies, as the
      second clause says against the round for any address. */
  method ReadChunk(chip: Chip, buf: array<byte>, pos: nat, address: nat, left: nat) returns (readLen: nat)
    requires chip.Idle() && 0 < left && address + left <= chip.g.size && pos + left <= buf.Length
    modifies buf
    ensures 0 < readLen <= left
    ensures ReadRound(chip.g, ReadCursor(address, left)) == ReadCursor(address + readLen, left - readLen)
    ensures Filled(old(buf[..]), buf[..], pos, chip.mem, address, readLen)
  {
    hide Filled;
    ghost var before := buf[..];
    readLen := if left < READ_CHUNK_SIZE then left else READ_CHUNK_SIZE;
    SmallMod(address + readLen, U32);
    var data := chip.Read(address, readLen);
    Copy(buf, pos, data);
    CopyFills(before, buf[..], pos, chip.mem, address, readLen);
  }

  /** read_op for a range inside the flash. */
  method ReadOp(chip: Chip, buf: array<byte>, pos: nat, address: nat, len: nat)
    requires chip.Idle() && address + len <= chip.g.size && pos + len <= buf.Length
    modifies buf
    ensures Filled(old(buf[..]), buf[..], pos, chip.mem, address, len)
  {
    hide Filled;
    ghost var before, mem := buf[..], chip.mem;
    var left, at, out := len, address, pos;
    ghost var got := 0;
    FilledNothing(before, pos, mem, address);
    while left > 0
      invariant left + got == len && 0 <= got && 0 <= left && at == address + got && out == pos + got
      invariant Filled(before, buf[..], pos, mem, address, got)
    {
      ghost var mid := buf[..];
      var readLen := ReadChunk(chip, buf, out, at, left);
      FilledJoins(before, mid, buf[..], pos, mem, address, got, readLen);
      got := got + readLen;
      left := left - readLen;
      out := out + readLen;
      at := at + readLen;
    }
  }

  lemma FilledNothing(before: seq<byte>, at: nat, mem: seq<byte>, address: nat)
    requires at <= |before| && address <= |mem|
    ensures Filled(before, before, at, mem, address, 0)
  {}

  lemma CopyFills(before: seq<byte>, now: seq<byte>, at: nat, mem: seq<byte>, address: nat, len: nat)
    requires at + len <= |before| && address + len <= |mem|
    requires now == before[..at] + mem[address..address + len] + before[at + len..]
    ensures Filled(before, now, at, mem, address, len)
  {}

  // ----- reading past the end -----

  /** Flashes that leave room for a chunk in 32 bits; the size that the driver's init accepts is
      2^31 bytes at most. */
  const MAX_READ_SIZE: nat := U32 - READ_CHUNK_SIZE - 1

  /** The cursors of read_op's loop. */
  datatype ReadCursor = ReadCursor(address: nat, left: nat)

  /** One round of the loop, for any address: the length read is cut off at the end of the flash. */
  function ReadRound(g: Geometry, c: ReadCursor): ReadCursor {
    var readLen := if c.left < READ_CHUNK_SIZE then c.left else READ_CHUNK_SIZE;
    var at := if c.address >= g.size then g.size else c.address;
    var cut := if (at + readLen) % U32 > g.size && at <= g.size then g.size - at else readLen;
    ReadCursor(at + cut, if cut <= c.left then c.left - cut else 0)
  }

  function ReadRounds(g: Geometry, c: ReadCursor, n: nat): ReadCursor
    decreases n
  {
    if n == 0 || c.left == 0 then c else ReadRounds(g, ReadRound(g, c), n - 1)
  }

  ghost predicate Terminates(g: Geometry, c: ReadCursor) {
    exists n: nat :: ReadRounds(g, c, n).left == 0
  }

  predicate InFlash(g: Geometry, c: ReadCursor) {
    c.left == 0 || c.address + c.left <= g.size
  }

  lemma ReadRoundKeepsRange(g: Geometry, c: ReadCursor)
    requires 0 < g.size <= MAX_READ_SIZE && 0 < c.left
    ensures InFlash(g, ReadRound(g, c)) <==> InFlash(g, c)
    ensures InFlash(g, c) ==> ReadRound(g, c).left < c.left
  {
    var readLen := if c.left < READ_CHUNK_SIZE then c.left else READ_CHUNK_SIZE;
    var at := if c.address >= g.size then g.size else c.address;
    SmallMod(at + readLen, U32);
  }

  lemma {:induction false} NeverInFlash(g: Geometry, c: ReadCursor, n: nat)
    requires 0 < g.size <= MAX_READ_SIZE && !InFlash(g, c)
    ensures ReadRounds(g, c, n).left != 0
    decreases n
  {
    hide ReadRound;
    if n != 0 {
      ReadRoundKeepsRange(g, c);
      NeverInFlash(g, ReadRound(g, c), n - 1);
    }
  }

  lemma {:induction false} InFlashTerminates(g: Geometry, c: ReadCursor)
    requires 0 < g.size <= MAX_READ_SIZE && InFlash(g, c)
    ensures Terminates(g, c)
    decreases c.left
  {
    hide ReadRound;
    if c.left == 0 {
      assert ReadRounds(g, c, 0).left == 0;
    } else {
      ReadRoundKeepsRange(g, c);
      InFlashTerminates(g, ReadRound(g, c));
      var n: nat :| ReadRounds(g, ReadRound(g, c), n).left == 0;
      assert ReadRounds(g, c, n + 1).left == 0;
    }
  }

  /** The read loop comes to an end exactly for empty ranges and ranges inside the flash. */
  lemma ReadTerminatesIff(g: Geometry, c: ReadCursor)
    requires 0 < g.size <= MAX_READ_SIZE
    ensures Terminates(g, c) <==> InFlash(g, c)
  {
    hide ReadRound;
    if InFlash(g, c) {
      InFlashTerminates(g, c);
    } else {
      forall n: nat ensures ReadRounds(g, c, n).left != 0 {
        NeverInFlash(g, c, n);
      }
    }
  }

  /** One byte past the end is enough. */
  lemma ReadPastEndExample()
    ensures !Terminates(Geometry(0x10_0000, 256, [12, 16, 0, 0]), ReadCursor(0x10_0000, 1))
  {
    ReadTerminatesIff(Geometry(0x10_0000, 256, [12, 16, 0, 0]), ReadCursor(0x10_0000, 1));
  }

  // ----- the remote read loop -----

  /** qspi_flash_remote_read: one remote call per chunk, at least one. */
  method RemoteRead(chip: Chip, buf: array<byte>, address: nat, len: nat)
    requires chip.Idle() && address + len <= chip.g.size && len <= buf.Length
    modifies buf
    ensures Filled(old(buf[..]), buf[..], 0, chip.mem, address, len)
  {
    hide Filled;
    ghost var before := buf[..];
    var left, at, out, more := len, address, 0, true;
    FilledNothing(before, 0, chip.mem, address);
    while more
      invariant 0 <= left <= len && at == address + (len - left) && out == len - left
      invariant !more ==> left == 0
      invariant Filled(before, buf[..], 0, chip.mem, address, len - left)
      decreases left, more
    {
      var readLen := if left < READ_CHUNK_SIZE then left else READ_CHUNK_SIZE;
      ghost var mid := buf[..];
      ReadOp(chip, buf, out, at, readLen);
      FilledJoins(before, mid, buf[..], 0, chip.mem, address, len - left, readLen);
      left := left - readLen;
      out := out + readLen;
      at := at + readLen;
      more := left > 0;
    }
  }

  // ----- erase, write, read back -----

  /** The three effects, one after the other. */
  lemma ReadsBack(g: Geometry, mem: seq<byte>, address: nat, data: seq<byte>)
    requires g.Valid() && |mem| == g.size && address + |data| <= g.size
    ensures EraseEffect(mem, g, address, |data|) == RoundedErase(mem, g, address, |data|)
    ensures Written(EraseEffect(mem, g, address, |data|), address, data)[address..address + |data|] == data
  {
    EraseStartBounds(g, address);
    AlignUpBounds(address + |data|, g.Sector());
    EraseIsRounded(g, mem, address, |data|);
    hide EraseEffect, Erased, Written, AlignUp, EraseStart, Pow2;
    EraseWriteReadBack(mem, EraseStart(g, address), AlignUp(address + |data|, g.Sector()), address, data);
  }

  /** Any range inside the flash: what is written after erasing it reads back, locally and by
      remote calls, and outside the sectors it touches nothing has changed. */
  method EraseWriteRead(chip: Chip, address: nat, data: seq<byte>, buf: array<byte>, remote: bool)
    requires chip.Idle() && address + |data| <= chip.g.size && |data| <= buf.Length
    modifies chip, buf
    ensures buf[..|data|] == data && buf[|data|..] == old(buf[|data|..])
    ensures chip.Idle()
    ensures chip.mem == Written(RoundedErase(old(chip.mem), chip.g, address, |data|), address, data)
  {
    hide EraseEffect, RoundedErase, EraseCommands, Written, PageChunks, Pow2;
    ReadsBack(chip.g, chip.mem, address, data);
    EraseOp(chip, address, |data|);
    WriteOp(chip, data, address);
    if remote {
      RemoteRead(chip, buf, address, |data|);
    } else {
      ReadOp(chip, buf, 0, address, |data|);
    }
  }

  // ----- replacing part of a sector -----

  const BOOT_SECTOR_SIZE: nat := 4096

  /** What boot_image_write leaves in the flash. */
  function BootImageEffect(mem: seq<byte>, g: Geometry, address: nat, data: seq<byte>): seq<byte>
    requires |g.sizeLog2| == 4
    requires |data| <= BOOT_SECTOR_SIZE && address + BOOT_SECTOR_SIZE <= |mem|
  {
    var sector := data + mem[address + |data|..address + BOOT_SECTOR_SIZE];
    Written(EraseEffect(mem, g, address, BOOT_SECTOR_SIZE), address, sector)
  }

  /** boot_image_write: read a sector, patch its beginning, erase it and write it back. */
  method BootImageWrite(chip: Chip, address: nat, data: seq<byte>)
    requires chip.Idle() && 0 < chip.g.pageSize
    requires |data| <= BOOT_SECTOR_SIZE && address + BOOT_SECTOR_SIZE <= chip.g.size
    modifies chip
    ensures chip.Idle()
    ensures chip.mem == BootImageEffect(old(chip.mem), chip.g, address, data)
  {
    var tmpBuf := new byte[BOOT_SECTOR_SIZE];
    ReadOp(chip, tmpBuf, 0, address, BOOT_SECTOR_SIZE);
    ghost var sector := tmpBuf[..];
    assert sector == chip.mem[address..address + BOOT_SECTOR_SIZE];
    Copy(tmpBuf, 0, data);
    assert tmpBuf[..] == data + chip.mem[address + |data|..address + BOOT_SECTOR_SIZE];
    hide EraseEffect, EraseCommands, Written, PageChunks, Filled;
    EraseOp(chip, address, BOOT_SECTOR_SIZE);
    WriteOp(chip, tmpBuf[..], address);
  }

  /** data replaced, everything else as it was. */
  function Patched(mem: seq<byte>, address: nat, data: seq<byte>): seq<byte>
    requires address + |data| <= |mem|
  {
    mem[..address] + data + mem[address + |data|..]
  }

  ghost predicate AlwaysPatches(g: Geometry, address: nat, data: seq<byte>)
    requires |g.sizeLog2| == 4
    requires |data| <= BOOT_SECTOR_SIZE && address + BOOT_SECTOR_SIZE <= g.size
  {
    forall mem: seq<byte> | |mem| == g.size :: BootImageEffect(mem, g, address, data) == Patched(mem, address, data)
  }

  /** The erased hull of the boot sector. */
  lemma BootErase(g: Geometry, mem: seq<byte>, address: nat)
    requires g.Valid() && |mem| == g.size && address + BOOT_SECTOR_SIZE <= g.size
    ensures EraseEffect(mem, g, address, BOOT_SECTOR_SIZE) ==
            Erased(mem, EraseStart(g, address), AlignUp(address + BOOT_SECTOR_SIZE, g.Sector()))
  {
    EraseStartBounds(g, address);
    EraseIsRounded(g, mem, address, BOOT_SECTOR_SIZE);
  }

  lemma PatchedWhenErasedExactly(mem: seq<byte>, address: nat, data: seq<byte>)
    requires |data| <= BOOT_SECTOR_SIZE && address + BOOT_SECTOR_SIZE <= |mem|
    ensures var sector := data + mem[address + |data|..address + BOOT_SECTOR_SIZE];
            Written(Erased(mem, address, address + BOOT_SECTOR_SIZE), address, sector) == Patched(mem, address, data)
  {
    var sector := data + mem[address + |data|..address + BOOT_SECTOR_SIZE];
    forall i | 0 <= i < |sector| ensures ERASED & sector[i] == sector[i] {
      ErasedKeepsData(sector[i]);
    }
  }

  lemma BootImagePatches(g: Geometry, mem: seq<byte>, address: nat, data: seq<byte>)
    requires g.Valid() && |mem| == g.size
    requires |data| <= BOOT_SECTOR_SIZE && address + BOOT_SECTOR_SIZE <= g.size
    requires OnSector(g, address) && OnSector(g, address + BOOT_SECTOR_SIZE)
    ensures BootImageEffect(mem, g, address, data) == Patched(mem, address, data)
  {
    EraseStartBounds(g, address);
    OnSectorAlignUp(g, address + BOOT_SECTOR_SIZE);
    hide EraseEffect, Written, Erased, Patched, OnSector;
    BootErase(g, mem, address);
    PatchedWhenErasedExactly(mem, address, data);
  }

  /** boot_image_write replaces exactly the given bytes, whatever the flash holds, if and only
      if both ends of its 4096-byte sector are erase boundaries of the chip. */
  lemma BootImagePatchesIff(g: Geometry, address: nat, data: seq<byte>)
    requires g.Valid()
    requires |data| <= BOOT_SECTOR_SIZE && address + BOOT_SECTOR_SIZE <= g.size
    ensures AlwaysPatches(g, address, data) <==> OnSector(g, address) && OnSector(g, address + BOOT_SECTOR_SIZE)
  {
    hide BootImageEffect, Patched, OnSector, EraseEffect, EraseStart, AlignUp;
    if OnSector(g, address) && OnSector(g, address + BOOT_SECTOR_SIZE) {
      forall mem: seq<byte> | |mem| == g.size
        ensures BootImageEffect(mem, g, address, data) == Patched(mem, address, data)
      {
        BootImagePatches(g, mem, address, data);
      }
    } else {
      var zeros: seq<byte> := seq(g.size, _ => 0);
      BootErase(g, zeros, address);
      NeighbourErased(g, zeros, address, data, EraseStart(g, address),
                      AlignUp(address + BOOT_SECTOR_SIZE, g.Sector()));
    }
  }

  /** A chip that erases 64 kilobytes at least: 60 of them are lost. */
  lemma BootImageExample(data: seq<byte>)
    requires |data| <= BOOT_SECTOR_SIZE
    ensures var g := Geometry(0x10_0000, 256, [16, 0, 0, 0]); g.Valid() && !AlwaysPatches(g, 0, data)
  {
    var g := Geometry(0x10_0000, 256, [16, 0, 0, 0]);
    assert Pow2(8) == 256;
    Pow2Adds(8, 8);
    assert IsPow2(256);
    hide Pow2, AlwaysPatches;
    BootImagePatchesIff(g, 0, data);
  }

  lemma NeighbourErased(g: Geometry, zeros: seq<byte>, address: nat, data: seq<byte>, lo: nat, hi: nat)
    requires g.Valid() && |zeros| == g.size && (forall i | 0 <= i < g.size :: zeros[i] == 0)
    requires |data| <= BOOT_SECTOR_SIZE && address + BOOT_SECTOR_SIZE <= g.size
    requires EraseEffect(zeros, g, address, BOOT_SECTOR_SIZE) == Erased(zeros, lo, hi)
    requires lo == EraseStart(g, address) && hi == AlignUp(address + BOOT_SECTOR_SIZE, g.Sector())
    requires !(OnSector(g, address) && OnSector(g, address + BOOT_SECTOR_SIZE))
    ensures BootImageEffect(zeros, g, address, data) != Patched(zeros, address, data)
  {
    hide EraseEffect, EraseStart, AlignUp;
    var end := address + BOOT_SECTOR_SIZE;
    EraseStartBounds(g, address);
    AlignUpBounds(end, g.Sector());
    var effect, wanted := BootImageEffect(zeros, g, address, data), Patched(zeros, address, data);
    if OnSector(g, address) {
      // the rest of the last sector is lost
      assert end < hi;
      FlashEndsOnSector(g);
      assert end < g.size;
      assert effect[end] == ERASED && wanted[end] == 0;
    } else {
      // the beginning of the first sector is lost
      assert lo < address;
      assert effect[lo] == ERASED && wanted[lo] == 0;
    }
  }
}
