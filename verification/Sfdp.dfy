/** Discovery of the flash geometry from the chip's SFDP tables: what the erase and write
    operations rely on is established here. */
module Sfdp {
  import opened Basics
  import opened Arith
  import opened Bits
  import opened FlashSpec

  /** One entry of the erase table, two bytes wide: the log2 of a sector size, zero for an
      unused entry, and the command that erases such a sector. */
  datatype EraseInfo = EraseInfo(size: nat, cmd: nat)

  predicate IsByte(e: EraseInfo) {
    e.size < 256 && e.cmd < 256
  }

  /** Unused entries count as larger than any size. */
  function Rank(e: EraseInfo): nat {
    if e.size == 0 then 256 else e.size
  }

  ghost predicate Ordered(s: seq<EraseInfo>, from: nat, to: nat) {
    forall p, q | from <= p <= q < to <= |s| :: Rank(s[p]) <= Rank(s[q])
  }

  /** Everything before at ranks no higher than anything from at on. */
  ghost predicate Split(s: seq<EraseInfo>, at: nat) {
    forall p, q | 0 <= p < at <= q < |s| :: Rank(s[p]) <= Rank(s[q])
  }

  ghost predicate HighestUpTo(s: seq<EraseInfo>, j: nat) {
    j < |s| && forall p | 0 <= p <= j :: Rank(s[p]) <= Rank(s[j])
  }

  /** The compare-and-swap of neighbours. */
  method Compare(t: array<EraseInfo>, j: nat)
    requires j + 1 < t.Length && forall i | 0 <= i < t.Length :: IsByte(t[i])
    modifies t
    ensures multiset(t[..]) == multiset(old(t[..]))
    ensures Rank(t[j]) <= Rank(t[j + 1])
    ensures t[..] == old(t[..]) || t[..] == old(t[..][j := t[j + 1]][j + 1 := t[j]])
  {
    if t[j].size == 0 || (t[j + 1].size != 0 && t[j].size > t[j + 1].size) {
      t[j], t[j + 1] := t[j + 1], t[j];
    }
  }

  lemma CompareAdvances(s: seq<EraseInfo>, r: seq<EraseInfo>, j: nat, end: nat)
    requires j + 1 < end <= |s| == |r| && HighestUpTo(s, j) && Ordered(s, end, |s|) && Split(s, end)
    requires r == s || r == s[j := s[j + 1]][j + 1 := s[j]]
    requires Rank(r[j]) <= Rank(r[j + 1])
    ensures HighestUpTo(r, j + 1) && Ordered(r, end, |r|) && Split(r, end)
  {
    forall p | 0 <= p <= j + 1 ensures Rank(r[p]) <= Rank(r[j + 1]) {
      if p < j {
        assert r[p] == s[p];
      }
    }
    forall p, q | 0 <= p < end <= q < |r| ensures Rank(r[p]) <= Rank(r[q]) {
      assert r[q] == s[q];
    }
  }

  lemma PassDone(s: seq<EraseInfo>, last: nat)
    requires last < |s| && HighestUpTo(s, last) && Ordered(s, last + 1, |s|) && Split(s, last + 1)
    ensures Ordered(s, last, |s|) && Split(s, last)
  {}

  lemma KeepsBytes(s: seq<EraseInfo>, r: seq<EraseInfo>)
    requires multiset(s) == multiset(r) && forall i | 0 <= i < |s| :: IsByte(s[i])
    ensures forall i | 0 <= i < |r| :: IsByte(r[i])
  {
    forall i | 0 <= i < |r| ensures IsByte(r[i]) {
      assert r[i] in multiset(r);
    }
  }

  /** sfdp_erase_table_sort, for a table of any length: the same entries, sizes ascending,
      unused entries last. */
  method SortEraseTable(t: array<EraseInfo>)
    requires forall i | 0 <= i < t.Length :: IsByte(t[i])
    modifies t
    ensures multiset(t[..]) == multiset(old(t[..]))
    ensures Ordered(t[..], 0, t.Length)
  {
    var n := t.Length;
    if n == 0 {
      return;
    }
    for i := 0 to n - 1
      invariant multiset(t[..]) == multiset(old(t[..]))
      invariant Ordered(t[..], n - i, n) && Split(t[..], n - i)
    {
      KeepsBytes(old(t[..]), t[..]);
      BubblePass(t, n - i);
    }
    PassDone(t[..], 0);
  }

  /** The inner loop: the highest of the first end entries moves to their end. */
  method BubblePass(t: array<EraseInfo>, end: nat)
    requires 2 <= end <= t.Length && Ordered(t[..], end, t.Length) && Split(t[..], end)
    requires forall i | 0 <= i < t.Length :: IsByte(t[i])
    modifies t
    ensures multiset(t[..]) == multiset(old(t[..]))
    ensures Ordered(t[..], end - 1, t.Length) && Split(t[..], end - 1)
  {
    ghost var s := t[..];
    hide Ordered, Split, HighestUpTo;
    assert HighestUpTo(t[..], 0) by { HighestFirst(t[..]); }
    for j := 0 to end - 1
      invariant multiset(t[..]) == multiset(old(t[..]))
      invariant HighestUpTo(t[..], j) && Ordered(t[..], end, t.Length) && Split(t[..], end)
    {
      ghost var before := t[..];
      KeepsBytes(s, before);
      Compare(t, j);
      CompareAdvances(before, t[..], j, end);
    }
    PassDone(t[..], end - 1);
  }

  lemma HighestFirst(s: seq<EraseInfo>)
    requires 0 < |s|
    ensures HighestUpTo(s, 0)
  {}

  // ----- sizes -----

  /** sfdp_flash_size_kbytes: the density field is the number of bits less one, or the log2
      of the number of bits. */
  function FlashSizeKbytes(density: nat, isExponent: bool): nat {
    if isExponent then
      if 32 <= density <= 44 then Pow2(density - 13) else 0
    else Shr(1 + density, 13)
  }

  /** The size in kilobytes is that of the bits, rounded down: one more than the density field, or two
      to the power of it if that is from 32 to 44. Other powers count as no size. */
  lemma SizeIsBits(density: nat, isExponent: bool)
    ensures var kbytes := FlashSizeKbytes(density, isExponent);
      if !isExponent then kbytes * 8192 <= density + 1 < kbytes * 8192 + 8192
      else if 32 <= density <= 44 then kbytes * 8192 == Pow2(density)
      else kbytes == 0
  {
    assert Pow2(13) == 8192 by { assert Pow2(5) == 32; }
    if !isExponent {
      DivMod(1 + density, 8192);
    } else if 32 <= density <= 44 {
      Pow2Adds(density - 13, 13);
    }
  }

  /** sfdp_flash_page_size_bytes */
  function PageSizeBytes(pageSize: nat): nat {
    Shl(1, pageSize)
  }

  function PageCount(kbytes: nat, pageSize: nat): nat {
    Shl(Shr(kbytes, pageSize), 10)
  }

  /** The pages make up the flash exactly when the page size divides the number of kilobytes. */
  lemma PagesMakeUpFlashIff(kbytes: nat, pageSize: nat)
    ensures PageCount(kbytes, pageSize) * PageSizeBytes(pageSize) == kbytes * 1024 <==>
            kbytes % PageSizeBytes(pageSize) == 0
  {
    var page := Pow2(pageSize);
    assert Pow2(10) == 1024 by { assert Pow2(5) == 32; }
    DivMod(kbytes, page);
    PageArithmetic(kbytes / page, page, kbytes % page);
  }

  lemma PageArithmetic(q: int, page: int, r: int)
    ensures q * 1024 * page == (q * page + r) * 1024 <==> r == 0
  {
    assert q * 1024 * page == (q * page) * 1024;
  }

  /** The power-of-two test on the page size that the driver's init asserts. */
  lemma PageSizeTest(page: nat)
    requires 0 < page
    ensures And(page, page - 1) == 0 <==> IsPow2(page)
  {
    ClearLowestBit(page);
  }

  /** The driver computes the flash size in bytes in 32 bits and asserts that it exceeds the
      size in kilobytes. For every size the SFDP table can express, this catches overflow. */
  lemma SizeAssertionIff(density: nat, isExponent: bool)
    requires density < 0x4000_0000
    ensures var kbytes := FlashSizeKbytes(density, isExponent);
            kbytes < (kbytes * 1024) % U32 <==> 0 < kbytes && kbytes * 1024 < U32
  {
    var kbytes := FlashSizeKbytes(density, isExponent);
    assert Pow2(10) == 1024 && Pow2(13) == 8192 by { assert Pow2(5) == 32; }
    if isExponent && 32 <= density <= 44 {
      assert kbytes * 1024 == Pow2(density - 3) by { Pow2Adds(density - 13, 10); }
      assert Pow2(32) == U32 by { Pow2Of32(); }
      if 32 <= density - 3 {
        Pow2Divides(32, density - 3);
      } else {
        Pow2Monotone(density - 3, 31);
        assert Pow2(32) == 2 * Pow2(31);
      }
    } else {
      DivMod(1 + density, 8192);
    }
  }

  // ----- the driver's table -----

  /** What qspi_flash_init saves, entry by entry: the sizes and, for the entries in use, the
      commands. The number of entries that it counts is always four. */
  method SaveEraseTable(t: array<EraseInfo>) returns (sizeLog2: seq<nat>, cmds: seq<nat>, entries: nat)
    requires t.Length == 4 && Ordered(t[..], 0, 4) && forall i | 0 <= i < 4 :: IsByte(t[i])
    ensures |sizeLog2| == |cmds| == entries == 4
    ensures forall i | 0 <= i < 4 :: sizeLog2[i] == t[i].size && (t[i].size != 0 ==> cmds[i] == t[i].cmd)
    ensures forall i, j | 0 <= i < j < 4 && 0 < sizeLog2[j] :: 0 < sizeLog2[i] <= sizeLog2[j]
  {
    sizeLog2, cmds, entries := [], [], 0;
    for i := 0 to 4
      invariant |sizeLog2| == |cmds| == entries == i
      invariant forall k | 0 <= k < i :: sizeLog2[k] == t[k].size && (t[k].size != 0 ==> cmds[k] == t[k].cmd)
    {
      if t[i].size != 0 {
        sizeLog2, cmds := sizeLog2 + [t[i].size], cmds + [t[i].cmd];
      } else {
        sizeLog2, cmds := sizeLog2 + [0], cmds + [0];
      }
      entries := entries + 1;
    }
    forall i, j | 0 <= i < j < 4 && 0 < sizeLog2[j] ensures 0 < sizeLog2[i] <= sizeLog2[j] {
      assert Rank(t[..][i]) <= Rank(t[..][j]);
    }
  }

  /** Some entry of the table is in use, the capacity fits three address bytes, and pages and
      sectors divide it. */
  ghost predicate Usable(s: seq<EraseInfo>, bytes: nat, page: nat)
    requires 0 < page
  {
    && (exists i :: 0 <= i < |s| && 0 < s[i].size)
    && 0 < bytes <= ADDRESS_SPACE && bytes % page == 0
    && (forall i | 0 <= i < |s| && 0 < s[i].size :: bytes % Pow2(s[i].size) == 0)
  }

  /** The address bytes that the table offers. */
  datatype AddressBytes = ThreeOnly | ThreeOrFour | FourOnly

  /** Discovery, for any table and any density. The driver's assertions hold exactly if the size in
      bytes is not zero and fits 32 bits, and the chip can be addressed with three bytes; that some
      entry of the erase table is in use they do not tell. The erase and write operations can rely
      on the geometry exactly if what the chip reports is usable. The pages make up the flash
      exactly if the page size divides the kilobytes. */
  method Discover(t: array<EraseInfo>, density: nat, isExponent: bool, pageSize: nat, mode: AddressBytes)
      returns (ok: bool, g: Geometry, cmds: seq<nat>, pages: nat, addressBytes: nat)
    requires t.Length == 4 && forall i | 0 <= i < 4 :: IsByte(t[i])
    requires density < 0x4000_0000
    modifies t
    ensures var kbytes := FlashSizeKbytes(density, isExponent);
      && (ok <==> 0 < kbytes * 1024 < U32 && !mode.FourOnly?)
      && (ok ==> g.size == kbytes * 1024 && addressBytes == 3)
      && (ok ==> (g.Valid() <==> Usable(old(t[..]), kbytes * 1024, PageSizeBytes(pageSize))))
      && (ok ==> (pages * PageSizeBytes(pageSize) == kbytes * 1024 <==> kbytes % PageSizeBytes(pageSize) == 0))
    ensures g.pageSize == PageSizeBytes(pageSize)
    ensures multiset(t[..]) == multiset(old(t[..])) && Ordered(t[..], 0, 4)
    ensures |cmds| == |g.sizeLog2| == 4 && forall i | 0 <= i < 4 ::
      g.sizeLog2[i] == t[i].size && (t[i].size != 0 ==> cmds[i] == t[i].cmd)
  {
    hide Usable;
    ghost var before := t[..];
    SortEraseTable(t);
    KeepsBytes(before, t[..]);
    assert forall i | 0 <= i < 4 :: t[..][i] == t[i];
    var sizeLog2: seq<nat>, entries: nat;
    sizeLog2, cmds, entries := SaveEraseTable(t);
    var kbytes, page := FlashSizeKbytes(density, isExponent), PageSizeBytes(pageSize);
    pages := if kbytes != 0 then PageCount(kbytes, pageSize) else 0;
    addressBytes := if mode.FourOnly? then 4 else 3;
    g := Geometry((kbytes * 1024) % U32, page, sizeLog2);
    ok := kbytes != 0 && entries > 0 && addressBytes == 3 &&
      g.size > kbytes && page != 0 && And(page, page - 1) == 0;
    PageIsPower(pageSize);
    SizeAssertionIff(density, isExponent);
    PageSizeTest(page);
    if ok {
      SmallMod(kbytes * 1024, U32);
      PagesMakeUpFlashIff(kbytes, pageSize);
      SameUse(before, t[..], g.size, page);
      UsableIsValid(t[..], g);
    }
  }

  /** A table without any sector size passes the driver's check, which counts unused entries too. */
  lemma EmptyTableExample()
    ensures var t := seq(4, _ => EraseInfo(0, 0)); var bytes := FlashSizeKbytes(0x7F_FFFF, false) * 1024;
      Ordered(t, 0, 4) && bytes == 0x10_0000 && !Usable(t, bytes, PageSizeBytes(8))
  {
    assert Pow2(13) == 8192 by { assert Pow2(5) == 32; }
  }

  lemma PageIsPower(pageSize: nat)
    ensures 0 < PageSizeBytes(pageSize) && IsPow2(PageSizeBytes(pageSize))
  {
    assert PageSizeBytes(pageSize) == Pow2(pageSize);
  }

  /** The order of the table does not matter. */
  lemma SameUse(s: seq<EraseInfo>, r: seq<EraseInfo>, bytes: nat, page: nat)
    requires 0 < page && multiset(s) == multiset(r)
    ensures Usable(s, bytes, page) <==> Usable(r, bytes, page)
  {
    if Usable(s, bytes, page) {
      UseMoves(s, r, bytes, page);
    }
    if Usable(r, bytes, page) {
      UseMoves(r, s, bytes, page);
    }
  }

  lemma UseMoves(s: seq<EraseInfo>, r: seq<EraseInfo>, bytes: nat, page: nat)
    requires 0 < page && multiset(s) == multiset(r) && Usable(s, bytes, page)
    ensures Usable(r, bytes, page)
  {
    hide Pow2;
    var used :| 0 <= used < |s| && 0 < s[used].size;
    assert s[used] in multiset(r);
    var at :| 0 <= at < |r| && r[at] == s[used];
    forall i | 0 <= i < |r| && 0 < r[i].size ensures bytes % Pow2(r[i].size) == 0 {
      assert r[i] in multiset(s);
      var from :| 0 <= from < |s| && s[from] == r[i];
    }
  }

  lemma UsableIsValid(s: seq<EraseInfo>, g: Geometry)
    requires |s| == |g.sizeLog2| == 4 && Ordered(s, 0, 4) && forall i | 0 <= i < 4 :: IsByte(s[i])
    requires IsPow2(g.pageSize) && 0 < g.pageSize && forall i | 0 <= i < 4 :: g.sizeLog2[i] == s[i].size
    ensures g.Valid() <==> Usable(s, g.size, g.pageSize)
  {
    hide Pow2, IsPow2;
    if used :| 0 <= used < 4 && 0 < s[used].size {
      assert Rank(s[0]) <= Rank(s[used]);
    }
    forall i, j | 0 <= i < j < 4 && 0 < s[j].size ensures 0 < s[i].size <= s[j].size {
      assert Rank(s[i]) <= Rank(s[j]);
    }
  }
}
