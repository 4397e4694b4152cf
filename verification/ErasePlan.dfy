/** The sequence of sector erases erase_op issues: what it erases, and that it is as short
    as any sequence that erases the same range. */
module ErasePlan {
  import opened Arith
  import opened Bits
  import opened FlashSpec

  /** One sector erase command: 2^log2 bytes from start. */
  datatype Block = Block(start: nat, log2: nat)
  {
    function End(): nat {
      start + Pow2(log2)
    }
  }

  /** Sector size number i is available, start is one of its boundaries, and at least a
      whole such sector is left to erase. */
  predicate Eligible(g: Geometry, start: nat, left: nat, i: nat)
    requires |g.sizeLog2| == 4 && i < 4
  {
    var k := g.sizeLog2[i];
    k != 0 && SectorStart(start, k) == start && Pow2(k) <= left
  }

  /** The loop over erase types, from entry i down; entry 0 is the fallback. */
  function Choose(g: Geometry, start: nat, left: nat, i: nat): (r: nat)
    requires |g.sizeLog2| == 4 && i < 4
    ensures r <= i
  {
    if i == 0 || Eligible(g, start, left, i) then i else Choose(g, start, left, i - 1)
  }

  function ChosenLog2(g: Geometry, start: nat, left: nat): nat
    requires |g.sizeLog2| == 4
  {
    g.sizeLog2[Choose(g, start, left, 3)]
  }

  /** The commands for left bytes from start on. */
  function Plan(g: Geometry, start: nat, left: nat): seq<Block>
    requires |g.sizeLog2| == 4
    decreases left
  {
    if left == 0 || g.size <= start then [] else
      var k := ChosenLog2(g, start, left);
      [Block(start, k)] + Plan(g, start + Pow2(k), if Pow2(k) < left then left - Pow2(k) else 0)
  }

  function Apply(mem: seq<byte>, blocks: seq<Block>): (r: seq<byte>)
    ensures |r| == |mem|
    decreases |blocks|
  {
    if blocks == [] then mem else Apply(Erased(mem, blocks[0].start, blocks[0].End()), blocks[1..])
  }

  lemma {:induction false} ApplyAppends(mem: seq<byte>, blocks: seq<Block>, b: Block)
    ensures Apply(mem, blocks + [b]) == Erased(Apply(mem, blocks), b.start, b.End())
    decreases |blocks|
  {
    if blocks == [] {
      assert [b][1..] == [];
    } else {
      ApplyAppends(Erased(mem, blocks[0].start, blocks[0].End()), blocks[1..], b);
      assert (blocks + [b])[1..] == blocks[1..] + [b];
    }
  }

  // ----- multiples -----

  lemma Gap(x: nat, y: nat, n: nat)
    requires 0 < n && x % n == 0 && y % n == 0 && x < y
    ensures x + n <= y
  {
    DivMod(x, n);
    DivMod(y, n);
    if y / n <= x / n {
      MulMonotone(y / n, x / n, n);
    } else {
      MulMonotone(x / n + 1, y / n, n);
      assert (x / n + 1) * n == (x / n) * n + n;
    }
  }

  lemma SumIsMultiple(x: nat, y: nat, n: nat)
    requires 0 < n && x % n == 0 && y % n == 0
    ensures (x + y) % n == 0
    ensures x <= y ==> (y - x) % n == 0
  {
    DivMod(x, n);
    DivMod(y, n);
    assert x + y == (x / n + y / n) * n;
    DivModUnique(x + y, n, x / n + y / n, 0);
    if x <= y {
      assert y - x == (y / n - x / n) * n;
      DivModUnique(y - x, n, y / n - x / n, 0);
    }
  }

  lemma MultipleOfMultiple(x: nat, n: nat, m: nat)
    requires 0 < m && 0 < n && x % n == 0 && n % m == 0
    ensures x % m == 0
  {
    DivMod(x, n);
    DivMod(n, m);
    assert x == ((x / n) * (n / m)) * m by {
      assert x == (x / n) * ((n / m) * m);
    }
    DivModUnique(x, m, (x / n) * (n / m), 0);
  }

  /** x rounded up to a multiple of n. */
  function AlignUp(x: nat, n: nat): (r: nat)
    requires 0 < n
  {
    Quotient(x + n - 1, n) * n
  }

  lemma AlignUpIs(x: nat, n: nat, r: nat)
    requires 0 < n && r % n == 0 && x <= r < x + n
    ensures AlignUp(x, n) == r
  {
    DivMod(r, n);
    assert x + n - 1 == (r / n) * n + (x + n - 1 - r);
    DivModUnique(x + n - 1, n, r / n, x + n - 1 - r);
  }

  lemma AlignUpBounds(x: nat, n: nat)
    requires 0 < n
    ensures x <= AlignUp(x, n) < x + n && AlignUp(x, n) % n == 0
  {
    DivMod(x + n - 1, n);
    MultipleHasNoRemainder((x + n - 1) / n, n);
  }

  // ----- the choice -----

  /** A size from the table, on one of its own boundaries. */
  ghost predicate TableBlock(g: Geometry, b: Block)
    requires |g.sizeLog2| == 4
  {
    0 < b.log2 && b.log2 in g.sizeLog2 && b.start % Pow2(b.log2) == 0
  }

  predicate OnSector(g: Geometry, x: nat)
    requires |g.sizeLog2| == 4
  {
    x % g.Sector() == 0
  }

  lemma ChoiceIsTableBlock(g: Geometry, start: nat, left: nat)
    requires g.Valid() && OnSector(g, start)
    ensures TableBlock(g, Block(start, ChosenLog2(g, start, left)))
    ensures ChosenLog2(g, start, left) == g.sizeLog2[0] || Pow2(ChosenLog2(g, start, left)) <= left
  {
    ChoiceEligible(g, start, left, 3);
    var i := Choose(g, start, left, 3);
    ShiftRoundsDown(start, g.sizeLog2[i]);
  }

  lemma {:induction false} ChoiceEligible(g: Geometry, start: nat, left: nat, i: nat)
    requires |g.sizeLog2| == 4 && i < 4
    ensures var r := Choose(g, start, left, i); r == 0 || Eligible(g, start, left, r)
    ensures forall j | Choose(g, start, left, i) < j <= i :: !Eligible(g, start, left, j)
  {
    hide Eligible;
    if i != 0 && !Eligible(g, start, left, i) {
      ChoiceEligible(g, start, left, i - 1);
    }
  }

  /** No table block that starts here and fits is larger than the chosen one. */
  lemma ChoiceIsLargest(g: Geometry, start: nat, left: nat, b: Block)
    requires g.Valid() && TableBlock(g, b) && b.start == start && Pow2(b.log2) <= left
    ensures b.log2 <= ChosenLog2(g, start, left)
  {
    var j :| 0 <= j < 4 && g.sizeLog2[j] == b.log2;
    var i := Choose(g, start, left, 3);
    ChoiceEligible(g, start, left, 3);
    if i < j {
      ShiftRoundsDown(start, b.log2);
      assert Eligible(g, start, left, j);
    } else if j < i {
      assert 0 < g.sizeLog2[i];
    }
  }

  lemma SectorDividesBlock(g: Geometry, b: Block)
    requires g.Valid() && TableBlock(g, b)
    ensures g.sizeLog2[0] <= b.log2
    ensures Pow2(b.log2) % g.Sector() == 0 && g.Sector() <= Pow2(b.log2)
    ensures OnSector(g, b.start) && OnSector(g, b.End())
  {
    var j :| 0 <= j < 4 && g.sizeLog2[j] == b.log2;
    Pow2Divides(g.sizeLog2[0], b.log2);
    MultipleOfMultiple(b.start, Pow2(b.log2), g.Sector());
    SumIsMultiple(b.start, Pow2(b.log2), g.Sector());
  }

  /** A table block that starts inside the flash ends inside it. */
  lemma BlockInFlash(g: Geometry, b: Block)
    requires g.Valid() && TableBlock(g, b) && b.start < g.size
    ensures b.End() <= g.size
  {
    var j :| 0 <= j < 4 && g.sizeLog2[j] == b.log2;
    Gap(b.start, g.size, Pow2(b.log2));
  }

  // ----- what the plan erases -----

  /** What is left after the first command. */
  function LeftAfter(left: nat, size: nat): nat {
    if size < left then left - size else 0
  }

  /** The first command does not overshoot the next sector boundary after the range. */
  lemma FirstBlock(g: Geometry, start: nat, left: nat, b: Block)
    requires g.Valid() && OnSector(g, start) && 0 < left && start < g.size
    requires b == Block(start, ChosenLog2(g, start, left))
    ensures TableBlock(g, b) && OnSector(g, b.End()) && b.End() <= g.size
    ensures start < b.End() <= AlignUp(start + left, g.Sector())
    ensures AlignUp(b.End() + LeftAfter(left, Pow2(b.log2)), g.Sector()) == AlignUp(start + left, g.Sector())
  {
    ChoiceIsTableBlock(g, start, left);
    SectorDividesBlock(g, b);
    BlockInFlash(g, b);
    AlignUpBounds(start + left, g.Sector());
    if left < Pow2(b.log2) {
      // only the smallest sector is ever larger than what is left
      AlignUpIs(start + left, g.Sector(), b.End());
      AlignUpIs(b.End(), g.Sector(), b.End());
    }
  }

  lemma ErasedPastEnd(mem: seq<byte>, lo: int, hi: int)
    requires |mem| <= lo || hi <= lo
    ensures Erased(mem, lo, hi) == mem
  {}

  /** The plan erases exactly from start up to the next sector boundary after the range. */
  lemma {:induction false} PlanErases(g: Geometry, mem: seq<byte>, start: nat, left: nat)
    requires g.Valid() && |mem| == g.size && OnSector(g, start)
    ensures Apply(mem, Plan(g, start, left)) == Erased(mem, start, AlignUp(start + left, g.Sector()))
    decreases left
  {
    hide AlignUp, OnSector, ChosenLog2, Erased, TableBlock;
    if g.size <= start {
      ErasedPastEnd(mem, start, AlignUp(start + left, g.Sector()));
    } else if left == 0 {
      assert OnSector(g, start) ==> start % g.Sector() == 0 by { SectorRemainder(g, start); }
      AlignUpIs(start, g.Sector(), start);
      ErasedPastEnd(mem, start, start);
    } else {
      var b := Block(start, ChosenLog2(g, start, left));
      var rest := LeftAfter(left, Pow2(b.log2));
      FirstBlock(g, start, left, b);
      PlanErases(g, Erased(mem, start, b.End()), b.End(), rest);
      ErasedJoins(mem, start, b.End(), AlignUp(start + left, g.Sector()));
      assert Plan(g, start, left) == [b] + Plan(g, b.End(), rest);
    }
  }

  lemma SectorRemainder(g: Geometry, x: nat)
    requires |g.sizeLog2| == 4
    ensures OnSector(g, x) <==> x % g.Sector() == 0
  {}

  /** Every command of the plan erases a sector of the table, inside the flash and inside the
      range rounded out to sector boundaries. */
  lemma {:induction false} PlanBlocks(g: Geometry, start: nat, left: nat)
    requires g.Valid() && OnSector(g, start)
    ensures forall b | b in Plan(g, start, left) ::
              TableBlock(g, b) && start <= b.start && b.End() <= g.size && b.End() <= AlignUp(start + left, g.Sector())
    decreases left
  {
    hide AlignUp, OnSector, ChosenLog2, TableBlock;
    if left != 0 && start < g.size {
      var b := Block(start, ChosenLog2(g, start, left));
      var rest := LeftAfter(left, Pow2(b.log2));
      FirstBlock(g, start, left, b);
      PlanBlocks(g, b.End(), rest);
      assert Plan(g, start, left) == [b] + Plan(g, b.End(), rest);
    }
  }

  // ----- the plan is shortest -----

  ghost predicate Inside(b: Block, lo: nat, hi: nat) {
    lo <= b.start && b.End() <= hi
  }

  /** Table blocks are nested or disjoint: one that starts in another and outlasts it
      starts where the other does and is larger. */
  lemma Nested(g: Geometry, a: Block, b: Block)
    requires g.Valid() && TableBlock(g, a) && TableBlock(g, b)
    requires a.start <= b.start < a.End() < b.End()
    ensures b.start == a.start && a.log2 < b.log2
  {
    if b.log2 <= a.log2 {
      Pow2Divides(b.log2, a.log2);
      MultipleOfMultiple(a.start, Pow2(a.log2), Pow2(b.log2));
      SumIsMultiple(a.start, Pow2(a.log2), Pow2(b.log2));
      Gap(b.start, a.End(), Pow2(b.log2));
    } else {
      Pow2Divides(a.log2, b.log2);
      MultipleOfMultiple(b.start, Pow2(b.log2), Pow2(a.log2));
      if a.start < b.start {
        Gap(a.start, b.start, Pow2(a.log2));
      }
    }
  }

  /** No table block inside [lo, hi) begins before at and ends after it. */
  ghost predicate Boundary(g: Geometry, lo: nat, hi: nat, at: nat)
    requires |g.sizeLog2| == 4
  {
    forall b | TableBlock(g, b) && Inside(b, lo, hi) && b.start < at :: b.End() <= at
  }

  /** Erasing the largest sector that fits leads from boundary to boundary. */
  lemma NextBoundary(g: Geometry, lo: nat, hi: nat, start: nat, b: Block)
    requires g.Valid() && OnSector(g, start) && OnSector(g, hi)
    requires start < hi <= g.size && Boundary(g, lo, hi, start)
    requires b == Block(start, ChosenLog2(g, start, hi - start))
    ensures b.End() <= hi && Boundary(g, lo, hi, b.End())
  {
    FirstBlock(g, start, hi - start, b);
    AlignUpIs(hi, g.Sector(), hi);
    forall c | TableBlock(g, c) && Inside(c, lo, hi) && c.start < b.End() ensures c.End() <= b.End() {
      if start <= c.start && b.End() < c.End() {
        Nested(g, b, c);
        ChoiceIsLargest(g, start, hi - start, c);
      }
    }
  }

  ghost predicate Covered(cover: seq<Block>, x: nat) {
    exists j :: 0 <= j < |cover| && cover[j].start <= x < cover[j].End()
  }

  /** Sector erases from the table, inside [lo, hi), that together erase [from, hi). */
  ghost predicate Cover(g: Geometry, cover: seq<Block>, lo: nat, hi: nat, from: nat)
    requires |g.sizeLog2| == 4
  {
    && (forall j | 0 <= j < |cover| :: TableBlock(g, cover[j]) && Inside(cover[j], lo, hi))
    && (forall x | from <= x < hi :: Covered(cover, x))
  }

  /** A block that ends before a place is not needed to cover what comes after it. */
  lemma CoverWithout(g: Geometry, cover: seq<Block>, lo: nat, hi: nat, from: nat, j: nat, at: nat)
    requires |g.sizeLog2| == 4 && Cover(g, cover, lo, hi, from) && from <= at
    requires j < |cover| && cover[j].End() <= at
    ensures Cover(g, cover[..j] + cover[j + 1..], lo, hi, at)
  {
    hide TableBlock, Pow2;
    var rest := cover[..j] + cover[j + 1..];
    forall x | at <= x < hi ensures Covered(rest, x) {
      assert Covered(cover, x);
      var i :| 0 <= i < |cover| && cover[i].start <= x < cover[i].End();
      assert rest[if i < j then i else i - 1] == cover[i];
    }
  }

  /** One block of a cover reaches over the first place, and no block of it passes the next boundary. */
  lemma CoverAfter(g: Geometry, lo: nat, hi: nat, from: nat, at: nat, cover: seq<Block>) returns (rest: seq<Block>)
    requires |g.sizeLog2| == 4 && from < at <= hi && Boundary(g, lo, hi, at)
    requires Cover(g, cover, lo, hi, from)
    ensures |rest| + 1 == |cover| && Cover(g, rest, lo, hi, at)
  {
    hide TableBlock, Pow2, Boundary;
    assert Covered(cover, from);
    var j :| 0 <= j < |cover| && cover[j].start <= from < cover[j].End();
    BoundaryStops(g, lo, hi, at, cover[j]);
    CoverWithout(g, cover, lo, hi, from, j, at);
    rest := cover[..j] + cover[j + 1..];
  }

  /** No cover is shorter than the plan. */
  lemma {:induction false} PlanIsShortest(g: Geometry, lo: nat, hi: nat, start: nat, cover: seq<Block>)
    requires g.Valid() && OnSector(g, start) && OnSector(g, hi)
    requires lo <= start <= hi <= g.size && Boundary(g, lo, hi, start)
    requires Cover(g, cover, lo, hi, start)
    ensures |Plan(g, start, hi - start)| <= |cover|
    decreases hi - start
  {
    hide OnSector, ChosenLog2, Boundary, Cover, Plan, Pow2, AlignUp, TableBlock;
    if start == hi {
      EmptyPlan(g, start);
    } else {
      var b := Block(start, ChosenLog2(g, start, hi - start));
      NextBoundary(g, lo, hi, start, b);
      FirstBlock(g, start, hi - start, b);
      var rest := CoverAfter(g, lo, hi, start, b.End(), cover);
      PlanIsShortest(g, lo, hi, b.End(), rest);
      PlanUnfolds(g, start, hi - start);
    }
  }

  lemma EmptyPlan(g: Geometry, start: nat)
    requires |g.sizeLog2| == 4
    ensures Plan(g, start, 0) == []
  {}

  lemma BoundaryStops(g: Geometry, lo: nat, hi: nat, at: nat, b: Block)
    requires |g.sizeLog2| == 4 && Boundary(g, lo, hi, at)
    requires TableBlock(g, b) && Inside(b, lo, hi) && b.start < at
    ensures b.End() <= at
  {}

  /** The plan for a range that ends on a sector boundary is itself a cover. */
  lemma {:induction false} PlanIsCover(g: Geometry, lo: nat, hi: nat, start: nat)
    requires g.Valid() && OnSector(g, start) && OnSector(g, hi) && lo <= start <= hi <= g.size
    ensures Cover(g, Plan(g, start, hi - start), lo, hi, start)
    decreases hi - start
  {
    hide OnSector, ChosenLog2, TableBlock;
    if start < hi {
      var b := Block(start, ChosenLog2(g, start, hi - start));
      FirstBlock(g, start, hi - start, b);
      assert b.End() <= hi by { OnSectorAlignUp(g, hi); }
      PlanIsCover(g, lo, hi, b.End());
      var rest := Plan(g, b.End(), hi - b.End());
      assert Plan(g, start, hi - start) == [b] + rest;
      forall x | start <= x < hi ensures Covered([b] + rest, x) {
        if x < b.End() {
          assert ([b] + rest)[0] == b;
        } else {
          assert Covered(rest, x);
          var i :| 0 <= i < |rest| && rest[i].start <= x < rest[i].End();
          assert ([b] + rest)[i + 1] == rest[i];
        }
      }
    }
  }

  lemma OnSectorAlignUp(g: Geometry, x: nat)
    requires |g.sizeLog2| == 4 && OnSector(g, x)
    ensures AlignUp(x, g.Sector()) == x
  {
    AlignUpIs(x, g.Sector(), x);
  }

  // ----- ranges that end inside a sector, or past the flash -----

  lemma {:induction false} SameChoice(g: Geometry, start: nat, left: nat, left': nat, i: nat)
    requires |g.sizeLog2| == 4 && i < 4
    requires forall j | 0 <= j <= i :: Eligible(g, start, left, j) <==> Eligible(g, start, left', j)
    ensures Choose(g, start, left, i) == Choose(g, start, left', i)
  {
    hide Eligible;
    if i != 0 && !Eligible(g, start, left, i) {
      SameChoice(g, start, left, left', i - 1);
    }
  }

  lemma EligibleInFlash(g: Geometry, start: nat, left: nat, i: nat)
    requires g.Valid() && i < 4 && start < g.size
    requires Eligible(g, start, left, i)
    ensures Eligible(g, start, g.size - start, i)
  {
    ShiftRoundsDown(start, g.sizeLog2[i]);
    BlockInFlash(g, Block(start, g.sizeLog2[i]));
  }

  lemma SameChoiceAtEnd(g: Geometry, start: nat, left: nat)
    requires g.Valid() && start < g.size <= start + left
    ensures ChosenLog2(g, start, left) == ChosenLog2(g, start, g.size - start)
  {
    forall j | 0 <= j <= 3 ensures Eligible(g, start, left, j) <==> Eligible(g, start, g.size - start, j) {
      if Eligible(g, start, left, j) {
        EligibleInFlash(g, start, left, j);
      }
    }
    SameChoice(g, start, left, g.size - start, 3);
  }

  lemma PlanUnfolds(g: Geometry, start: nat, left: nat)
    requires |g.sizeLog2| == 4 && 0 < left && start < g.size
    ensures var b := Block(start, ChosenLog2(g, start, left));
            Plan(g, start, left) == [b] + Plan(g, b.End(), LeftAfter(left, Pow2(b.log2)))
  {}

  /** A range that runs past the end is planned like one that stops there. */
  lemma {:induction false} PlanStopsAtEnd(g: Geometry, start: nat, left: nat)
    requires g.Valid() && OnSector(g, start) && start <= g.size <= start + left
    ensures Plan(g, start, left) == Plan(g, start, g.size - start)
    decreases left
  {
    hide OnSector, TableBlock, ChosenLog2, Plan, Pow2;
    PlanOfNothing(g);
    if start < g.size {
      PlanUnfolds(g, start, left);
      PlanUnfolds(g, start, g.size - start);
      SameChoiceAtEnd(g, start, left);
      var b := Block(start, ChosenLog2(g, start, left));
      FirstBlock(g, start, left, b);
      FirstBlock(g, start, g.size - start, b);
      var after := LeftAfter(left, Pow2(b.log2));
      if b.End() < g.size {
        PlanStopsAtEnd(g, b.End(), after);
      }
    }
  }

  /** A sector larger than the smallest fits between lo and hi and ends at hi. */
  ghost predicate LargerAtEnd(g: Geometry, lo: nat, hi: nat)
    requires |g.sizeLog2| == 4
  {
    exists b :: TableBlock(g, b) && Inside(b, lo, hi) && b.End() == hi && g.sizeLog2[0] < b.log2
  }

  /** hi is the sector boundary just after a range that ends inside a sector. */
  predicate EndsInside(g: Geometry, end: nat, hi: nat)
    requires |g.sizeLog2| == 4
  {
    hi < end + g.Sector() && end < hi
  }

  lemma FewerLeftIsLessEligible(g: Geometry, start: nat, left: nat, more: nat)
    requires g.Valid() && OnSector(g, start) && left <= more
    ensures ChosenLog2(g, start, left) <= ChosenLog2(g, start, more)
    ensures ChosenLog2(g, start, left) < ChosenLog2(g, start, more) ==>
              left < Pow2(ChosenLog2(g, start, more)) <= more
  {
    var k, k' := ChosenLog2(g, start, left), ChosenLog2(g, start, more);
    ChoiceIsTableBlock(g, start, left);
    ChoiceIsTableBlock(g, start, more);
    SectorDividesBlock(g, Block(start, k'));
    if Pow2(k) <= left {
      ChoiceIsLargest(g, start, more, Block(start, k));
    }
    if Pow2(k') <= left {
      ChoiceIsLargest(g, start, left, Block(start, k'));
    }
  }

  /** When both choices agree and the smallest sector is the last one. */
  lemma LastSmallSector(g: Geometry, lo: nat, hi: nat, start: nat, left: nat, b: Block)
    requires g.Valid() && OnSector(g, start) && OnSector(g, hi) && 0 < left
    requires lo <= start < hi <= g.size && Boundary(g, lo, hi, start)
    requires EndsInside(g, start + left, hi)
    requires b == Block(start, ChosenLog2(g, start, left)) && left < Pow2(b.log2)
    ensures b.End() == hi && !LargerAtEnd(g, lo, hi)
  {
    ChoiceIsTableBlock(g, start, left);
    assert b.log2 == g.sizeLog2[0];
    assert b.End() == hi by {
      Gap(start, hi, g.Sector());
      SectorDividesBlock(g, b);
      if b.End() < hi {
        Gap(b.End(), hi, g.Sector());
      }
    }
    forall c | TableBlock(g, c) && Inside(c, lo, hi) && c.End() == hi && g.sizeLog2[0] < c.log2 ensures false {
      Pow2Monotone(g.sizeLog2[0] + 1, c.log2);
    }
  }

  /** The two choices differ only where one larger sector would finish the range. */
  lemma FirstDifference(g: Geometry, lo: nat, hi: nat, start: nat, left: nat, b: Block, c: Block)
    requires g.Valid() && OnSector(g, start) && OnSector(g, hi) && 0 < left
    requires lo <= start < hi <= g.size
    requires EndsInside(g, start + left, hi)
    requires b == Block(start, ChosenLog2(g, start, left)) && c == Block(start, ChosenLog2(g, start, hi - start))
    requires b.log2 != c.log2
    ensures c.End() == hi && LargerAtEnd(g, lo, hi)
    ensures Pow2(b.log2) < left && b.End() < hi
  {
    FewerLeftIsLessEligible(g, start, left, hi - start);
    ChoiceIsTableBlock(g, start, left);
    ChoiceIsTableBlock(g, start, hi - start);
    SectorDividesBlock(g, b);
    SectorDividesBlock(g, c);
    Pow2Monotone(b.log2 + 1, c.log2);
    if c.End() < hi {
      Gap(c.End(), hi, g.Sector());
    }
    assert Inside(c, lo, hi);
    Gap(b.End(), hi, g.Sector());
  }

  /** A range that ends inside a sector is planned like the rounded one, unless a larger
      sector could have finished it: then the plan is longer. */
  lemma {:induction false} PlanForPartialSector(g: Geometry, lo: nat, hi: nat, start: nat, left: nat)
    requires g.Valid() && OnSector(g, start) && OnSector(g, hi)
    requires lo <= start < hi <= g.size && Boundary(g, lo, hi, start)
    requires EndsInside(g, start + left, hi)
    ensures PartialSectorPlan(g, lo, hi, start, left)
    decreases left
  {
    hide OnSector, TableBlock, ChosenLog2, Boundary, EndsInside, PartialSectorPlan;
    SomethingLeft(g, start, left, hi);
    var b, c := Block(start, ChosenLog2(g, start, left)), Block(start, ChosenLog2(g, start, hi - start));
    if b.log2 != c.log2 {
      PlansPart(g, lo, hi, start, left);
    } else if left < Pow2(b.log2) {
      PlansEnd(g, lo, hi, start, left);
    } else {
      FirstBlock(g, start, left, b);
      NextBoundary(g, lo, hi, start, c);
      EndsBeforeRange(g, start, left, hi, b);
      PlanForPartialSector(g, lo, hi, b.End(), left - Pow2(b.log2));
      PlansAgree(g, lo, hi, start, left);
    }
  }

  ghost predicate PartialSectorPlan(g: Geometry, lo: nat, hi: nat, start: nat, left: nat)
    requires |g.sizeLog2| == 4 && start <= hi
  {
    if LargerAtEnd(g, lo, hi) then |Plan(g, start, hi - start)| < |Plan(g, start, left)|
    else Plan(g, start, left) == Plan(g, start, hi - start)
  }

  lemma PlansPart(g: Geometry, lo: nat, hi: nat, start: nat, left: nat)
    requires g.Valid() && OnSector(g, start) && OnSector(g, hi) && 0 < left
    requires lo <= start < hi <= g.size && EndsInside(g, start + left, hi)
    requires ChosenLog2(g, start, left) != ChosenLog2(g, start, hi - start)
    ensures PartialSectorPlan(g, lo, hi, start, left)
  {
    hide OnSector, TableBlock, ChosenLog2, LargerAtEnd, Plan, EndsInside, Pow2;
    var b, c := Block(start, ChosenLog2(g, start, left)), Block(start, ChosenLog2(g, start, hi - start));
    PlanUnfolds(g, start, left);
    PlanUnfolds(g, start, hi - start);
    FirstDifference(g, lo, hi, start, left, b, c);
    PlanOfNothing(g);
    assert Plan(g, c.End(), LeftAfter(hi - start, Pow2(c.log2))) == [];
    assert Plan(g, b.End(), LeftAfter(left, Pow2(b.log2))) != [];
  }

  lemma PlansEnd(g: Geometry, lo: nat, hi: nat, start: nat, left: nat)
    requires g.Valid() && OnSector(g, start) && OnSector(g, hi) && 0 < left
    requires lo <= start < hi <= g.size && Boundary(g, lo, hi, start) && EndsInside(g, start + left, hi)
    requires ChosenLog2(g, start, left) == ChosenLog2(g, start, hi - start)
    requires left < Pow2(ChosenLog2(g, start, left))
    ensures PartialSectorPlan(g, lo, hi, start, left)
  {
    hide OnSector, TableBlock, ChosenLog2, LargerAtEnd, Plan, EndsInside, Boundary, Pow2;
    var b := Block(start, ChosenLog2(g, start, left));
    PlanUnfolds(g, start, left);
    PlanUnfolds(g, start, hi - start);
    LastSmallSector(g, lo, hi, start, left, b);
    EmptyPlan(g, hi);
  }

  lemma PlansAgree(g: Geometry, lo: nat, hi: nat, start: nat, left: nat)
    requires |g.sizeLog2| == 4 && 0 < left && lo <= start < hi <= g.size
    requires ChosenLog2(g, start, left) == ChosenLog2(g, start, hi - start)
    requires var size := Pow2(ChosenLog2(g, start, left));
             && size <= left && start + size < hi
             && PartialSectorPlan(g, lo, hi, start + size, left - size)
    ensures PartialSectorPlan(g, lo, hi, start, left)
  {
    hide OnSector, TableBlock, ChosenLog2, LargerAtEnd, Plan, Pow2;
    PlanUnfolds(g, start, left);
    PlanUnfolds(g, start, hi - start);
  }

  lemma SomethingLeft(g: Geometry, start: nat, left: nat, hi: nat)
    requires g.Valid() && OnSector(g, start) && OnSector(g, hi) && start < hi
    requires EndsInside(g, start + left, hi)
    ensures 0 < left
  {
    Gap(start, hi, g.Sector());
  }

  lemma EndsBeforeRange(g: Geometry, start: nat, left: nat, hi: nat, b: Block)
    requires |g.sizeLog2| == 4 && EndsInside(g, start + left, hi)
    requires b.start == start && Pow2(b.log2) <= left
    ensures b.End() < hi && EndsInside(g, b.End() + (left - Pow2(b.log2)), hi)
  {}

  lemma PlanOfNothing(g: Geometry)
    requires |g.sizeLog2| == 4
    ensures forall start: nat :: Plan(g, start, 0) == []
    ensures forall start: nat, left: nat :: g.size <= start ==> Plan(g, start, left) == []
    ensures forall start: nat, left: nat :: 0 < left && start < g.size ==> Plan(g, start, left) != []
  {}

  /** Where the erased range ends: on a sector boundary, inside the flash. */
  function RangeEnd(g: Geometry, start: nat, left: nat): nat
    requires |g.sizeLog2| == 4
  {
    var up := AlignUp(start + left, g.Sector());
    if up <= g.size then up else g.size
  }

  /** When the plan is as short as possible. */
  ghost predicate EndsWell(g: Geometry, start: nat, left: nat)
    requires |g.sizeLog2| == 4
  {
    || OnSector(g, start + left)
    || g.size <= start + left
    || !LargerAtEnd(g, start, RangeEnd(g, start, left))
  }

  /** Every cover of [start, hi) takes at least n commands. */
  ghost predicate NoShorterCover(g: Geometry, start: nat, hi: nat, n: nat)
    requires |g.sizeLog2| == 4
  {
    forall cover | Cover(g, cover, start, hi, start) :: n <= |cover|
  }

  /** The driver's command sequence is as short as any that stays in the erased range. */
  ghost predicate Shortest(g: Geometry, start: nat, left: nat)
    requires |g.sizeLog2| == 4
  {
    NoShorterCover(g, start, RangeEnd(g, start, left), |Plan(g, start, left)|)
  }

  lemma RoundedPlanIsShortest(g: Geometry, start: nat, hi: nat)
    requires g.Valid() && OnSector(g, start) && OnSector(g, hi) && start <= hi <= g.size
    ensures forall n: nat :: NoShorterCover(g, start, hi, n) <==> n <= |Plan(g, start, hi - start)|
  {
    hide OnSector, Plan;
    forall cover | Cover(g, cover, start, hi, start) ensures |Plan(g, start, hi - start)| <= |cover| {
      PlanIsShortest(g, start, hi, start, cover);
    }
    PlanIsCover(g, start, hi, start);
    hide Cover;
  }

  lemma FlashEndsOnSector(g: Geometry)
    requires g.Valid()
    ensures OnSector(g, g.size)
  {}

  /** No sequence of sector erases inside the erased range is shorter than the driver's,
      exactly when the range ends well. */
  lemma GreedyIsShortestIff(g: Geometry, start: nat, left: nat)
    requires g.Valid() && OnSector(g, start) && start < g.size && 0 < left
    ensures Shortest(g, start, left) <==> EndsWell(g, start, left)
  {
    hide OnSector, Plan, NoShorterCover, LargerAtEnd, Boundary;
    var hi := RangeEnd(g, start, left);
    RangeEndBounds(g, start, left);
    RoundedPlanIsShortest(g, start, hi);
    if g.size <= start + left {
      PlanStopsAtEnd(g, start, left);
    } else if !OnSector(g, start + left) {
      AlwaysBoundary(g, start, hi);
      PlanForPartialSector(g, start, hi, start, left);
    }
  }

  lemma AlwaysBoundary(g: Geometry, lo: nat, hi: nat)
    requires |g.sizeLog2| == 4
    ensures Boundary(g, lo, hi, lo)
  {}

  lemma RangeEndBounds(g: Geometry, start: nat, left: nat)
    requires g.Valid() && OnSector(g, start) && start < g.size && 0 < left
    ensures var hi := RangeEnd(g, start, left);
            && OnSector(g, hi) && start < hi <= g.size
            && (g.size <= start + left ==> hi == g.size)
            && (start + left < g.size && OnSector(g, start + left) ==> hi == start + left)
            && (start + left < g.size && !OnSector(g, start + left) ==> EndsInside(g, start + left, hi))
  {
    AlignUpBounds(start + left, g.Sector());
    FlashEndsOnSector(g);
    if OnSector(g, start + left) {
      OnSectorAlignUp(g, start + left);
    }
    if start + left < g.size < AlignUp(start + left, g.Sector()) {
      Gap(g.size, AlignUp(start + left, g.Sector()), g.Sector());
    }
  }

  /** A chip of a megabyte with sectors of 4 and 64 kilobytes. */
  const EXAMPLE := Geometry(0x10_0000, 256, [12, 16, 0, 0])

  lemma ExampleIsValid()
    ensures EXAMPLE.Valid() && Pow2(12) == 0x1000 && Pow2(16) == 0x1_0000
  {
    assert Pow2(8) == 256;
    Pow2Adds(8, 4);
    Pow2Adds(8, 8);
    assert Pow2(4) == 16;
    assert IsPow2(256);
  }

  /** A range that ends badly: all but the last byte of a 64 KiB sector, erased 4 KiB at a time. */
  lemma NotShortestExample()
    ensures EXAMPLE.Valid() && !Shortest(EXAMPLE, 0, 0xFFFF)
  {
    hide Pow2, Shortest;
    ExampleIsValid();
    var g := EXAMPLE;
    AlignUpIs(0xFFFF, 0x1000, 0x1_0000);
    var b := Block(0, 16);
    assert b.log2 in g.sizeLog2 by { assert g.sizeLog2[1] == 16; }
    assert TableBlock(g, b) && Inside(b, 0, 0x1_0000) && b.End() == 0x1_0000;
    GreedyIsShortestIff(g, 0, 0xFFFF);
  }
}
