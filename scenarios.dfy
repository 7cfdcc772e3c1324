/** Concrete generations of the Universe: the 3 x 3 grid's default seed and
    its successor, and a blinker oscillating with period two on a 4 x 4
    torus. A pattern is described cell by cell by a predicate, and the rule
    is checked one row at a time from the neighbour counts of that row. */
module Scenarios {
  import opened Grid
  import opened Game

  /** The 3 x 3 default seed: positions 0, 2, 4, 6 and 8 are even and 7 is a
      multiple of 7, so only 1, 3 and 5 start dead. */
  ghost predicate IsSeed3x3(cells: seq<bool>) {
    && |cells| == 9
    && cells[0] && !cells[1] && cells[2]
    && !cells[3] && cells[4] && !cells[5]
    && cells[6] && cells[7] && cells[8]
  }

  /** Nine dead cells. */
  ghost predicate IsEmpty3x3(cells: seq<bool>) {
    && |cells| == 9
    && !cells[0] && !cells[1] && !cells[2]
    && !cells[3] && !cells[4] && !cells[5]
    && !cells[6] && !cells[7] && !cells[8]
  }

  const Seed3x3: seq<bool> := [ true, false, true,
                               false, true, false,
                               true, true, true ]
  const Empty3x3: seq<bool> := [ false, false, false,
                                false, false, false,
                                false, false, false ]

  /** Row 0: the neighbour counts are 5, 6, 5. */
  lemma SeedRow0(cells: seq<bool>, next: seq<bool>)
    requires IsSeed3x3(cells) && IsEmpty3x3(next)
    ensures RowFollowsRule(cells, next, 3, 3, 0)
  {
  }

  /** Row 1: the neighbour counts are 6, 5, 6. */
  lemma SeedRow1(cells: seq<bool>, next: seq<bool>)
    requires IsSeed3x3(cells) && IsEmpty3x3(next)
    ensures RowFollowsRule(cells, next, 3, 3, 1)
  {
  }

  /** Row 2: the neighbour counts are 5, 5, 5. */
  lemma SeedRow2(cells: seq<bool>, next: seq<bool>)
    requires IsSeed3x3(cells) && IsEmpty3x3(next)
    ensures RowFollowsRule(cells, next, 3, 3, 2)
  {
  }

  /** On a 3 x 3 torus every cell neighbours all eight others: each live cell of
      the seed sees five live neighbours and dies of overcrowding, and each dead
      one sees six and stays dead. */
  lemma SeedFollowsRule(cells: seq<bool>, next: seq<bool>)
    requires IsSeed3x3(cells) && IsEmpty3x3(next)
    ensures FollowsRule(cells, next, 3, 3)
  {
    SeedRow0(cells, next);
    SeedRow1(cells, next);
    SeedRow2(cells, next);
    forall row: nat | row < 3
      ensures RowFollowsRule(cells, next, 3, 3, row)
    {
      assert row == 0 || row == 1 || row == 2;
    }
    FollowsRuleByRows(cells, next, 3, 3);
  }

  /** One generation of the 3 x 3 default seed leaves every cell dead. */
  lemma ThreeByThreeDiesOut()
    ensures Step(Seed3x3, 3, 3) == Empty3x3
  {
    SeedFollowsRule(Seed3x3, Empty3x3);
    RuleDeterminesStep(Seed3x3, Empty3x3, 3, 3);
  }

  /** A blinker's horizontal phase: cells 1 to 3 of row 2 alive. */
  ghost predicate IsHorizontal(cells: seq<bool>) {
    && |cells| == 16
    && !cells[0] && !cells[1] && !cells[2] && !cells[3]
    && !cells[4] && !cells[5] && !cells[6] && !cells[7]
    && !cells[8] && cells[9] && cells[10] && cells[11]
    && !cells[12] && !cells[13] && !cells[14] && !cells[15]
  }

  /** A blinker's vertical phase: rows 1 to 3 of column 2 alive. */
  ghost predicate IsVertical(cells: seq<bool>) {
    && |cells| == 16
    && !cells[0] && !cells[1] && !cells[2] && !cells[3]
    && !cells[4] && !cells[5] && cells[6] && !cells[7]
    && !cells[8] && !cells[9] && cells[10] && !cells[11]
    && !cells[12] && !cells[13] && cells[14] && !cells[15]
  }

  const Horizontal: seq<bool> := [ false, false, false, false,
                                 false, false, false, false,
                                 false, true, true, true,
                                 false, false, false, false ]
  const Vertical: seq<bool> := [ false, false, false, false,
                               false, false, true, false,
                               false, false, true, false,
                               false, false, true, false ]

  /** Row 0: the neighbour counts are 0, 0, 0, 0. */
  lemma HorizontalRow0(cells: seq<bool>, next: seq<bool>)
    requires IsHorizontal(cells) && IsVertical(next)
    ensures RowFollowsRule(cells, next, 4, 4, 0)
  {
  }

  /** Row 1: the neighbour counts are 2, 2, 3, 2. */
  lemma HorizontalRow1(cells: seq<bool>, next: seq<bool>)
    requires IsHorizontal(cells) && IsVertical(next)
    ensures RowFollowsRule(cells, next, 4, 4, 1)
  {
  }

  /** Row 2: the neighbour counts are 2, 1, 2, 1. */
  lemma HorizontalRow2(cells: seq<bool>, next: seq<bool>)
    requires IsHorizontal(cells) && IsVertical(next)
    ensures RowFollowsRule(cells, next, 4, 4, 2)
  {
  }

  /** Row 3: the neighbour counts are 2, 2, 3, 2. */
  lemma HorizontalRow3(cells: seq<bool>, next: seq<bool>)
    requires IsHorizontal(cells) && IsVertical(next)
    ensures RowFollowsRule(cells, next, 4, 4, 3)
  {
  }

  /** The ends of the horizontal bar die of loneliness, its middle survives with
      two neighbours, and the cells above and below the middle are born with
      three. */
  lemma HorizontalFollowsRule(cells: seq<bool>, next: seq<bool>)
    requires IsHorizontal(cells) && IsVertical(next)
    ensures FollowsRule(cells, next, 4, 4)
  {
    HorizontalRow0(cells, next);
    HorizontalRow1(cells, next);
    HorizontalRow2(cells, next);
    HorizontalRow3(cells, next);
    forall row: nat | row < 4
      ensures RowFollowsRule(cells, next, 4, 4, row)
    {
      assert row == 0 || row == 1 || row == 2 || row == 3;
    }
    FollowsRuleByRows(cells, next, 4, 4);
  }

  /** Row 0: the neighbour counts are 0, 2, 2, 2. */
  lemma VerticalRow0(cells: seq<bool>, next: seq<bool>)
    requires IsVertical(cells) && IsHorizontal(next)
    ensures RowFollowsRule(cells, next, 4, 4, 0)
  {
  }

  /** Row 1: the neighbour counts are 0, 2, 1, 2. */
  lemma VerticalRow1(cells: seq<bool>, next: seq<bool>)
    requires IsVertical(cells) && IsHorizontal(next)
    ensures RowFollowsRule(cells, next, 4, 4, 1)
  {
  }

  /** Row 2: the neighbour counts are 0, 3, 2, 3. */
  lemma VerticalRow2(cells: seq<bool>, next: seq<bool>)
    requires IsVertical(cells) && IsHorizontal(next)
    ensures RowFollowsRule(cells, next, 4, 4, 2)
  {
  }

  /** Row 3: the neighbour counts are 0, 2, 1, 2. */
  lemma VerticalRow3(cells: seq<bool>, next: seq<bool>)
    requires IsVertical(cells) && IsHorizontal(next)
    ensures RowFollowsRule(cells, next, 4, 4, 3)
  {
  }

  /** The same rule turns the vertical bar back into the horizontal one. */
  lemma VerticalFollowsRule(cells: seq<bool>, next: seq<bool>)
    requires IsVertical(cells) && IsHorizontal(next)
    ensures FollowsRule(cells, next, 4, 4)
  {
    VerticalRow0(cells, next);
    VerticalRow1(cells, next);
    VerticalRow2(cells, next);
    VerticalRow3(cells, next);
    forall row: nat | row < 4
      ensures RowFollowsRule(cells, next, 4, 4, row)
    {
      assert row == 0 || row == 1 || row == 2 || row == 3;
    }
    FollowsRuleByRows(cells, next, 4, 4);
  }

  /** The horizontal phase turns into the vertical one. */
  lemma HorizontalFlips()
    ensures Step(Horizontal, 4, 4) == Vertical
  {
    HorizontalFollowsRule(Horizontal, Vertical);
    RuleDeterminesStep(Horizontal, Vertical, 4, 4);
  }

  /** The vertical phase turns back into the horizontal one. */
  lemma VerticalFlips()
    ensures Step(Vertical, 4, 4) == Horizontal
  {
    VerticalFollowsRule(Vertical, Horizontal);
    RuleDeterminesStep(Vertical, Horizontal, 4, 4);
  }

  /** The blinker alternates between its two phases forever. */
  lemma BlinkerPeriodTwo(n: nat)
    ensures Generations(Horizontal, 4, 4, n) == if n % 2 == 0 then Horizontal else Vertical
  {
    HorizontalFlips();
    VerticalFlips();
    Oscillates(Horizontal, Vertical, 4, 4, n);
  }

  /** A Universe built as 3 x 3 shows the default seed, and one tick later
      shows only dead cells. */
  method ThreeByThreeUniverse() returns (u: Universe)
    ensures u.Valid() && u.width == 3 && u.height == 3
    ensures u.Cells() == Empty3x3
  {
    u := new Universe(3, 3);
    assert u.Cells() == Seed3x3;
    u.Tick();
    ThreeByThreeDiesOut();
  }
}
