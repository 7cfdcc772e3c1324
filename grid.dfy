/** The pure part of the Universe: row-major indexing of a width x height
    grid, toroidal wrap-around of rows and columns, the neighbour count and
    the Game of Life rule, and the synchronous step they define together. */
module Grid {

  /** One more than the largest value of Rust's `u32`. */
  const U32_LIMIT: int := 0x1_0000_0000

  /** The source's unsigned 32-bit integers. */
  type u32 = x: int | 0 <= x < U32_LIMIT

  /** `a` is `q` times `n` plus `r` with `0 <= r < n`: so `q` and `r` are
      the Euclidean quotient and remainder of `a` by `n`. */
  lemma DivModOf(a: int, n: nat, q: int, r: int)
    requires n > 0 && 0 <= r < n && a == q * n + r
    ensures a / n == q && a % n == r
  {
    var q', r' := a / n, a % n;
    assert (q' - q) * n == r - r';
    MulMonotone(1, q' - q, n);
    MulMonotone(1, q - q', n);
  }

  /** Multiplying by a natural number preserves order. */
  lemma MulMonotone(a: int, b: int, c: nat)
    ensures a <= b ==> a * c <= b * c
  {
  }

  /** `get_index`: the flat row-major position of cell (row, col). It lies
      inside the buffer, so the source's `u32` arithmetic never wraps while
      the buffer length fits in a `u32`. */
  function GetIndex(width: nat, height: nat, row: nat, col: nat): (i: nat)
    requires row < height && col < width
    ensures i < width * height
  {
    MulMonotone(row, height - 1, width);
    assert (height - 1) * width + width == width * height;
    row * width + col
  }

  /** A position decodes back to its coordinates: the row is the quotient
      and the column the remainder of the index by `width`. */
  lemma IndexDecode(width: nat, height: nat, row: nat, col: nat)
    requires row < height && col < width
    ensures GetIndex(width, height, row, col) / width == row
    ensures GetIndex(width, height, row, col) % width == col
  {
    DivModOf(row * width + col, width, row, col);
  }

  /** Every position of the buffer is the index of the coordinates it decodes
      to: GetIndex is onto as well as one-to-one. */
  lemma IndexOfPosition(width: nat, height: nat, i: nat)
    requires i < width * height
    ensures width > 0 && i / width < height && i % width < width
    ensures GetIndex(width, height, i / width, i % width) == i
  {
  }

  /** Distinct in-range coordinates give distinct indices. */
  lemma IndexInjective(width: nat, height: nat, r1: nat, c1: nat, r2: nat, c2: nat)
    requires r1 < height && c1 < width && r2 < height && c2 < width
    ensures GetIndex(width, height, r1, c1) == GetIndex(width, height, r2, c2)
            <==> r1 == r2 && c1 == c2
  {
    IndexDecode(width, height, r1, c1);
    IndexDecode(width, height, r2, c2);
  }

  /** The row north of `x` (the column west of `x`) on a ring of `n`. It is `x`
      itself exactly when the ring has one element. */
  function Prev(n: nat, x: nat): (r: nat)
    requires x < n
    ensures r < n
    ensures r == x <==> n == 1
  {
    if x == 0 then n - 1 else x - 1
  }

  /** The row south of `x` (the column east of `x`) on a ring of `n`. It is `x`
      itself exactly when the ring has one element. */
  function Next(n: nat, x: nat): (r: nat)
    requires x < n
    ensures r < n
    ensures r == x <==> n == 1
  {
    if x == n - 1 then 0 else x + 1
  }

  /** Stepping south undoes stepping north and the other way round. */
  lemma PrevNextInverse(n: nat, x: nat)
    requires x < n
    ensures Next(n, Prev(n, x)) == x && Prev(n, Next(n, x)) == x
  {
  }

  /** A cell's state as the number it adds to a count (`as u8`). */
  function Bit(alive: bool): (n: nat)
    ensures n <= 1 && (n == 1 <==> alive)
  {
    if alive then 1 else 0
  }

  /** `count`: the number of live cells among the eight wrapped neighbours of
      (row, col), read from `cells` only: north-west, north, north-east,
      west, east, south-west, south and south-east, in the order the source
      sums them. A neighbour reached twice (on a grid one row or one column
      wide) is counted twice. */
  function Count(cells: seq<bool>, width: nat, height: nat, row: nat, col: nat): (c: nat)
    requires |cells| == width * height
    requires row < height && col < width
    ensures c <= 8
  {
    var north, south := Prev(height, row), Next(height, row);
    var west, east := Prev(width, col), Next(width, col);
    Bit(cells[GetIndex(width, height, north, west)]) + Bit(cells[GetIndex(width, height, north, col)])
    + Bit(cells[GetIndex(width, height, north, east)]) + Bit(cells[GetIndex(width, height, row, west)])
    + Bit(cells[GetIndex(width, height, row, east)]) + Bit(cells[GetIndex(width, height, south, west)])
    + Bit(cells[GetIndex(width, height, south, col)]) + Bit(cells[GetIndex(width, height, south, east)])
  }

  /** The number of entries of `ps` whose cell is alive; an entry listed
      twice is counted twice. */
  function LiveAmong(cells: seq<bool>, ps: seq<nat>): (c: nat)
    requires forall k :: 0 <= k < |ps| ==> ps[k] < |cells|
    ensures c <= |ps|
  {
    if ps == [] then 0 else Bit(cells[ps[0]]) + LiveAmong(cells, ps[1..])
  }

  /** The count is positive exactly when some listed position is alive. */
  lemma {:induction false} LiveAmongPositive(cells: seq<bool>, ps: seq<nat>)
    requires forall k :: 0 <= k < |ps| ==> ps[k] < |cells|
    ensures LiveAmong(cells, ps) > 0 <==> exists k :: 0 <= k < |ps| && cells[ps[k]]
  {
    if ps != [] {
      LiveAmongPositive(cells, ps[1..]);
      if exists k :: 0 <= k < |ps| && cells[ps[k]] {
        var k :| 0 <= k < |ps| && cells[ps[k]];
        if k > 0 {
          assert ps[1..][k - 1] == ps[k];
        }
      }
      if exists k :: 0 <= k < |ps[1..]| && cells[ps[1..][k]] {
        var k :| 0 <= k < |ps[1..]| && cells[ps[1..][k]];
        assert cells[ps[k + 1]];
      }
    }
  }

  /** Over eight positions the count is the sum of their eight bits. */
  lemma LiveAmongEight(cells: seq<bool>, ps: seq<nat>)
    requires |ps| == 8 && forall k :: 0 <= k < |ps| ==> ps[k] < |cells|
    ensures LiveAmong(cells, ps)
            == Bit(cells[ps[0]]) + Bit(cells[ps[1]]) + Bit(cells[ps[2]]) + Bit(cells[ps[3]])
               + Bit(cells[ps[4]]) + Bit(cells[ps[5]]) + Bit(cells[ps[6]]) + Bit(cells[ps[7]])
  {
    forall k | 0 <= k < 8
      ensures LiveAmong(cells, ps[k..]) == Bit(cells[ps[k]]) + LiveAmong(cells, ps[k + 1..])
    {
      assert ps[k..][0] == ps[k] && ps[k..][1..] == ps[k + 1..];
    }
    assert ps[0..] == ps && ps[8..] == [];
  }

  /** The eight displacements (row, column) of the Moore neighbourhood, in
      the order Count reads them. */
  const Offsets: seq<(int, int)> :=
    [(-1, -1), (-1, 0), (-1, 1), (0, -1), (0, 1), (1, -1), (1, 0), (1, 1)]

  /** The flat position of the cell `dr` rows and `dc` columns away from
      (row, col) on the torus, by Euclidean remainder. */
  function TorusIndex(width: nat, height: nat, row: nat, col: nat, dr: int, dc: int): (i: nat)
    requires row < height && col < width
    ensures i < width * height
  {
    GetIndex(width, height, (row + dr) % height, (col + dc) % width)
  }

  /** An independent description of the neighbourhood: the cells at the
      eight displacements, with rows taken modulo `height` and columns
      modulo `width`. */
  function TorusNeighbours(width: nat, height: nat, row: nat, col: nat): (ns: seq<nat>)
    requires row < height && col < width
    ensures |ns| == |Offsets|
    ensures forall k :: 0 <= k < |ns| ==> ns[k] < width * height
  {
    seq(|Offsets|, k requires 0 <= k < |Offsets| =>
      TorusIndex(width, height, row, col, Offsets[k].0, Offsets[k].1))
  }

  /** The source's step of `d` in {-1, 0, 1} along a ring of `n`: north or
      west for -1, staying put for 0, south or east for 1. */
  function Shift(n: nat, x: nat, d: int): (r: nat)
    requires x < n && -1 <= d <= 1
    ensures r < n
  {
    if d < 0 then Prev(n, x) else if d == 0 then x else Next(n, x)
  }

  /** Moving `d` in {-1, 0, 1} along a ring of `n` by Euclidean remainder
      is the source's wrapped step: Prev is the Euclidean `(x - 1) mod n`
      and Next is `(x + 1) mod n`. */
  lemma WrapStep(n: nat, x: nat, d: int)
    requires x < n && -1 <= d <= 1
    ensures (x + d) % n == Shift(n, x, d)
  {
  }

  /** The `k`-th toroidal neighbour is the cell the source reaches with its
      boundary tests for the same displacement. */
  lemma TorusNeighbourAt(width: nat, height: nat, row: nat, col: nat, k: nat)
    requires row < height && col < width && k < |Offsets|
    ensures TorusNeighbours(width, height, row, col)[k]
            == GetIndex(width, height, Shift(height, row, Offsets[k].0), Shift(width, col, Offsets[k].1))
  {
    WrapStep(height, row, Offsets[k].0);
    WrapStep(width, col, Offsets[k].1);
  }

  /** The source's four-way boundary tests compute exactly the modular
      neighbourhood, so `count` is the number of live cells at the eight
      toroidal displacements. */
  lemma CountIsTorusCount(cells: seq<bool>, width: nat, height: nat, row: nat, col: nat)
    requires |cells| == width * height
    requires row < height && col < width
    ensures Count(cells, width, height, row, col)
            == LiveAmong(cells, TorusNeighbours(width, height, row, col))
  {
    var ts := TorusNeighbours(width, height, row, col);
    forall k | 0 <= k < |Offsets|
      ensures ts[k] == GetIndex(width, height, Shift(height, row, Offsets[k].0), Shift(width, col, Offsets[k].1))
    {
      TorusNeighbourAt(width, height, row, col, k);
    }
    LiveAmongEight(cells, ts);
  }

  /** A cell is a neighbour of itself, once through each wrap, exactly on a
      grid one row high or one column wide. */
  lemma {:induction false} SelfNeighbour(width: nat, height: nat, row: nat, col: nat)
    requires row < height && col < width
    ensures GetIndex(width, height, row, col) in TorusNeighbours(width, height, row, col)
            <==> width == 1 || height == 1
  {
    var ts := TorusNeighbours(width, height, row, col);
    var i := GetIndex(width, height, row, col);
    forall k | 0 <= k < |Offsets| ensures ts[k] == i ==> width == 1 || height == 1 {
      var (dr, dc) := Offsets[k];
      assert dr != 0 || dc != 0;
      TorusNeighbourAt(width, height, row, col, k);
      IndexInjective(width, height, Shift(height, row, dr), Shift(width, col, dc), row, col);
    }
    if height == 1 {
      TorusNeighbourAt(width, height, row, col, 1);
    } else if width == 1 {
      TorusNeighbourAt(width, height, row, col, 3);
    }
  }

  /** The grid wraps at its edges: a live cell at (0, 0) is a neighbour of
      the three cells diagonally, vertically and horizontally across the
      border from it. */
  lemma CornerWraps(cells: seq<bool>, width: nat, height: nat)
    requires |cells| == width * height && width > 0 && height > 0
    requires cells[0]
    ensures Count(cells, width, height, height - 1, width - 1) >= 1
    ensures Count(cells, width, height, height - 1, 0) >= 1
    ensures Count(cells, width, height, 0, width - 1) >= 1
  {
  }

  /** The Game of Life rule as the source writes it: a cell is alive next
      generation when it has three live neighbours, or is alive and has
      two. This is the four-rule formulation: a live cell survives with two
      or three neighbours and dies otherwise (under- or overpopulation); a
      dead cell is born with exactly three and stays dead otherwise. */
  function NextCell(alive: bool, count: nat): (next: bool)
    ensures alive && count < 2 ==> !next
    ensures alive && (count == 2 || count == 3) ==> next
    ensures alive && count > 3 ==> !next
    ensures !alive ==> (next <==> count == 3)
  {
    count == 3 || (alive && count == 2)
  }

  /** The cell at flat position `i` in the next generation: a live cell
      survives exactly when it has two or three live neighbours, and a dead
      cell comes alive exactly when it has three. */
  function StepCell(cells: seq<bool>, width: nat, height: nat, i: nat): (next: bool)
    requires |cells| == width * height && i < |cells|
    ensures (IndexOfPosition(width, height, i);
             var c := Count(cells, width, height, i / width, i % width);
             (cells[i] ==> (next <==> c == 2 || c == 3)) && (!cells[i] ==> (next <==> c == 3)))
  {
    IndexOfPosition(width, height, i);
    NextCell(cells[i], Count(cells, width, height, i / width, i % width))
  }

  /** The first `n` cells, in row-major order, of the generation after
      `cells`. */
  function StepPrefix(cells: seq<bool>, width: nat, height: nat, n: nat): (next: seq<bool>)
    requires |cells| == width * height && n <= |cells|
    ensures |next| == n
  {
    if n == 0 then []
    else StepPrefix(cells, width, height, n - 1) + [StepCell(cells, width, height, n - 1)]
  }

  /** Entry `i` of a prefix is the rule applied at position `i`: extending
      the prefix never changes what it already holds. */
  lemma {:induction false} StepPrefixAt(cells: seq<bool>, width: nat, height: nat, n: nat, i: nat)
    requires |cells| == width * height && i < n <= |cells|
    ensures StepPrefix(cells, width, height, n)[i] == StepCell(cells, width, height, i)
  {
    if i < n - 1 {
      StepPrefixAt(cells, width, height, n - 1, i);
    }
  }

  /** One synchronous generation: every cell's next state is computed from
      `cells` alone, so no cell sees a neighbour's new state. */
  function Step(cells: seq<bool>, width: nat, height: nat): (next: seq<bool>)
    requires |cells| == width * height
    ensures |next| == |cells|
  {
    StepPrefix(cells, width, height, |cells|)
  }

  /** The cell (row, col) of the next generation follows the rule applied to
      its own state and its neighbour count in the current generation. */
  lemma StepAt(cells: seq<bool>, width: nat, height: nat, row: nat, col: nat)
    requires |cells| == width * height
    requires row < height && col < width
    ensures Step(cells, width, height)[GetIndex(width, height, row, col)]
            == NextCell(cells[GetIndex(width, height, row, col)], Count(cells, width, height, row, col))
  {
    var i := GetIndex(width, height, row, col);
    IndexDecode(width, height, row, col);
    StepPrefixAt(cells, width, height, |cells|, i);
  }

  /** Every in-range cell of `next` is the rule applied to the same cell of
      `cells` and to its neighbour count in `cells`. */
  ghost predicate FollowsRule(cells: seq<bool>, next: seq<bool>, width: nat, height: nat)
    requires |cells| == width * height && |next| == |cells|
  {
    forall row: nat, col: nat {:trigger Count(cells, width, height, row, col)} ::
      row < height && col < width ==>
      next[GetIndex(width, height, row, col)]
      == NextCell(cells[GetIndex(width, height, row, col)], Count(cells, width, height, row, col))
  }

  /** FollowsRule restricted to one row. */
  ghost predicate RowFollowsRule(cells: seq<bool>, next: seq<bool>, width: nat, height: nat, row: nat)
    requires |cells| == width * height && |next| == |cells| && row < height
  {
    forall col: nat {:trigger Count(cells, width, height, row, col)} ::
      col < width ==>
      next[GetIndex(width, height, row, col)]
      == NextCell(cells[GetIndex(width, height, row, col)], Count(cells, width, height, row, col))
  }

  /** A successor that follows the rule row by row follows it everywhere. */
  lemma FollowsRuleByRows(cells: seq<bool>, next: seq<bool>, width: nat, height: nat)
    requires |cells| == width * height && |next| == |cells|
    requires forall row: nat :: row < height ==> RowFollowsRule(cells, next, width, height, row)
    ensures FollowsRule(cells, next, width, height)
  {
    forall row: nat, col: nat | row < height && col < width
      ensures next[GetIndex(width, height, row, col)]
              == NextCell(cells[GetIndex(width, height, row, col)], Count(cells, width, height, row, col))
    {
      assert RowFollowsRule(cells, next, width, height, row);
    }
  }

  /** The generation after `cells` follows the rule everywhere. */
  lemma StepFollowsRule(cells: seq<bool>, width: nat, height: nat)
    requires |cells| == width * height
    ensures FollowsRule(cells, Step(cells, width, height), width, height)
  {
    forall row: nat, col: nat | row < height && col < width {
      StepAt(cells, width, height, row, col);
    }
  }

  /** Only the generation after `cells` follows the rule everywhere: the
      rule fixes every cell from the current generation alone, which is what
      makes the update synchronous. */
  lemma RuleDeterminesStep(cells: seq<bool>, next: seq<bool>, width: nat, height: nat)
    requires |cells| == width * height && |next| == |cells|
    requires FollowsRule(cells, next, width, height)
    ensures next == Step(cells, width, height)
  {
    var step := Step(cells, width, height);
    forall i | 0 <= i < |next| ensures next[i] == step[i] {
      IndexOfPosition(width, height, i);
      StepPrefixAt(cells, width, height, |cells|, i);
      var row, col := i / width, i % width;
      assert next[GetIndex(width, height, row, col)]
             == NextCell(cells[GetIndex(width, height, row, col)], Count(cells, width, height, row, col));
    }
  }

  /** `n` successive generations. */
  function Generations(cells: seq<bool>, width: nat, height: nat, n: nat): (g: seq<bool>)
    requires |cells| == width * height
    ensures |g| == |cells|
    decreases n
  {
    if n == 0 then cells else Generations(Step(cells, width, height), width, height, n - 1)
  }

  /** A pair of patterns that step into each other oscillates: after `n`
      generations the first pattern is back when `n` is even and has turned
      into the second when `n` is odd. */
  lemma {:induction false} Oscillates(a: seq<bool>, b: seq<bool>, width: nat, height: nat, n: nat)
    requires |a| == width * height && |b| == width * height
    requires Step(a, width, height) == b && Step(b, width, height) == a
    ensures Generations(a, width, height, n) == if n % 2 == 0 then a else b
    decreases n
  {
    if n > 0 {
      assert Generations(a, width, height, n) == Generations(b, width, height, n - 1);
      Oscillates(b, a, width, height, n - 1);
      assert (n - 1) % 2 == 0 <==> n % 2 == 1;
    }
  }
}
