/** The Fibonacci chip: three advice columns `a`, `b`, `c` under the gate `a + b - c`, one
    one-row region per step. The first region takes `a` and `b` from public inputs 0 and 1;
    every later region copies the previous `b` and `c` into its own `a` and `b`. The last `c`
    is bound to public input 2. */
module Fibonacci {
  import opened Field
  import opened Plonk
  import opened Layout

  /** The three advice columns, the gate's selector and the instance column. */
  datatype FibonacciConfig = FibonacciConfig(a: nat, b: nat, c: nat, selector: nat, instance: nat)

  /** The number of `assign_row` calls of `synthesize` (the loop `for _ in 3..10`). */
  const Steps: nat := 7

  /** The sequence the chain computes: `s0`, `s1`, and `s(i+2) = s(i) + s(i+1)`. */
  function Fib(s0: Elem, s1: Elem, i: nat): (r: Elem) {
    if i == 0 then s0
    else if i == 1 then s1
    else Add(Fib(s0, s1, i - 2), Fib(s0, s1, i - 1))
  }

  /** The "add" gate: `selector * (a + b - c)`, all three on the current row. */
  function FibGate(config: FibonacciConfig): (e: Expr) {
    Product(SelectorQuery(config.selector),
            Minus(Sum(AdviceQuery(config.a, 0), AdviceQuery(config.b, 0)), AdviceQuery(config.c, 0)))
  }

  /** The gate constrains only rows where its selector is on, and there it demands
      `a + b == c` on that same row. */
  lemma FibGateIff(g: Grid, config: FibonacciConfig, row: nat)
    requires row < g.n
    ensures g.Eval(FibGate(config), row) == 0 <==>
      !g.IsEnabled(config.selector, row)
      || Add(g.AdviceValue(config.a, row), g.AdviceValue(config.b, row)) == g.AdviceValue(config.c, row)
  {
    g.RotateInside(row, 0);
    var x, y, z := g.AdviceValue(config.a, row), g.AdviceValue(config.b, row), g.AdviceValue(config.c, row);
    var sum := Sum(AdviceQuery(config.a, 0), AdviceQuery(config.b, 0));
    var inner := Minus(sum, AdviceQuery(config.c, 0));
    assert g.Eval(sum, row) == Add(x, y);
    assert g.Eval(Negated(AdviceQuery(config.c, 0)), row) == Neg(z);
    assert g.Eval(inner, row) == Sub(Add(x, y), z);
    var sel := g.Eval(SelectorQuery(config.selector), row);
    assert g.Eval(FibGate(config), row) == Mul(sel, Sub(Add(x, y), z));
    SelectorGuard(sel, Sub(Add(x, y), z));
    SubZeroIff(Add(x, y), z);
  }

  method Configure(cs: ConstraintSystem) returns (config: FibonacciConfig)
    modifies cs
    ensures config == FibonacciConfig(old(cs.numAdvice), old(cs.numAdvice) + 1, old(cs.numAdvice) + 2,
                                      old(cs.numSelectors), old(cs.numInstance))
    ensures cs.numAdvice == old(cs.numAdvice) + 3 && cs.numInstance == old(cs.numInstance) + 1
    ensures cs.numSelectors == old(cs.numSelectors) + 1 && cs.numTables == old(cs.numTables)
    ensures cs.equality == old(cs.equality) + {Advice(config.a), Advice(config.b), Advice(config.c), Instance(config.instance)}
    ensures cs.gates == old(cs.gates) + [Gate("add", [FibGate(config)])]
  {
    var a := cs.AdviceColumn();
    var b := cs.AdviceColumn();
    var c := cs.AdviceColumn();
    var selector := cs.Selector();
    var instance := cs.InstanceColumn();
    cs.EnableEquality(Advice(a));
    cs.EnableEquality(Advice(b));
    cs.EnableEquality(Advice(c));
    cs.EnableEquality(Instance(instance));
    config := FibonacciConfig(a, b, c, selector, instance);
    cs.CreateGate("add", [FibGate(config)]);
  }

  /** The configuration's columns exist in `g`. */
  ghost predicate Fits(g: Grid, config: FibonacciConfig) {
    config.a < g.numAdvice && config.b < g.numAdvice && config.c < g.numAdvice && config.selector < g.numSelectors
  }

  /** The region `assign_initial_values` lays out at `row`. */
  function InitialRegion(g: Grid, config: FibonacciConfig, row: nat): (h: Grid) {
    var x0, x1 := g.InstanceValue(config.instance, 0), g.InstanceValue(config.instance, 1);
    g.WithSelector(config.selector, row)
      .WithAdvice(config.a, row, x0).WithCopy(Copy(Cell(Advice(config.a), row), Cell(Instance(config.instance), 0)))
      .WithAdvice(config.b, row, x1).WithCopy(Copy(Cell(Advice(config.b), row), Cell(Instance(config.instance), 1)))
      .WithAdvice(config.c, row, Add(x0, x1))
      .WithRegion("initial values", row, 1)
  }

  /** The region `assign_row` lays out at `row` from the previous row's `b` and `c` cells. */
  function NextRegion(g: Grid, config: FibonacciConfig, row: nat, prevB: AssignedCell, prevC: AssignedCell): (h: Grid) {
    g.WithSelector(config.selector, row)
      .WithAdvice(config.a, row, prevB.value).WithCopy(Copy(Cell(Advice(config.a), row), prevB.cell))
      .WithAdvice(config.b, row, prevC.value).WithCopy(Copy(Cell(Advice(config.b), row), prevC.cell))
      .WithAdvice(config.c, row, Add(prevB.value, prevC.value))
      .WithRegion("next row", row, 1)
  }

  method AssignInitialValues(layouter: Layouter, config: FibonacciConfig)
    returns (r: Result<(AssignedCell, AssignedCell, AssignedCell)>)
    requires layouter.Valid() && Fits(layouter.grid, config)
    modifies layouter`grid, layouter`cursor
    ensures layouter.Valid()
    ensures r.Ok? <==> old(layouter.cursor) < old(layouter.grid.n) && 1 < old(layouter.grid.n)
                       && Advice(config.a) in layouter.equality && Advice(config.b) in layouter.equality
                       && Instance(config.instance) in layouter.equality
    ensures r.Ok? ==>
      var row := old(layouter.cursor);
      var x0, x1 := old(layouter.grid).InstanceValue(config.instance, 0), old(layouter.grid).InstanceValue(config.instance, 1);
      && layouter.grid == InitialRegion(old(layouter.grid), config, row)
      && layouter.cursor == row + 1
      && r.value == (AssignedCell(Cell(Advice(config.a), row), x0),
                     AssignedCell(Cell(Advice(config.b), row), x1),
                     AssignedCell(Cell(Advice(config.c), row), Add(x0, x1)))
  {
    var row := layouter.cursor;
    var e := layouter.EnableSelector(config.selector, row);
    if e.Err? {
      return Err(e.error);
    }
    var aCell := layouter.AssignAdviceFromInstance(config.instance, 0, config.a, row);
    if aCell.Err? {
      return Err(aCell.error);
    }
    var bCell := layouter.AssignAdviceFromInstance(config.instance, 1, config.b, row);
    if bCell.Err? {
      return Err(bCell.error);
    }
    // The row exists: the selector was enabled on it.
    var cCell := layouter.AssignAdvice(config.c, row, Add(aCell.value.value, bCell.value.value));
    layouter.CloseRegion("initial values", 1);
    r := Ok((aCell.value, bCell.value, cCell.value));
  }

  method AssignRow(layouter: Layouter, config: FibonacciConfig, prevB: AssignedCell, prevC: AssignedCell)
    returns (r: Result<AssignedCell>)
    requires layouter.Valid() && Fits(layouter.grid, config)
    modifies layouter`grid, layouter`cursor
    ensures layouter.Valid()
    ensures r.Ok? <==> old(layouter.cursor) < old(layouter.grid.n)
                       && prevB.cell.row < old(layouter.grid.n) && prevC.cell.row < old(layouter.grid.n)
                       && Advice(config.a) in layouter.equality && prevB.cell.column in layouter.equality
                       && Advice(config.b) in layouter.equality && prevC.cell.column in layouter.equality
    ensures r.Ok? ==>
      var row := old(layouter.cursor);
      && layouter.grid == NextRegion(old(layouter.grid), config, row, prevB, prevC)
      && layouter.cursor == row + 1
      && r.value == AssignedCell(Cell(Advice(config.c), row), Add(prevB.value, prevC.value))
  {
    var row := layouter.cursor;
    var e := layouter.EnableSelector(config.selector, row);
    if e.Err? {
      return Err(e.error);
    }
    var aCell := layouter.CopyAdvice(prevB, config.a, row);
    if aCell.Err? {
      return Err(aCell.error);
    }
    var bCell := layouter.CopyAdvice(prevC, config.b, row);
    if bCell.Err? {
      return Err(bCell.error);
    }
    var cCell := layouter.AssignAdvice(config.c, row, Add(prevB.value, prevC.value));
    layouter.CloseRegion("next row", 1);
    r := Ok(cCell.value);
  }

  method ExposePublic(layouter: Layouter, config: FibonacciConfig, cell: AssignedCell, row: nat)
    returns (r: Result<()>)
    requires layouter.Valid()
    modifies layouter`grid
    ensures layouter.Valid()
    ensures r.Ok? <==> cell.cell.row < old(layouter.grid.n) && row < old(layouter.grid.n)
                       && cell.cell.column in layouter.equality && Instance(config.instance) in layouter.equality
    ensures layouter.grid == if r.Ok? then old(layouter.grid).WithCopy(Copy(cell.cell, Cell(Instance(config.instance), row)))
                             else old(layouter.grid)
  {
    r := layouter.ConstrainInstance(cell.cell, config.instance, row);
  }

  /** The `prev_b` cell before region `j + 1`: the initial region's `b` when `j` is 0, and
      afterwards the `c` cell of region `j - 1` (the loop hands `prev_c` on as `prev_b`). */
  function PrevB(config: FibonacciConfig, start: nat, s0: Elem, s1: Elem, j: nat): (c: AssignedCell) {
    if j == 0 then AssignedCell(Cell(Advice(config.b), start), s1)
    else AssignedCell(Cell(Advice(config.c), start + j - 1), Fib(s0, s1, j + 1))
  }

  /** The `prev_c` cell before region `j + 1`: the `c` cell of region `j`. */
  function PrevC(config: FibonacciConfig, start: nat, s0: Elem, s1: Elem, j: nat): (c: AssignedCell) {
    AssignedCell(Cell(Advice(config.c), start + j), Fib(s0, s1, j + 2))
  }

  /** The table after the initial region at `start` and `j` further regions below it. */
  function Chain(g: Grid, config: FibonacciConfig, start: nat, j: nat): (h: Grid)
    ensures h.n == g.n && h.instance == g.instance && h.numAdvice == g.numAdvice && h.numSelectors == g.numSelectors
  {
    if j == 0 then InitialRegion(g, config, start)
    else
      var s0 := g.InstanceValue(config.instance, 0);
      var s1 := g.InstanceValue(config.instance, 1);
      NextRegion(Chain(g, config, start, j - 1), config, start + j,
                 PrevB(config, start, s0, s1, j - 1), PrevC(config, start, s0, s1, j - 1))
  }

  /** The values the loop hands on follow the sequence: the new `c` is the next term, and the
      old `prev_c` is the new `prev_b`. */
  lemma PrevNext(config: FibonacciConfig, start: nat, s0: Elem, s1: Elem, j: nat)
    ensures var prevB, prevC := PrevB(config, start, s0, s1, j), PrevC(config, start, s0, s1, j);
      && AssignedCell(Cell(Advice(config.c), start + j + 1), Add(prevB.value, prevC.value)) == PrevC(config, start, s0, s1, j + 1)
      && prevC == PrevB(config, start, s0, s1, j + 1)
  {
    assert PrevB(config, start, s0, s1, j).value == Fib(s0, s1, j + 1);
    assert Fib(s0, s1, j + 3) == Add(Fib(s0, s1, j + 1), Fib(s0, s1, j + 2));
  }

  /** The layouter's state after the initial region at `start` and `j` regions below it, with
      the two cells the loop carries on to the next region. */
  ghost predicate AtStep(g0: Grid, config: FibonacciConfig, start: nat, j: nat,
                         grid: Grid, cursor: nat, prevB: AssignedCell, prevC: AssignedCell) {
    var s0 := g0.InstanceValue(config.instance, 0);
    var s1 := g0.InstanceValue(config.instance, 1);
    && Fits(g0, config) && start + j < g0.n
    && grid == Chain(g0, config, start, j) && cursor == start + j + 1
    && prevB == PrevB(config, start, s0, s1, j) && prevC == PrevC(config, start, s0, s1, j)
  }

  /** Region `j + 1` at `start + j + 1`: what `assign_row` does inside the loop. */
  method NextStep(layouter: Layouter, config: FibonacciConfig, start: nat, j: nat,
                  prevB: AssignedCell, prevC: AssignedCell, ghost g0: Grid)
    returns (r: Result<AssignedCell>)
    requires layouter.Valid() && AtStep(g0, config, start, j, layouter.grid, layouter.cursor, prevB, prevC)
    requires Advice(config.a) in layouter.equality && Advice(config.b) in layouter.equality
    requires Advice(config.c) in layouter.equality
    modifies layouter`grid, layouter`cursor
    ensures layouter.Valid()
    ensures r.Ok? <==> start + j + 1 < g0.n
    ensures r.Ok? ==> AtStep(g0, config, start, j + 1, layouter.grid, layouter.cursor, prevC, r.value)
  {
    r := AssignRow(layouter, config, prevB, prevC);
    PrevNext(config, start, g0.InstanceValue(config.instance, 0), g0.InstanceValue(config.instance, 1), j);
  }

  /** The loop of `synthesize`: regions 1 .. Steps, each fed by the two before it. */
  method AssignRows(layouter: Layouter, config: FibonacciConfig, start: nat,
                    prevB0: AssignedCell, prevC0: AssignedCell, ghost g0: Grid)
    returns (r: Result<AssignedCell>)
    requires layouter.Valid() && AtStep(g0, config, start, 0, layouter.grid, layouter.cursor, prevB0, prevC0)
    requires Advice(config.a) in layouter.equality && Advice(config.b) in layouter.equality
    requires Advice(config.c) in layouter.equality
    modifies layouter`grid, layouter`cursor
    ensures layouter.Valid()
    ensures r.Ok? <==> start + Steps < g0.n
    ensures r.Ok? ==> exists prevB :: AtStep(g0, config, start, Steps, layouter.grid, layouter.cursor, prevB, r.value)
  {
    var prevB, prevC := prevB0, prevC0;
    var j := 0;
    while j < Steps
      invariant 0 <= j <= Steps && layouter.Valid()
      invariant AtStep(g0, config, start, j, layouter.grid, layouter.cursor, prevB, prevC)
    {
      var cell := NextStep(layouter, config, start, j, prevB, prevC, g0);
      if cell.Err? {
        return Err(cell.error);
      }
      prevB, prevC := prevC, cell.value;
      j := j + 1;
    }
    r := Ok(prevC);
  }

  method Synthesize(layouter: Layouter, config: FibonacciConfig) returns (r: Result<()>)
    requires layouter.Valid() && Fits(layouter.grid, config)
    requires Advice(config.a) in layouter.equality && Advice(config.b) in layouter.equality
    requires Advice(config.c) in layouter.equality && Instance(config.instance) in layouter.equality
    modifies layouter`grid, layouter`cursor
    ensures layouter.Valid()
    ensures r.Ok? <==> old(layouter.cursor) + Steps < old(layouter.grid.n)
    ensures r.Ok? ==>
      var start := old(layouter.cursor);
      layouter.grid == Chain(old(layouter.grid), config, start, Steps)
                            .WithCopy(Copy(Cell(Advice(config.c), start + Steps), Cell(Instance(config.instance), 2)))
  {
    ghost var g0 := layouter.grid;
    var start := layouter.cursor;
    var init := AssignInitialValues(layouter, config);
    if init.Err? {
      return Err(init.error);
    }
    var (_, prevB, prevC) := init.value;
    assert Fib(g0.InstanceValue(config.instance, 0), g0.InstanceValue(config.instance, 1), 2)
        == Add(g0.InstanceValue(config.instance, 0), g0.InstanceValue(config.instance, 1));
    var last := AssignRows(layouter, config, start, prevB, prevC, g0);
    if last.Err? {
      return Err(last.error);
    }
    r := ExposePublic(layouter, config, last.value, 2);
  }

  /** The equality constraints the chain records, oldest first: the initial region binds its
      `a` and `b` to public inputs 0 and 1; region `i` binds its `a` and `b` to the cells the
      loop carried into it. */
  function ChainCopies(config: FibonacciConfig, start: nat, j: nat): (cs: seq<Copy>)
    ensures |cs| == 2 * j + 2
  {
    if j == 0 then
      [Copy(Cell(Advice(config.a), start), Cell(Instance(config.instance), 0)),
       Copy(Cell(Advice(config.b), start), Cell(Instance(config.instance), 1))]
    else
      ChainCopies(config, start, j - 1)
      + [Copy(Cell(Advice(config.a), start + j), PrevB(config, start, 0, 0, j - 1).cell),
         Copy(Cell(Advice(config.b), start + j), PrevC(config, start, 0, 0, j - 1).cell)]
  }

  /** Rows `start ..= start + j` hold three consecutive terms of the sequence seeded by `s0`
      and `s1`: term `i` in `a`, `i + 1` in `b` and `i + 2` in `c` of row `start + i`. */
  ghost predicate HoldsSequence(g: Grid, config: FibonacciConfig, start: nat, j: nat, s0: Elem, s1: Elem) {
    forall row | start <= row <= start + j ::
      && g.AdviceValue(config.a, row) == Fib(s0, s1, row - start)
      && g.AdviceValue(config.b, row) == Fib(s0, s1, row - start + 1)
      && g.AdviceValue(config.c, row) == Fib(s0, s1, row - start + 2)
  }

  /** Whether rows hold the sequence depends on the advice cells alone. */
  lemma HoldsSequenceFrame(g: Grid, h: Grid, config: FibonacciConfig, start: nat, j: nat, s0: Elem, s1: Elem)
    requires h.advice == g.advice && HoldsSequence(g, config, start, j, s0, s1)
    ensures HoldsSequence(h, config, start, j, s0, s1)
  {
    forall row | start <= row <= start + j
      ensures h.AdviceValue(config.a, row) == g.AdviceValue(config.a, row)
      ensures h.AdviceValue(config.b, row) == g.AdviceValue(config.b, row)
      ensures h.AdviceValue(config.c, row) == g.AdviceValue(config.c, row)
    {
    }
  }

  /** A region writes its own row only: `prevB`, `prevC` and their sum into `a`, `b` and `c`,
      turns the selector on there and records the two copies. */
  lemma NextRegionFacts(g: Grid, config: FibonacciConfig, row: nat, prevB: AssignedCell, prevC: AssignedCell)
    requires config.a != config.b && config.b != config.c && config.a != config.c
    ensures var h := NextRegion(g, config, row, prevB, prevC);
      && h.AdviceValue(config.a, row) == prevB.value && h.AdviceValue(config.b, row) == prevC.value
      && h.AdviceValue(config.c, row) == Add(prevB.value, prevC.value)
      && (forall col: nat, r: nat | r != row :: h.AdviceValue(col, r) == g.AdviceValue(col, r))
      && (forall sel: nat, r: nat :: h.IsEnabled(sel, r) <==> g.IsEnabled(sel, r) || (sel == config.selector && r == row))
      && h.copies == g.copies + [Copy(Cell(Advice(config.a), row), prevB.cell), Copy(Cell(Advice(config.b), row), prevC.cell)]
  {
  }

  /** The initial region writes the two seeds and their sum into its row. */
  lemma InitialRegionFacts(g: Grid, config: FibonacciConfig, row: nat)
    requires config.a != config.b && config.b != config.c && config.a != config.c
    ensures var h := InitialRegion(g, config, row);
      var s0 := g.InstanceValue(config.instance, 0);
      var s1 := g.InstanceValue(config.instance, 1);
      && HoldsSequence(h, config, row, 0, s0, s1)
      && (forall col: nat, r: nat | r != row :: h.AdviceValue(col, r) == g.AdviceValue(col, r))
      && (forall sel: nat, r: nat :: h.IsEnabled(sel, r) <==> g.IsEnabled(sel, r) || (sel == config.selector && r == row))
      && h.copies == g.copies + ChainCopies(config, row, 0)
  {
    assert Fib(g.InstanceValue(config.instance, 0), g.InstanceValue(config.instance, 1), 2)
        == Add(g.InstanceValue(config.instance, 0), g.InstanceValue(config.instance, 1));
  }

  /** Region `j` extends the chain of regions `0 .. j - 1`. */
  lemma ChainStep(g: Grid, config: FibonacciConfig, start: nat, j: nat)
    requires j >= 1
    ensures var s0 := g.InstanceValue(config.instance, 0);
      var s1 := g.InstanceValue(config.instance, 1);
      Chain(g, config, start, j)
        == NextRegion(Chain(g, config, start, j - 1), config, start + j,
                      PrevB(config, start, s0, s1, j - 1), PrevC(config, start, s0, s1, j - 1))
  {
  }

  /** Region `j` below the initial one writes the next three terms into its row and leaves
      every other row as it was. */
  lemma NextRegionSequence(prev: Grid, config: FibonacciConfig, start: nat, j: nat, s0: Elem, s1: Elem)
    requires config.a != config.b && config.b != config.c && config.a != config.c
    requires j >= 1 && HoldsSequence(prev, config, start, j - 1, s0, s1)
    ensures var h := NextRegion(prev, config, start + j, PrevB(config, start, s0, s1, j - 1), PrevC(config, start, s0, s1, j - 1));
      && HoldsSequence(h, config, start, j, s0, s1)
      && forall col: nat, r: nat | r != start + j :: h.AdviceValue(col, r) == prev.AdviceValue(col, r)
  {
    var prevB, prevC := PrevB(config, start, s0, s1, j - 1), PrevC(config, start, s0, s1, j - 1);
    var h := NextRegion(prev, config, start + j, prevB, prevC);
    NextRegionFacts(prev, config, start + j, prevB, prevC);
    assert prevB.value == Fib(s0, s1, j);
    assert Add(prevB.value, prevC.value) == Fib(s0, s1, j + 2);
    SequenceStep(prev, h, config, start, j, s0, s1);
  }

  /** Adding the row `start + j` that holds the next three terms extends the run of rows
      holding the sequence. */
  lemma SequenceStep(prev: Grid, h: Grid, config: FibonacciConfig, start: nat, j: nat, s0: Elem, s1: Elem)
    requires j >= 1 && HoldsSequence(prev, config, start, j - 1, s0, s1)
    requires h.AdviceValue(config.a, start + j) == Fib(s0, s1, j)
    requires h.AdviceValue(config.b, start + j) == Fib(s0, s1, j + 1)
    requires h.AdviceValue(config.c, start + j) == Fib(s0, s1, j + 2)
    requires forall col: nat, r: nat | r != start + j :: h.AdviceValue(col, r) == prev.AdviceValue(col, r)
    ensures HoldsSequence(h, config, start, j, s0, s1)
  {
    forall row | start <= row <= start + j
      ensures h.AdviceValue(config.a, row) == Fib(s0, s1, row - start)
      ensures h.AdviceValue(config.b, row) == Fib(s0, s1, row - start + 1)
      ensures h.AdviceValue(config.c, row) == Fib(s0, s1, row - start + 2)
    {
      if row < start + j {
        assert h.AdviceValue(config.a, row) == prev.AdviceValue(config.a, row);
        assert h.AdviceValue(config.b, row) == prev.AdviceValue(config.b, row);
        assert h.AdviceValue(config.c, row) == prev.AdviceValue(config.c, row);
      }
    }
  }

  /** After the initial region and `j` regions below it, rows `start ..= start + j` hold the
      sequence seeded by public inputs 0 and 1, and every other row is as before. */
  lemma {:induction false} ChainValues(g: Grid, config: FibonacciConfig, start: nat, j: nat)
    requires config.a != config.b && config.b != config.c && config.a != config.c
    ensures var h := Chain(g, config, start, j);
      && HoldsSequence(h, config, start, j, g.InstanceValue(config.instance, 0), g.InstanceValue(config.instance, 1))
      && (forall col: nat, row: nat | row < start || start + j < row :: h.AdviceValue(col, row) == g.AdviceValue(col, row))
  {
    if j == 0 {
      InitialRegionFacts(g, config, start);
    } else {
      ChainValues(g, config, start, j - 1);
      ChainStep(g, config, start, j);
      NextRegionSequence(Chain(g, config, start, j - 1), config, start, j,
                         g.InstanceValue(config.instance, 0), g.InstanceValue(config.instance, 1));
    }
  }

  /** Region `j` turns the selector on at its own row and appends its two equality
      constraints to those of the regions above it. */
  lemma NextRegionConstraints(g: Grid, prev: Grid, config: FibonacciConfig, start: nat, j: nat, s0: Elem, s1: Elem)
    requires config.a != config.b && config.b != config.c && config.a != config.c
    requires j >= 1
    requires forall sel: nat, row: nat ::
      prev.IsEnabled(sel, row) <==> g.IsEnabled(sel, row) || (sel == config.selector && start <= row <= start + j - 1)
    requires prev.copies == g.copies + ChainCopies(config, start, j - 1)
    ensures var h := NextRegion(prev, config, start + j, PrevB(config, start, s0, s1, j - 1), PrevC(config, start, s0, s1, j - 1));
      && (forall sel: nat, row: nat ::
            h.IsEnabled(sel, row) <==> g.IsEnabled(sel, row) || (sel == config.selector && start <= row <= start + j))
      && h.copies == g.copies + ChainCopies(config, start, j)
  {
    var prevB, prevC := PrevB(config, start, s0, s1, j - 1), PrevC(config, start, s0, s1, j - 1);
    NextRegionFacts(prev, config, start + j, prevB, prevC);
    var added := [Copy(Cell(Advice(config.a), start + j), prevB.cell), Copy(Cell(Advice(config.b), start + j), prevC.cell)];
    assert ChainCopies(config, start, j) == ChainCopies(config, start, j - 1) + added;
    assert (g.copies + ChainCopies(config, start, j - 1)) + added == g.copies + (ChainCopies(config, start, j - 1) + added);
  }

  /** The chain turns the selector on at rows `start ..= start + j` and records its equality
      constraints after the earlier ones. */
  lemma {:induction false} ChainConstraints(g: Grid, config: FibonacciConfig, start: nat, j: nat)
    requires config.a != config.b && config.b != config.c && config.a != config.c
    ensures var h := Chain(g, config, start, j);
      && (forall sel: nat, row: nat ::
            h.IsEnabled(sel, row) <==> g.IsEnabled(sel, row) || (sel == config.selector && start <= row <= start + j))
      && h.copies == g.copies + ChainCopies(config, start, j)
  {
    if j == 0 {
      InitialRegionFacts(g, config, start);
    } else {
      ChainConstraints(g, config, start, j - 1);
      ChainStep(g, config, start, j);
      NextRegionConstraints(g, Chain(g, config, start, j - 1), config, start, j,
                            g.InstanceValue(config.instance, 0), g.InstanceValue(config.instance, 1));
    }
  }

  /** Every constraint of the chain holds in a table whose rows `start ..= start + j` hold the
      sequence seeded by its public inputs 0 and 1. */
  lemma {:induction false} ChainCopiesHold(g: Grid, config: FibonacciConfig, start: nat, j: nat)
    requires HoldsSequence(g, config, start, j, g.InstanceValue(config.instance, 0), g.InstanceValue(config.instance, 1))
    ensures forall k | 0 <= k < |ChainCopies(config, start, j)| :: g.CopyHolds(ChainCopies(config, start, j)[k])
  {
    var s0, s1 := g.InstanceValue(config.instance, 0), g.InstanceValue(config.instance, 1);
    var cs := ChainCopies(config, start, j);
    if j == 0 {
      assert g.AdviceValue(config.a, start) == s0 && g.AdviceValue(config.b, start) == Fib(s0, s1, 1);
    } else {
      assert HoldsSequence(g, config, start, j - 1, s0, s1);
      ChainCopiesHold(g, config, start, j - 1);
      var init := ChainCopies(config, start, j - 1);
      assert forall k | 0 <= k < |init| :: cs[k] == init[k];
      assert g.AdviceValue(config.a, start + j) == Fib(s0, s1, j);
      assert g.AdviceValue(config.b, start + j) == Fib(s0, s1, j + 1);
      if j == 1 {
        assert g.AdviceValue(config.b, start) == Fib(s0, s1, 1);
      } else {
        assert g.AdviceValue(config.c, start + j - 2) == Fib(s0, s1, j);
      }
      assert g.AdviceValue(config.c, start + j - 1) == Fib(s0, s1, j + 1);
    }
  }

  /** The configuration `configure` returns on a fresh constraint system. */
  const Config0 := FibonacciConfig(0, 1, 2, 0, 0)

  /** The table `synthesize` fills on a fresh run with `n` rows. */
  function SynthesizedGrid(n: nat, instance: seq<seq<Elem>>): (h: Grid) {
    Chain(Fresh(n, instance, 3, 1, 0), Config0, 0, Steps)
      .WithCopy(Copy(Cell(Advice(Config0.c), Steps), Cell(Instance(Config0.instance), 2)))
  }

  /** What the verification pass needs to know of a table `synthesize` filled on a fresh run:
      rows `0 ..= Steps` hold the sequence seeded by public inputs 0 and 1, the selector is on
      at exactly those rows, and the equality constraints are the chain's followed by the
      binding of the last `c` cell to public input 2. */
  ghost predicate Laid(g: Grid, config: FibonacciConfig) {
    && Steps < g.n
    && HoldsSequence(g, config, 0, Steps, g.InstanceValue(config.instance, 0), g.InstanceValue(config.instance, 1))
    && (forall row: nat :: g.IsEnabled(config.selector, row) <==> row <= Steps)
    && g.copies == ChainCopies(config, 0, Steps) + [Copy(Cell(Advice(config.c), Steps), Cell(Instance(config.instance), 2))]
  }

  /** The chain of `synthesize`, laid from row 0 of a table with no selector on and no
      equality constraint yet, and followed by the binding of its last `c` cell to public
      input 2, leaves the table `Laid`. */
  lemma ChainLaid(g0: Grid, config: FibonacciConfig)
    requires config.a != config.b && config.b != config.c && config.a != config.c
    requires Steps < g0.n && g0.copies == [] && forall sel: nat, row: nat :: !g0.IsEnabled(sel, row)
    ensures Laid(Chain(g0, config, 0, Steps).WithCopy(Copy(Cell(Advice(config.c), Steps), Cell(Instance(config.instance), 2))), config)
  {
    var chain := Chain(g0, config, 0, Steps);
    var g := chain.WithCopy(Copy(Cell(Advice(config.c), Steps), Cell(Instance(config.instance), 2)));
    ChainValues(g0, config, 0, Steps);
    ChainConstraints(g0, config, 0, Steps);
    HoldsSequenceFrame(chain, g, config, 0, Steps, g0.InstanceValue(config.instance, 0), g0.InstanceValue(config.instance, 1));
    forall row: nat
      ensures g.IsEnabled(config.selector, row) <==> row <= Steps
    {
      assert g.IsEnabled(config.selector, row) == chain.IsEnabled(config.selector, row);
      assert !g0.IsEnabled(config.selector, row);
    }
    assert chain.copies == ChainCopies(config, 0, Steps);
  }

  lemma SynthesizedLayout(n: nat, instance: seq<seq<Elem>>)
    requires Steps < n
    ensures var g := SynthesizedGrid(n, instance);
      g.n == n && g.instance == instance && Laid(g, Config0)
  {
    ChainLaid(Fresh(n, instance, 3, 1, 0), Config0);
  }

  /** The "add" gate vanishes on every row of such a table. */
  lemma LaidGates(g: Grid, config: FibonacciConfig)
    requires Laid(g, config)
    ensures g.GatesHold([Gate("add", [FibGate(config)])])
  {
    var s0, s1 := g.InstanceValue(config.instance, 0), g.InstanceValue(config.instance, 1);
    forall row | 0 <= row < g.n
      ensures g.Eval(FibGate(config), row) == 0
    {
      FibGateIff(g, config, row);
      if row <= Steps {
        assert Fib(s0, s1, row + 2) == Add(Fib(s0, s1, row), Fib(s0, s1, row + 1));
      }
    }
  }

  /** The run is accepted exactly when public input 2 is term `Steps + 2` of the sequence seeded
      by public inputs 0 and 1; otherwise the only report is the violated binding of the last
      `c` cell to public input 2. */
  lemma LaidVerify(g: Grid, config: FibonacciConfig)
    requires config.a != config.b && config.b != config.c && config.a != config.c
    requires Laid(g, config)
    ensures var gates := [Gate("add", [FibGate(config)])];
      var expected := Fib(g.InstanceValue(config.instance, 0), g.InstanceValue(config.instance, 1), Steps + 2);
      && (g.Verify(gates) == [] <==> g.InstanceValue(config.instance, 2) == expected)
      && (g.InstanceValue(config.instance, 2) != expected ==>
            g.Verify(gates) == [Permutation(Cell(Advice(config.c), Steps), Cell(Instance(config.instance), 2))])
  {
    var gates := [Gate("add", [FibGate(config)])];
    var chain := ChainCopies(config, 0, Steps);
    LaidGates(g, config);
    ChainCopiesHold(g, config, 0, Steps);
    assert forall i | 0 <= i < |chain| :: g.copies[i] == chain[i];
    assert g.Read(Cell(Advice(config.c), Steps)) == Fib(g.InstanceValue(config.instance, 0), g.InstanceValue(config.instance, 1), Steps + 2);
    VerifyEmptyIff(g, gates);
    if !g.CopyHolds(g.copies[|g.copies| - 1]) {
      OnlyLastCopyFails(g, gates);
    }
  }

  /** The verdict on the table `synthesize` fills on a fresh run, in terms of the public inputs. */
  lemma SynthesizedVerify(n: nat, instance: seq<seq<Elem>>)
    requires Steps < n
    ensures var failures := SynthesizedGrid(n, instance).Verify([Gate("add", [FibGate(Config0)])]);
      var expected := Fib(PublicInput(instance, 0, 0), PublicInput(instance, 0, 1), Steps + 2);
      && (failures == [] <==> PublicInput(instance, 0, 2) == expected)
      && (failures != [] ==> failures == [Permutation(Cell(Advice(2), Steps), Cell(Instance(0), 2))])
  {
    SynthesizedLayout(n, instance);
    LaidVerify(SynthesizedGrid(n, instance), Config0);
  }

  /** `MockProver::run` followed by `verify()`: configure, check the public inputs, synthesize
      into a fresh table of `2^k` rows, and report every violated constraint. */
  method Run(k: nat, instance: seq<seq<Elem>>) returns (r: Result<seq<Failure>>)
    ensures r.Ok? <==> |instance| == 1 && |instance[0]| <= Pow2(k) && Steps < Pow2(k)
    ensures r.Ok? ==>
      (r.value == [] <==> PublicInput(instance, 0, 2) == Fib(PublicInput(instance, 0, 0), PublicInput(instance, 0, 1), Steps + 2))
    ensures r.Ok? && r.value != [] ==> r.value == [Permutation(Cell(Advice(2), Steps), Cell(Instance(0), 2))]
  {
    var n := Pow2(k);
    var cs := new ConstraintSystem();
    var config := Configure(cs);
    var checked := CheckInstances(instance, cs.numInstance, n);
    if checked.Err? {
      return Err(checked.error);
    }
    var layouter := new Layouter(n, instance, cs.numAdvice, cs.numSelectors, cs.numTables, cs.equality);
    assert config == Config0 && layouter.grid == Fresh(n, instance, 3, 1, 0);
    var s := Synthesize(layouter, config);
    if s.Err? {
      return Err(s.error);
    }
    assert layouter.grid == SynthesizedGrid(n, instance);
    SynthesizedVerify(n, instance);
    r := Ok(layouter.grid.Verify(cs.gates));
  }

  /** The repository's mock-prover scenario: seeds 1 and 1 give 55 as term 9, and the chain's
      eight rows fit the table of 2^5 rows. */
  lemma Scenario()
    ensures Fib(1, 1, Steps + 2) == 55 && Steps < Pow2(5)
  {
    Pow2Values();
  }
}
