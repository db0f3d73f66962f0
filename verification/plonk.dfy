/** The part of the constraint system the circuits rely on, as values: columns and cells,
    polynomial expressions over cells, the assignment table that synthesis fills in, and the
    mock verification pass that re-evaluates every gate and copy constraint against it.
    The library itself (ConstraintSystem, the floor planner, MockProver) lives outside this
    repository; this is the smallest model in which the circuits' properties can be stated. */
module Plonk {
  import opened Field

  datatype Column = Advice(index: nat) | Instance(index: nat) | Table(index: nat)

  datatype Cell = Cell(column: Column, row: nat)

  /** What a write hands back to circuit code: where the value went and the value itself. */
  datatype AssignedCell = AssignedCell(cell: Cell, value: Elem)

  /** A polynomial over the cells of the table, relative to the row it is evaluated at. */
  datatype Expr =
    | Constant(value: Elem)
    | SelectorQuery(selector: nat)
    | AdviceQuery(column: nat, rotation: int)
    | Negated(e: Expr)
    | Sum(left: Expr, right: Expr)
    | Product(left: Expr, right: Expr)
    | Scaled(e: Expr, factor: Elem)

  /** `a - b`, which the expression type builds as `a + (-b)`. */
  function Minus(a: Expr, b: Expr): (e: Expr) {
    Sum(a, Negated(b))
  }

  /** A named gate; every polynomial must vanish at every row. */
  datatype Gate = Gate(name: string, polys: seq<Expr>)

  /** An equality constraint between two cells (copy constraints and public-input bindings). */
  datatype Copy = Copy(left: Cell, right: Cell)

  datatype Region = Region(name: string, start: nat, height: nat)

  datatype Location = InRegion(region: nat, offset: nat) | OutsideRegion(row: nat)

  datatype Failure =
    | ConstraintNotSatisfied(gate: nat, poly: nat, location: Location)
    | Permutation(left: Cell, right: Cell)

  datatype Error =
    | NotEnoughRowsAvailable
    | BoundsFailure
    | ColumnNotInPermutation
    | InvalidInstances
    | InstanceTooLarge
    | Synthesis

  datatype Result<T> = Ok(value: T) | Err(error: Error)

  /** `2^k`, the number of rows of a circuit of size parameter `k`. */
  function Pow2(k: nat): (n: nat)
    ensures n >= 1
  {
    if k == 0 then 1 else 2 * Pow2(k - 1)
  }

  /** The table heights of the sizes `k` the repository's scenarios use. */
  lemma Pow2Values()
    ensures Pow2(4) == 16 && Pow2(5) == 32 && Pow2(20) == 1048576
  {
    assert Pow2(4) == 16 by {
      assert Pow2(1) == 2 && Pow2(2) == 4 && Pow2(3) == 8;
    }
    assert Pow2(10) == 1024 by {
      assert Pow2(6) == 64 && Pow2(7) == 128 && Pow2(8) == 256 && Pow2(9) == 512;
    }
    assert Pow2(15) == 32768 by {
      assert Pow2(11) == 2048 && Pow2(12) == 4096 && Pow2(13) == 8192 && Pow2(14) == 16384;
    }
    assert Pow2(16) == 65536 && Pow2(17) == 131072 && Pow2(18) == 262144 && Pow2(19) == 524288;
  }

  /** Public input `row` of instance column `col`; columns are zero-padded to the table height. */
  function PublicInput(instance: seq<seq<Elem>>, col: nat, row: nat): (r: Elem) {
    if col < |instance| && row < |instance[col]| then instance[col][row] else 0
  }

  /** The mock prover's check of the public inputs before synthesis: one column per declared
      instance column, none longer than the table. */
  function CheckInstances(instance: seq<seq<Elem>>, numInstance: nat, n: nat): (r: Result<()>)
    ensures r.Ok? <==> |instance| == numInstance && forall c | 0 <= c < |instance| :: |instance[c]| <= n
    ensures r.Err? ==> r.error == (if |instance| != numInstance then InvalidInstances else InstanceTooLarge)
  {
    if |instance| != numInstance then Err(InvalidInstances)
    else if exists c | 0 <= c < |instance| :: |instance[c]| > n then Err(InstanceTooLarge)
    else Ok(())
  }

  /** The assignment table of one run: `n` rows; instance columns hold the public inputs
      (shorter columns are zero-padded); advice and lookup-table cells hold a value once
      assigned, keyed by (column, row); a selector is on at the (selector, row) pairs in `enabled`. */
  datatype Grid = Grid(
    n: nat,
    instance: seq<seq<Elem>>,
    numAdvice: nat,
    numSelectors: nat,
    numTables: nat,
    advice: map<(nat, nat), Elem>,
    enabled: set<(nat, nat)>,
    tables: map<(nat, nat), Elem>,
    copies: seq<Copy>,
    regions: seq<Region>)
  {
    // ---------------------------------------------------------------- reading cells

    /** An unassigned advice cell reads as zero. */
    function AdviceValue(col: nat, row: nat): (r: Elem) {
      if (col, row) in advice then advice[(col, row)] else 0
    }

    function InstanceValue(col: nat, row: nat): (r: Elem) {
      PublicInput(instance, col, row)
    }

    function TableValue(col: nat, row: nat): (r: Elem) {
      if (col, row) in tables then tables[(col, row)] else 0
    }

    function Read(c: Cell): (r: Elem) {
      match c.column
      case Advice(i) => AdviceValue(i, c.row)
      case Instance(i) => InstanceValue(i, c.row)
      case Table(i) => TableValue(i, c.row)
    }

    predicate IsEnabled(s: nat, row: nat) {
      (s, row) in enabled
    }

    /** Rotations wrap around the table. */
    function Rotate(row: nat, rotation: int): (r: nat) {
      if n == 0 then 0 else (row + rotation) % n
    }

    /** A rotation that stays inside the table does not wrap. */
    lemma RotateInside(row: nat, rotation: int)
      requires 0 <= row + rotation < n
      ensures Rotate(row, rotation) == row + rotation
    {
      var x := row + rotation;
      assert x == 0 * n + x;
    }

    function Eval(e: Expr, row: nat): (r: Elem) {
      match e
      case Constant(v) => v
      case SelectorQuery(s) => if IsEnabled(s, row) then 1 else 0
      case AdviceQuery(c, rot) => AdviceValue(c, Rotate(row, rot))
      case Negated(a) => Neg(Eval(a, row))
      case Sum(a, b) => Add(Eval(a, row), Eval(b, row))
      case Product(a, b) => Mul(Eval(a, row), Eval(b, row))
      case Scaled(a, f) => Mul(Eval(a, row), f)
    }

    // ---------------------------------------------------------------- writing cells

    function WithAdvice(col: nat, row: nat, v: Elem): (h: Grid) {
      this.(advice := advice[(col, row) := v])
    }

    /** Writes `vs` into consecutive rows of one advice column, first to last. */
    function WithAdviceRun(col: nat, start: nat, vs: seq<Elem>): (h: Grid)
      ensures h == this.(advice := h.advice)
      decreases |vs|
    {
      if vs == [] then this
      else WithAdviceRun(col, start, vs[..|vs| - 1]).WithAdvice(col, start + |vs| - 1, vs[|vs| - 1])
    }

    function WithSelector(s: nat, row: nat): (h: Grid) {
      this.(enabled := enabled + {(s, row)})
    }

    function WithTable(col: nat, row: nat, v: Elem): (h: Grid) {
      this.(tables := tables[(col, row) := v])
    }

    /** Writes `vs` into consecutive rows of one lookup-table column, first to last. */
    function WithTableRun(col: nat, start: nat, vs: seq<Elem>): (h: Grid)
      ensures h == this.(tables := h.tables)
      decreases |vs|
    {
      if vs == [] then this
      else WithTableRun(col, start, vs[..|vs| - 1]).WithTable(col, start + |vs| - 1, vs[|vs| - 1])
    }

    /** The cells `fill_from_row` covers: rows `from` to the last of each column in `cols`. */
    function FillCells(cols: set<nat>, from: nat): (cells: set<(nat, nat)>)
    {
      set c: nat, r: nat | c in cols && from <= r < n :: (c, r)
    }

    /** `fill_from_row` on each column of `cols`: every row from `from` to the last takes the
        value the column holds at offset 0 (its default). */
    function WithFill(cols: set<nat>, from: nat): (h: Grid)
    {
      this.(tables := map k | k in tables.Keys + FillCells(cols, from) ::
                        if k.0 in cols && from <= k.1 < n then TableValue(k.0, 0) else TableValue(k.0, k.1))
    }

    function WithCopy(c: Copy): (h: Grid) {
      this.(copies := copies + [c])
    }

    function WithRegion(name: string, start: nat, height: nat): (h: Grid) {
      this.(regions := regions + [Region(name, start, height)])
    }

    // ---------------------------------------------------------------- verification

    /** The first region that contains `row`, with the offset of `row` inside it. */
    function Locate(row: nat): (loc: Location) {
      LocateFrom(row, 0)
    }

    function LocateFrom(row: nat, i: nat): (loc: Location)
      decreases |regions| - i
    {
      if i >= |regions| then OutsideRegion(row)
      else if regions[i].start <= row < regions[i].start + regions[i].height then InRegion(i, row - regions[i].start)
      else LocateFrom(row, i + 1)
    }

    function PolyFailures(gate: nat, polys: seq<Expr>, row: nat): (fs: seq<Failure>)
      decreases |polys|
    {
      if polys == [] then []
      else
        PolyFailures(gate, polys[..|polys| - 1], row)
        + (if Eval(polys[|polys| - 1], row) != 0
           then [ConstraintNotSatisfied(gate, |polys| - 1, Locate(row))] else [])
    }

    function GateFailuresAt(gates: seq<Gate>, row: nat): (fs: seq<Failure>)
      decreases |gates|
    {
      if gates == [] then []
      else GateFailuresAt(gates[..|gates| - 1], row) + PolyFailures(|gates| - 1, gates[|gates| - 1].polys, row)
    }

    /** Gate failures at rows `0 .. rows-1`, row by row, gates in declaration order. */
    function RowFailures(gates: seq<Gate>, rows: nat): (fs: seq<Failure>) {
      if rows == 0 then [] else RowFailures(gates, rows - 1) + GateFailuresAt(gates, rows - 1)
    }

    function CopyFailures(cs: seq<Copy>): (fs: seq<Failure>)
      decreases |cs|
    {
      if cs == [] then []
      else
        CopyFailures(cs[..|cs| - 1])
        + (var c := cs[|cs| - 1]; if Read(c.left) != Read(c.right) then [Permutation(c.left, c.right)] else [])
    }

    /** The mock prover's `verify()`: every violated polynomial at every row, then every violated
        equality constraint. The empty list means the assignment satisfies the circuit. */
    function Verify(gates: seq<Gate>): (fs: seq<Failure>) {
      RowFailures(gates, n) + CopyFailures(copies)
    }

    ghost predicate GatesHold(gates: seq<Gate>) {
      forall row, k, p | 0 <= row < n && 0 <= k < |gates| && 0 <= p < |gates[k].polys| ::
        Eval(gates[k].polys[p], row) == 0
    }

    ghost predicate CopyHolds(c: Copy) {
      Read(c.left) == Read(c.right)
    }

    ghost predicate CopiesHold() {
      forall i | 0 <= i < |copies| :: CopyHolds(copies[i])
    }
  }

  /** The table a run starts from: nothing assigned, no selector enabled, no constraint recorded. */
  function Fresh(n: nat, instance: seq<seq<Elem>>, numAdvice: nat, numSelectors: nat, numTables: nat): (g: Grid)
    ensures g.n == n && g.instance == instance && g.copies == [] && g.regions == []
    ensures g.numAdvice == numAdvice && g.numSelectors == numSelectors && g.numTables == numTables
    ensures forall c: nat, r: nat :: (c, r) !in g.advice && (c, r) !in g.tables && !g.IsEnabled(c, r)
  {
    Grid(n, instance, numAdvice, numSelectors, numTables, map[], {}, map[], [], [])
  }

  // ------------------------------------------------------------------ lemmas about writes

  /** A run of advice writes sets exactly its window of rows, `vs[i]` at row `start + i`, and
      leaves every other cell and every other part of the table alone. */
  lemma {:induction false} AdviceRunAt(g: Grid, col: nat, start: nat, vs: seq<Elem>, c: nat, r: nat)
    ensures var h := g.WithAdviceRun(col, start, vs);
      && ((c, r) in h.advice <==> (c, r) in g.advice || (c == col && start <= r < start + |vs|))
      && h.AdviceValue(c, r) == if c == col && start <= r < start + |vs| then vs[r - start] else g.AdviceValue(c, r)
    decreases |vs|
  {
    if vs != [] {
      var init := vs[..|vs| - 1];
      AdviceRunAt(g, col, start, init, c, r);
      if c == col && start <= r < start + |init| {
        assert init[r - start] == vs[r - start];
      }
    }
  }


  /** Extending a run by one value is one more single write after it. */
  lemma AdviceRunSnoc(g: Grid, col: nat, start: nat, vs: seq<Elem>, v: Elem)
    ensures g.WithAdviceRun(col, start, vs + [v]) == g.WithAdviceRun(col, start, vs).WithAdvice(col, start + |vs|, v)
  {
    assert (vs + [v])[..|vs|] == vs;
  }

  /** A run of two values is two single writes. */
  lemma AdviceRunPair(g: Grid, col: nat, start: nat, a: Elem, b: Elem)
    ensures g.WithAdviceRun(col, start, [a, b]) == g.WithAdvice(col, start, a).WithAdvice(col, start + 1, b)
  {
    assert [a, b][..1] == [a] && [a][..0] == [];
    assert g.WithAdviceRun(col, start, [a]) == g.WithAdviceRun(col, start, []).WithAdvice(col, start, a);
  }

  /** Extending a run of table writes by one value is one more single write after it. */
  lemma TableRunSnoc(g: Grid, col: nat, start: nat, vs: seq<Elem>, v: Elem)
    ensures g.WithTableRun(col, start, vs + [v]) == g.WithTableRun(col, start, vs).WithTable(col, start + |vs|, v)
  {
    assert (vs + [v])[..|vs|] == vs;
  }

  /** Filling sets exactly the rows from `from` to the last of each filled column to that
      column's offset-0 value, and leaves every other cell and every other part of the table alone. */
  lemma FillAt(g: Grid, cols: set<nat>, from: nat, c: nat, r: nat)
    ensures var h := g.WithFill(cols, from);
      && h == g.(tables := h.tables)
      && ((c, r) in h.tables <==> (c, r) in g.tables || (c in cols && from <= r < g.n))
      && h.TableValue(c, r) == if c in cols && from <= r < g.n then g.TableValue(c, 0) else g.TableValue(c, r)
  {
    if c in cols && from <= r < g.n {
      assert (c, r) in g.FillCells(cols, from);
    }
  }

  /** A second write to the same table cell replaces the first. */
  lemma TableOverwrite(g: Grid, col: nat, row: nat, a: Elem, b: Elem)
    ensures g.WithTable(col, row, a).WithTable(col, row, b) == g.WithTable(col, row, b)
  {
    assert g.tables[(col, row) := a][(col, row) := b] == g.tables[(col, row) := b];
  }

  /** A run of table writes sets exactly its window of rows, `vs[i]` at row `start + i`, and
      leaves every other cell and every other part of the table alone. */
  lemma {:induction false} TableRunAt(g: Grid, col: nat, start: nat, vs: seq<Elem>, c: nat, r: nat)
    ensures var h := g.WithTableRun(col, start, vs);
      && ((c, r) in h.tables <==> (c, r) in g.tables || (c == col && start <= r < start + |vs|))
      && h.TableValue(c, r) == if c == col && start <= r < start + |vs| then vs[r - start] else g.TableValue(c, r)
    decreases |vs|
  {
    if vs != [] {
      var init := vs[..|vs| - 1];
      TableRunAt(g, col, start, init, c, r);
      if c == col && start <= r < start + |init| {
        assert init[r - start] == vs[r - start];
      }
    }
  }


  // ------------------------------------------------------------------ lemmas about verification

  lemma {:induction false} PolyFailuresEmpty(g: Grid, gate: nat, polys: seq<Expr>, row: nat)
    ensures g.PolyFailures(gate, polys, row) == [] <==> forall p | 0 <= p < |polys| :: g.Eval(polys[p], row) == 0
    decreases |polys|
  {
    if polys != [] {
      var init := polys[..|polys| - 1];
      PolyFailuresEmpty(g, gate, init, row);
      assert forall p | 0 <= p < |init| :: init[p] == polys[p];
    }
  }

  lemma {:induction false} GateFailuresAtEmpty(g: Grid, gates: seq<Gate>, row: nat)
    ensures g.GateFailuresAt(gates, row) == [] <==>
      forall k, p | 0 <= k < |gates| && 0 <= p < |gates[k].polys| :: g.Eval(gates[k].polys[p], row) == 0
    decreases |gates|
  {
    if gates != [] {
      var init := gates[..|gates| - 1];
      GateFailuresAtEmpty(g, init, row);
      PolyFailuresEmpty(g, |gates| - 1, gates[|gates| - 1].polys, row);
      assert forall k | 0 <= k < |init| :: init[k] == gates[k];
    }
  }

  lemma {:induction false} RowFailuresEmpty(g: Grid, gates: seq<Gate>, rows: nat)
    ensures g.RowFailures(gates, rows) == [] <==>
      forall row, k, p | 0 <= row < rows && 0 <= k < |gates| && 0 <= p < |gates[k].polys| ::
        g.Eval(gates[k].polys[p], row) == 0
  {
    if rows > 0 {
      RowFailuresEmpty(g, gates, rows - 1);
      GateFailuresAtEmpty(g, gates, rows - 1);
    }
  }

  lemma {:induction false} CopyFailuresEmpty(g: Grid, cs: seq<Copy>)
    ensures g.CopyFailures(cs) == [] <==> forall i | 0 <= i < |cs| :: g.CopyHolds(cs[i])
    decreases |cs|
  {
    if cs != [] {
      var init := cs[..|cs| - 1];
      CopyFailuresEmpty(g, init);
      assert forall i | 0 <= i < |init| :: init[i] == cs[i];
    }
  }

  /** The mock prover reports nothing exactly when every gate polynomial vanishes at every row
      and every equality constraint holds. */
  lemma VerifyEmptyIff(g: Grid, gates: seq<Gate>)
    ensures g.Verify(gates) == [] <==> g.GatesHold(gates) && g.CopiesHold()
  {
    RowFailuresEmpty(g, gates, g.n);
    CopyFailuresEmpty(g, g.copies);
    var rf, cf := g.RowFailures(gates, g.n), g.CopyFailures(g.copies);
    assert g.Verify(gates) == rf + cf;
    assert |rf + cf| == |rf| + |cf|;
    if rf == [] {
      forall row, k, p | 0 <= row < g.n && 0 <= k < |gates| && 0 <= p < |gates[k].polys|
        ensures g.Eval(gates[k].polys[p], row) == 0
      {
      }
    }
    assert rf == [] <==> g.GatesHold(gates);
    assert cf == [] <==> g.CopiesHold();
  }

  /** When the gates hold, the report is exactly the list of violated equality constraints;
      if only the last one is violated, the report names it alone. */
  lemma OnlyLastCopyFails(g: Grid, gates: seq<Gate>)
    requires g.GatesHold(gates) && |g.copies| > 0
    requires forall i | 0 <= i < |g.copies| - 1 :: g.CopyHolds(g.copies[i])
    requires !g.CopyHolds(g.copies[|g.copies| - 1])
    ensures g.Verify(gates) == [Permutation(g.copies[|g.copies| - 1].left, g.copies[|g.copies| - 1].right)]
  {
    RowFailuresEmpty(g, gates, g.n);
    var init := g.copies[..|g.copies| - 1];
    assert forall i | 0 <= i < |init| :: init[i] == g.copies[i];
    CopyFailuresEmpty(g, init);
  }

  /** A single one-polynomial gate violated at exactly one row `r0`, with every equality
      constraint holding, yields exactly one report, located at `r0`. */
  lemma SingleRowFails(g: Grid, gates: seq<Gate>, r0: nat)
    requires |gates| == 1 && |gates[0].polys| == 1 && r0 < g.n
    requires forall row | 0 <= row < g.n :: (g.Eval(gates[0].polys[0], row) == 0 <==> row != r0)
    requires g.CopiesHold()
    ensures g.Verify(gates) == [ConstraintNotSatisfied(0, 0, g.Locate(r0))]
  {
    RowFailuresSingle(g, gates, r0, g.n);
    CopyFailuresEmpty(g, g.copies);
  }

  lemma {:induction false} RowFailuresSingle(g: Grid, gates: seq<Gate>, r0: nat, rows: nat)
    requires |gates| == 1 && |gates[0].polys| == 1 && rows <= g.n
    requires forall row | 0 <= row < g.n :: (g.Eval(gates[0].polys[0], row) == 0 <==> row != r0)
    ensures g.RowFailures(gates, rows) == if r0 < rows then [ConstraintNotSatisfied(0, 0, g.Locate(r0))] else []
  {
    if rows > 0 {
      RowFailuresSingle(g, gates, r0, rows - 1);
      var row := rows - 1;
      var polys := gates[0].polys;
      assert gates[..0] == [];
      assert polys[..0] == [];
      assert g.GateFailuresAt(gates, row) == g.PolyFailures(0, polys, row);
      assert g.PolyFailures(0, polys, row)
          == (if g.Eval(polys[0], row) != 0 then [ConstraintNotSatisfied(0, 0, g.Locate(row))] else []);
    }
  }
}
