/** The running-sum chip: one advice column holding `scalar`, then `value`, then each row the
    previous row plus `scalar`; the last cell is the circuit's public output. */
module AddScalar {
  import opened Field
  import opened Plonk
  import opened Layout

  datatype AddScalarConfig = AddScalarConfig(advice: nat, selector: nat, instance: nat)

  /** The circuit's witness: the starting value, the increment and the index of the last row. */
  datatype AddScalarCircuit = AddScalarCircuit(scalar: Elem, value: Elem, nrows: nat)

  /** The "add" gate: `selector * ((a + scalar) - out)`, reading `scalar` at the current row,
      `a` at the next row and `out` two rows down. */
  function AddGate(config: AddScalarConfig): (e: Expr) {
    Product(SelectorQuery(config.selector),
            Minus(Sum(AdviceQuery(config.advice, 1), AdviceQuery(config.advice, 0)),
                  AdviceQuery(config.advice, 2)))
  }

  /** The gate constrains only rows where its selector is on, and there it demands
      `adv[r+1] + adv[r] == adv[r+2]` (rows wrap around the table). */
  lemma AddGateIff(g: Grid, config: AddScalarConfig, row: nat)
    requires g.n > 0
    ensures g.Eval(AddGate(config), row) == 0 <==>
      !g.IsEnabled(config.selector, row)
      || Add(g.AdviceValue(config.advice, g.Rotate(row, 1)), g.AdviceValue(config.advice, g.Rotate(row, 0)))
         == g.AdviceValue(config.advice, g.Rotate(row, 2))
  {
    var a := config.advice;
    var next, cur, out := g.AdviceValue(a, g.Rotate(row, 1)), g.AdviceValue(a, g.Rotate(row, 0)), g.AdviceValue(a, g.Rotate(row, 2));
    var sum := Sum(AdviceQuery(a, 1), AdviceQuery(a, 0));
    var inner := Minus(sum, AdviceQuery(a, 2));
    assert g.Eval(sum, row) == Add(next, cur);
    assert g.Eval(Negated(AdviceQuery(a, 2)), row) == Neg(out);
    assert g.Eval(inner, row) == Sub(Add(next, cur), out);
    var sel := g.Eval(SelectorQuery(config.selector), row);
    assert g.Eval(AddGate(config), row) == Mul(sel, Sub(Add(next, cur), out));
    SelectorGuard(sel, Sub(Add(next, cur), out));
    SubZeroIff(Add(next, cur), out);
  }

  /** The region's last row: `nrows`, or row 1 when the loop `2..=nrows` is empty. */
  function Last(nrows: nat): (r: nat) {
    if nrows <= 1 then 1 else nrows
  }

  /** Row `k >= 1` of the region: `value` at row 1, and below it the row above plus `scalar`. */
  function RunningSum(value: Elem, scalar: Elem, k: nat): (r: Elem)
    decreases k
  {
    if k <= 1 then value else Add(RunningSum(value, scalar, k - 1), scalar)
  }

  /** The region's advice column, rows `0 ..= Last(nrows)`: `scalar`, then the running sum. */
  function Witness(value: Elem, scalar: Elem, nrows: nat): (w: seq<Elem>)
    ensures |w| == Last(nrows) + 1
    ensures w[0] == scalar && w[1] == value
  {
    seq(Last(nrows) + 1, i => if i <= 0 then scalar else RunningSum(value, scalar, i))
  }

  /** The witness depends on `nrows` only through the region's last row. */
  lemma WitnessSameLast(value: Elem, scalar: Elem, m: nat, m': nat)
    requires Last(m) == Last(m')
    ensures Witness(value, scalar, m) == Witness(value, scalar, m')
  {
  }

  /** One step of the running sum, in closed form. */
  lemma AddStep(value: Elem, scalar: Elem, j: int)
    ensures Add(FromInt(value + (j - 1) * scalar), scalar) == FromInt(value + j * scalar)
  {
    var before := value + (j - 1) * scalar;
    assert before + scalar == value + j * scalar by {
      assert (j - 1) * scalar + scalar == j * scalar;
    }
    FromIntAdd(before, scalar);
  }

  /** Closed form of the running sum: row `k >= 1` holds `value + (k - 1) * scalar`. */
  lemma {:induction false} RunningSumClosedForm(value: Elem, scalar: Elem, k: nat)
    requires k >= 1
    ensures RunningSum(value, scalar, k) == FromInt(value + (k - 1) * scalar)
  {
    if k > 1 {
      RunningSumClosedForm(value, scalar, k - 1);
      AddStep(value, scalar, k - 1);
    }
  }

  /** Below the `value` row, every row of the witness is the row above it plus `scalar`. */
  lemma WitnessStep(value: Elem, scalar: Elem, nrows: nat, k: nat)
    requires 2 <= k <= Last(nrows)
    ensures Witness(value, scalar, nrows)[k] == Add(Witness(value, scalar, nrows)[k - 1], scalar)
  {
  }

  /** The witness for `m` rows extends the one for `m - 1` rows by one running-sum step. */
  lemma WitnessSnoc(value: Elem, scalar: Elem, m: nat)
    requires m >= 2
    ensures var prev := Witness(value, scalar, m - 1);
      Witness(value, scalar, m) == prev + [Add(prev[m - 1], scalar)]
  {
    var prev := Witness(value, scalar, m - 1);
    assert Witness(value, scalar, m) == prev + [Add(prev[m - 1], scalar)];
  }

  method Configure(cs: ConstraintSystem) returns (config: AddScalarConfig)
    modifies cs
    ensures config == AddScalarConfig(old(cs.numAdvice), old(cs.numSelectors), old(cs.numInstance))
    ensures cs.numAdvice == old(cs.numAdvice) + 1 && cs.numInstance == old(cs.numInstance) + 1
    ensures cs.numSelectors == old(cs.numSelectors) + 1 && cs.numTables == old(cs.numTables)
    ensures cs.equality == old(cs.equality) + {Advice(config.advice), Instance(config.instance)}
    ensures cs.gates == old(cs.gates) + [Gate("add", [AddGate(config)])]
  {
    var instance := cs.InstanceColumn();
    var colA := cs.AdviceColumn();
    var selector := cs.Selector();
    cs.EnableEquality(Advice(colA));
    cs.EnableEquality(Instance(instance));
    config := AddScalarConfig(colA, selector, instance);
    cs.CreateGate("add", [AddGate(config)]);
  }

  /** Lays out one region from the cursor: the selector on at its first row, `scalar` there,
      `value` below it and the running sum down to row `nrows`; returns the last cell. */
  method Assign(layouter: Layouter, config: AddScalarConfig, value: Elem, scalar: Elem, nrows: nat)
    returns (r: Result<AssignedCell>)
    requires layouter.Valid()
    requires config.advice < layouter.grid.numAdvice && config.selector < layouter.grid.numSelectors
    modifies layouter`grid, layouter`cursor
    ensures layouter.Valid()
    ensures r.Ok? <==> old(layouter.cursor) + Last(nrows) < old(layouter.grid.n)
    ensures r.Ok? ==>
      var start := old(layouter.cursor);
      var w := Witness(value, scalar, nrows);
      && layouter.grid == old(layouter.grid).WithSelector(config.selector, start)
                            .WithAdviceRun(config.advice, start, w)
                            .WithRegion("entire circuit", start, Last(nrows) + 1)
      && layouter.cursor == start + Last(nrows) + 1
      && r.value == AssignedCell(Cell(Advice(config.advice), start + Last(nrows)), w[Last(nrows)])
  {
    var col := config.advice;
    var start := layouter.cursor;
    var e := layouter.EnableSelector(config.selector, start);
    if e.Err? {
      return Err(e.error);
    }
    ghost var g1 := layouter.grid;
    // The selector was enabled at `start`, so this row exists.
    var scalarCell := layouter.AssignAdvice(col, start, scalar);
    var valueCell := layouter.AssignAdvice(col, start + 1, value);
    if valueCell.Err? {
      return Err(valueCell.error);
    }
    AdviceRunPair(g1, col, start, scalar, value);
    assert Witness(value, scalar, 1) == [scalar, value];
    r := AssignSums(layouter, col, start, scalarCell.value, valueCell.value, nrows, g1);
    if r.Ok? {
      layouter.CloseRegion("entire circuit", Last(nrows) + 1);
    }
  }

  /** One iteration of the `2..=nrows` loop: row `m` gets the previous row's value plus `scalar`. */
  method AssignNext(layouter: Layouter, col: nat, start: nat, scalar: Elem, cell: AssignedCell, m: nat,
                    ghost g1: Grid, ghost value: Elem)
    returns (r: Result<AssignedCell>)
    requires layouter.Valid() && g1.n == layouter.grid.n && g1.numAdvice == layouter.grid.numAdvice
    requires 2 <= m && col < g1.numAdvice && start + m - 1 < g1.n
    requires layouter.grid == g1.WithAdviceRun(col, start, Witness(value, scalar, m - 1))
    requires cell.value == Witness(value, scalar, m - 1)[m - 1]
    modifies layouter`grid
    ensures layouter.Valid()
    ensures r.Ok? <==> start + m < g1.n
    ensures r.Ok? ==>
      && layouter.grid == g1.WithAdviceRun(col, start, Witness(value, scalar, m))
      && r.value == AssignedCell(Cell(Advice(col), start + m), Witness(value, scalar, m)[m])
  {
    r := layouter.AssignAdvice(col, start + m, Add(cell.value, scalar));
    if r.Ok? {
      WitnessSnoc(value, scalar, m);
      var prev := Witness(value, scalar, m - 1);
      AdviceRunSnoc(g1, col, start, prev, Add(prev[m - 1], scalar));
    }
  }

  /** The `2..=nrows` loop of `Assign`: each row gets the previous row's value plus `scalar`. */
  method AssignSums(layouter: Layouter, col: nat, start: nat, scalarCell: AssignedCell, valueCell: AssignedCell,
                    nrows: nat, ghost g1: Grid)
    returns (r: Result<AssignedCell>)
    requires layouter.Valid() && g1.n == layouter.grid.n && g1.numAdvice == layouter.grid.numAdvice
    requires col < g1.numAdvice && start + 1 < g1.n
    requires layouter.grid == g1.WithAdviceRun(col, start, Witness(valueCell.value, scalarCell.value, 1))
    requires valueCell.cell == Cell(Advice(col), start + 1)
    modifies layouter`grid
    ensures layouter.Valid()
    ensures r.Ok? <==> start + Last(nrows) < g1.n
    ensures r.Ok? ==>
      var w := Witness(valueCell.value, scalarCell.value, nrows);
      && layouter.grid == g1.WithAdviceRun(col, start, w)
      && r.value == AssignedCell(Cell(Advice(col), start + Last(nrows)), w[Last(nrows)])
  {
    ghost var value, scalar := valueCell.value, scalarCell.value;
    var cell := valueCell;
    var row := 2;
    while row <= nrows
      invariant 2 <= row <= Last(nrows) + 1
      invariant start + row - 1 < g1.n && layouter.Valid()
      invariant layouter.grid == g1.WithAdviceRun(col, start, Witness(value, scalar, row - 1))
      invariant cell == AssignedCell(Cell(Advice(col), start + row - 1), Witness(value, scalar, row - 1)[row - 1])
    {
      var next := AssignNext(layouter, col, start, scalarCell.value, cell, row, g1, value);
      if next.Err? {
        return Err(next.error);
      }
      cell := next.value;
      row := row + 1;
    }
    assert Last(row - 1) == Last(nrows);
    WitnessSameLast(value, scalar, row - 1, nrows);
    r := Ok(cell);
  }

  method ExposePublic(layouter: Layouter, config: AddScalarConfig, cell: AssignedCell, row: nat)
    returns (r: Result<()>)
    requires layouter.Valid()
    modifies layouter`grid
    ensures layouter.Valid()
    ensures r.Ok? <==> cell.cell.row < old(layouter.grid.n) && row < old(layouter.grid.n)
                       && cell.cell.column in layouter.equality && Instance(config.instance) in layouter.equality
    ensures layouter.grid == if r.Ok? then old(layouter.grid).WithCopy(Copy(cell.cell, Cell(Instance(config.instance), row)))
                             else old(layouter.grid)
  {
    r := layouter.ConstrainInstance(cell.cell, config.instance, row);
  }

  method Synthesize(layouter: Layouter, config: AddScalarConfig, circuit: AddScalarCircuit) returns (r: Result<()>)
    requires layouter.Valid()
    requires config.advice < layouter.grid.numAdvice && config.selector < layouter.grid.numSelectors
    requires Advice(config.advice) in layouter.equality && Instance(config.instance) in layouter.equality
    modifies layouter`grid, layouter`cursor
    ensures layouter.Valid()
    ensures r.Ok? <==> old(layouter.cursor) + Last(circuit.nrows) < old(layouter.grid.n)
    ensures r.Ok? ==>
      var start := old(layouter.cursor);
      var last := start + Last(circuit.nrows);
      layouter.grid == old(layouter.grid).WithSelector(config.selector, start)
                         .WithAdviceRun(config.advice, start, Witness(circuit.value, circuit.scalar, circuit.nrows))
                         .WithRegion("entire circuit", start, Last(circuit.nrows) + 1)
                         .WithCopy(Copy(Cell(Advice(config.advice), last), Cell(Instance(config.instance), 0)))
  {
    var out := Assign(layouter, config, circuit.value, circuit.scalar, circuit.nrows);
    if out.Err? {
      return Err(out.error);
    }
    r := ExposePublic(layouter, config, out.value, 0);
  }

  /** The table `synthesize` produces on a fresh run with the configuration allocated first. */
  function SynthesizedGrid(n: nat, instance: seq<seq<Elem>>, circuit: AddScalarCircuit): (h: Grid)
    requires Last(circuit.nrows) < n
  {
    var last := Last(circuit.nrows);
    Fresh(n, instance, 1, 1, 0).WithSelector(0, 0)
      .WithAdviceRun(0, 0, Witness(circuit.value, circuit.scalar, circuit.nrows))
      .WithRegion("entire circuit", 0, last + 1)
      .WithCopy(Copy(Cell(Advice(0), last), Cell(Instance(0), 0)))
  }

  /** What the verification pass needs to know of a table `synthesize` filled on a fresh run:
      the advice column holds the witness in rows `0 ..= Last`, the selector is on at row 0
      only, and the one equality constraint binds the last cell to public input 0. */
  ghost predicate Laid(g: Grid, config: AddScalarConfig, circuit: AddScalarCircuit) {
    var w := Witness(circuit.value, circuit.scalar, circuit.nrows);
    && Last(circuit.nrows) < g.n
    && (forall i | 0 <= i < |w| :: g.AdviceValue(config.advice, i) == w[i])
    && (forall row :: g.IsEnabled(config.selector, row) <==> row == 0)
    && g.copies == [Copy(Cell(Advice(config.advice), Last(circuit.nrows)), Cell(Instance(config.instance), 0))]
  }

  lemma SynthesizedLayout(n: nat, instance: seq<seq<Elem>>, circuit: AddScalarCircuit)
    requires Last(circuit.nrows) < n
    ensures var g := SynthesizedGrid(n, instance, circuit);
      g.n == n && g.instance == instance && Laid(g, AddScalarConfig(0, 0, 0), circuit)
  {
    var w := Witness(circuit.value, circuit.scalar, circuit.nrows);
    var g1 := Fresh(n, instance, 1, 1, 0).WithSelector(0, 0);
    var g := SynthesizedGrid(n, instance, circuit);
    forall i | 0 <= i < |w|
      ensures g.AdviceValue(0, i) == w[i]
    {
      AdviceRunAt(g1, 0, 0, w, 0, i);
    }
  }

  /** For `nrows >= 2` the "add" gate vanishes on every row of such a table. */
  lemma LaidGates(g: Grid, config: AddScalarConfig, circuit: AddScalarCircuit)
    requires circuit.nrows >= 2 && Laid(g, config, circuit)
    ensures g.GatesHold([Gate("add", [AddGate(config)])])
  {
    forall row | 0 <= row < g.n
      ensures g.Eval(AddGate(config), row) == 0
    {
      AddGateIff(g, config, row);
      if row == 0 {
        g.RotateInside(0, 0);
        g.RotateInside(0, 1);
        g.RotateInside(0, 2);
        WitnessStep(circuit.value, circuit.scalar, circuit.nrows, 2);
      }
    }
  }

  /** For `nrows >= 2` the run is accepted exactly when public input 0 equals
      `value + (nrows - 1) * scalar`; otherwise the only report is the violated binding of the
      output cell to the public input. */
  lemma LaidVerify(g: Grid, config: AddScalarConfig, circuit: AddScalarCircuit)
    requires circuit.nrows >= 2 && Laid(g, config, circuit)
    ensures var gates := [Gate("add", [AddGate(config)])];
      var expected := FromInt(circuit.value + (circuit.nrows - 1) * circuit.scalar);
      && (g.Verify(gates) == [] <==> g.InstanceValue(config.instance, 0) == expected)
      && (g.InstanceValue(config.instance, 0) != expected ==>
            g.Verify(gates) == [Permutation(Cell(Advice(config.advice), circuit.nrows), Cell(Instance(config.instance), 0))])
  {
    var gates := [Gate("add", [AddGate(config)])];
    LaidGates(g, config, circuit);
    RunningSumClosedForm(circuit.value, circuit.scalar, circuit.nrows);
    assert g.Read(Cell(Advice(config.advice), circuit.nrows)) == FromInt(circuit.value + (circuit.nrows - 1) * circuit.scalar);
    VerifyEmptyIff(g, gates);
    if !g.CopyHolds(g.copies[0]) {
      OnlyLastCopyFails(g, gates);
    }
  }

  /** `MockProver::run` followed by `verify()`: configure, check the public inputs, synthesize
      into a fresh table of `2^k` rows, and report every violated constraint. */
  method Run(k: nat, circuit: AddScalarCircuit, instance: seq<seq<Elem>>) returns (r: Result<seq<Failure>>)
    ensures r.Ok? <==> |instance| == 1 && |instance[0]| <= Pow2(k) && Last(circuit.nrows) < Pow2(k)
    ensures r.Ok? && circuit.nrows >= 2 ==>
      (r.value == [] <==> PublicInput(instance, 0, 0) == FromInt(circuit.value + (circuit.nrows - 1) * circuit.scalar))
    ensures r.Ok? && circuit.nrows >= 2 && r.value != [] ==>
      r.value == [Permutation(Cell(Advice(0), circuit.nrows), Cell(Instance(0), 0))]
  {
    var n := Pow2(k);
    var cs := new ConstraintSystem();
    var config := Configure(cs);
    var checked := CheckInstances(instance, cs.numInstance, n);
    if checked.Err? {
      return Err(checked.error);
    }
    var layouter := new Layouter(n, instance, cs.numAdvice, cs.numSelectors, cs.numTables, cs.equality);
    var s := Synthesize(layouter, config, circuit);
    if s.Err? {
      return Err(s.error);
    }
    assert layouter.grid == SynthesizedGrid(n, instance, circuit);
    SynthesizedLayout(n, instance, circuit);
    if circuit.nrows >= 2 {
      LaidVerify(layouter.grid, config, circuit);
    }
    r := Ok(layouter.grid.Verify(cs.gates));
  }

  /** The repository's two mock-prover scenarios: `value = scalar = 1` summed to row 10
      (table of 2^5 rows) and to row 1 000 000 (2^20 rows) yield outputs 10 and 1 000 000. */
  lemma Scenarios()
    ensures Last(10) < Pow2(5) && Witness(1, 1, 10)[10] == 10
    ensures Last(1000000) < Pow2(20) && Witness(1, 1, 1000000)[1000000] == 1000000
  {
    RunningSumClosedForm(1, 1, 10);
    RunningSumClosedForm(1, 1, 1000000);
    Pow2Values();
  }

  /** The repository's two mock-prover runs: `value = scalar = 1` summed to row 10 in a table of
      2^5 rows with public input 10, and to row 1 000 000 in 2^20 rows with public input
      1 000 000. Both are satisfied. */
  method MockScenarios() returns (small: Result<seq<Failure>>, large: Result<seq<Failure>>)
    ensures small == Ok([]) && large == Ok([])
  {
    Scenarios();
    small := Run(5, AddScalarCircuit(1, 1, 10), [[10]]);
    large := Run(20, AddScalarCircuit(1, 1, 1000000), [[1000000]]);
  }
}
