/** The small range check: the expression `range_check(w, R) = w * (1 - w) * ... * (R - 1 - w)`,
    its two-valued case `bool_check`, the `RangeConstrained` wrapper, and the one-row circuit
    that range-checks an 8-bit input against a constant `RANGE`. */
module RangeCheck {
  import opened Field
  import opened Plonk
  import opened Layout

  // ------------------------------------------------------------------ the expression

  /** `range_check(word, range)`: the left fold over `1 .. range` that starts from `word` and
      multiplies in `(i - word)` for each `i`. */
  function RangeCheck(word: Expr, range: nat): (e: Expr) {
    if range <= 1 then word
    else Product(RangeCheck(word, range - 1), Minus(Constant(FromInt(range - 1)), word))
  }

  /** `bool_check(value)`: the range check with `range == 2`. */
  function BoolCheck(value: Expr): (e: Expr) {
    RangeCheck(value, 2)
  }

  /** The same product over the integers: `v * (1 - v) * ... * (range - 1 - v)`. */
  function RangePoly(v: int, range: nat): (r: int) {
    if range <= 1 then v else RangePoly(v, range - 1) * (range - 1 - v)
  }

  function Abs(x: int): (r: nat) {
    if x < 0 then -x else x
  }

  /** An empty fold (`range <= 1`) leaves the word itself. */
  lemma RangeCheckEmpty(word: Expr, range: nat)
    requires range <= 1
    ensures RangeCheck(word, range) == word
  {
  }

  /** The expression evaluates, at any row, to the integer product reduced into the field. */
  lemma {:induction false} RangeCheckEval(g: Grid, word: Expr, range: nat, row: nat)
    ensures g.Eval(RangeCheck(word, range), row) == FromInt(RangePoly(g.Eval(word, row), range))
  {
    var x := g.Eval(word, row);
    if range > 1 {
      RangeCheckEval(g, word, range - 1, row);
      var rest := RangePoly(x, range - 1);
      var factor := Minus(Constant(FromInt(range - 1)), word);
      assert g.Eval(factor, row) == Sub(FromInt(range - 1), x);
      FromIntSub(range - 1, x);
      FromIntMul(rest, range - 1 - x);
    }
  }

  /** Over the integers the product vanishes exactly on `0 .. range - 1`, and on 0 for any
      `range` (the fold starts from the word itself). */
  lemma {:induction false} RangePolyZeroIff(v: int, range: nat)
    ensures RangePoly(v, range) == 0 <==> v == 0 || 0 <= v < range
  {
    if range > 1 {
      RangePolyZeroIff(v, range - 1);
      assert RangePoly(v, range) == RangePoly(v, range - 1) * (range - 1 - v);
    }
  }

  /** Over the whole field: for any field element `v` and any `range` up to the modulus, the
      field expression vanishes exactly when `v` is 0 or below `range`. The field has no zero
      divisors, so the product vanishes exactly when one of its factors does, and the factor
      `range - 1 - v` lies strictly between `-P` and `P`. */
  lemma {:induction false} RangeCheckFieldIff(inv: Elem -> Elem, v: Elem, range: nat)
    requires IsInvertOrZero(inv) && range <= P
    ensures FromInt(RangePoly(v, range)) == 0 <==> v == 0 || v < range
  {
    if range > 1 {
      RangeCheckFieldIff(inv, v, range - 1);
      var rest, factor := RangePoly(v, range - 1), range - 1 - v;
      assert RangePoly(v, range) == rest * factor;
      FromIntMul(rest, factor);
      ZeroProduct(inv, FromInt(rest), FromInt(factor));
      SmallZero(factor);
    }
  }

  /** An integer strictly between `-P` and `P` reduces to zero only if it is zero. */
  lemma SmallZero(x: int)
    requires -P < x < P
    ensures FromInt(x) == 0 <==> x == 0
  {
    if x < 0 {
      assert x % P == x + P;
    }
  }

  /** Where the integer product is smaller than the modulus, reduction keeps it zero or
      non-zero, so the field expression vanishes exactly on the same values; this needs no
      inverse. */
  lemma RangeCheckBoundedIff(v: int, range: nat)
    requires Abs(RangePoly(v, range)) < P
    ensures FromInt(RangePoly(v, range)) == 0 <==> v == 0 || 0 <= v < range
  {
    RangePolyZeroIff(v, range);
    var m := RangePoly(v, range);
    if m < 0 {
      assert m % P == m + P;
    }
  }

  /** For an 8-bit value and `range <= 256` every factor is below 256 in magnitude, so the
      product stays below `256^range` (`256` when the fold is empty). */
  lemma {:induction false} RangePolyByteBound(v: int, range: nat)
    requires 0 <= v < 256 && range <= 256
    ensures Abs(RangePoly(v, range)) < Pow256(if range <= 1 then 1 else range)
  {
    if range > 1 {
      RangePolyByteBound(v, range - 1);
      var rest, factor := RangePoly(v, range - 1), range - 1 - v;
      AbsMul(rest, factor);
      MulBound(Abs(rest), Pow256(if range - 1 <= 1 then 1 else range - 1), Abs(factor), 256);
    }
  }

  /** For an 8-bit value and `range <= 31` the product is below the modulus. */
  lemma RangePolyFits(v: int, range: nat)
    requires 0 <= v < 256 && range <= 31
    ensures Abs(RangePoly(v, range)) < P
  {
    RangePolyByteBound(v, range);
    Pow256Monotone(if range <= 1 then 1 else range, 31);
    Pow256BelowModulus();
  }

  /** `bool_check` evaluates to `v * (1 - v)`, which vanishes exactly on 0 and 1, for every
      field element `v`. */
  lemma BoolCheckIff(inv: Elem -> Elem, g: Grid, value: Expr, row: nat)
    requires IsInvertOrZero(inv)
    ensures var x: int := g.Eval(value, row); g.Eval(BoolCheck(value), row) == FromInt(x * (1 - x))
    ensures g.Eval(BoolCheck(value), row) == 0 <==> g.Eval(value, row) == 0 || g.Eval(value, row) == 1
  {
    var x: int := g.Eval(value, row);
    RangeCheckEval(g, value, 2, row);
    assert RangePoly(x, 2) == x * (1 - x);
    RangeCheckFieldIff(inv, g.Eval(value, row), 2);
  }

  // ------------------------------------------------------------------ RangeConstrained

  /** A value paired with the number of bits it is claimed to fit in. */
  datatype RangeConstrained<T> = RangeConstrained(inner: T, numBits: nat)

  /** Wraps a cell with a bit count; nothing is checked, whatever the cell holds. */
  function UnsoundUnchecked(cell: AssignedCell, numBits: nat): (rc: RangeConstrained<AssignedCell>) {
    RangeConstrained(cell, numBits)
  }

  /** The value of the wrapped cell, with the same bit count. */
  function Value(rc: RangeConstrained<AssignedCell>): (v: RangeConstrained<Elem>) {
    RangeConstrained(rc.inner.value, rc.numBits)
  }

  /** Wrapping stores the cell and the bit count unchanged, accepts every cell and every bit
      count, and reading the value keeps the bit count and yields the cell's value. */
  lemma RangeConstrainedAccessors(cell: AssignedCell, numBits: nat, rc: RangeConstrained<AssignedCell>)
    ensures UnsoundUnchecked(cell, numBits).inner == cell && UnsoundUnchecked(cell, numBits).numBits == numBits
    ensures Value(UnsoundUnchecked(cell, numBits)) == RangeConstrained(cell.value, numBits)
    ensures Value(rc).numBits == rc.numBits && Value(rc).inner == rc.inner.value
  {
  }

  // ------------------------------------------------------------------ the circuit

  datatype RangeCheckConfig = RangeCheckConfig(selector: nat, advice: nat)

  /** The "range check" gate: `selector * range_check(advice, range)` on the current row. */
  function RangeGate(config: RangeCheckConfig, range: nat): (e: Expr) {
    Product(SelectorQuery(config.selector), RangeCheck(AdviceQuery(config.advice, 0), range))
  }

  /** The gate constrains only rows where its selector is on, and there it demands that the
      advice cell on that row hold 0 or a value below `range`. */
  lemma RangeGateIff(inv: Elem -> Elem, g: Grid, config: RangeCheckConfig, range: nat, row: nat)
    requires IsInvertOrZero(inv) && range <= P && row < g.n
    ensures g.Eval(RangeGate(config, range), row) == 0 <==>
      !g.IsEnabled(config.selector, row) || g.AdviceValue(config.advice, row) == 0 || g.AdviceValue(config.advice, row) < range
  {
    g.RotateInside(row, 0);
    var word := AdviceQuery(config.advice, 0);
    var v := g.AdviceValue(config.advice, row);
    assert g.Eval(word, row) == v;
    RangeCheckEval(g, word, range, row);
    RangeCheckFieldIff(inv, v, range);
    var sel := g.Eval(SelectorQuery(config.selector), row);
    SelectorGuard(sel, g.Eval(RangeCheck(word, range), row));
  }

  method Configure(cs: ConstraintSystem, range: nat) returns (config: RangeCheckConfig)
    modifies cs
    ensures config == RangeCheckConfig(old(cs.numSelectors), old(cs.numAdvice))
    ensures cs.numSelectors == old(cs.numSelectors) + 1 && cs.numAdvice == old(cs.numAdvice) + 1
    ensures cs.numInstance == old(cs.numInstance) && cs.numTables == old(cs.numTables)
    ensures cs.equality == old(cs.equality)
    ensures cs.gates == old(cs.gates) + [Gate("range check", [RangeGate(config, range)])]
  {
    var selector := cs.Selector();
    var advice := cs.AdviceColumn();
    config := RangeCheckConfig(selector, advice);
    cs.CreateGate("range check", [RangeGate(config, range)]);
  }

  /** One region, "range constrain", of one row: the selector on and the input byte written. */
  method Synthesize(layouter: Layouter, config: RangeCheckConfig, input: nat) returns (r: Result<()>)
    requires layouter.Valid() && input < 256
    requires config.selector < layouter.grid.numSelectors && config.advice < layouter.grid.numAdvice
    modifies layouter`grid, layouter`cursor
    ensures layouter.Valid()
    ensures r.Ok? <==> old(layouter.cursor) < old(layouter.grid.n)
    ensures r.Ok? ==>
      var row := old(layouter.cursor);
      && layouter.grid == old(layouter.grid).WithSelector(config.selector, row)
                            .WithAdvice(config.advice, row, FromInt(input))
                            .WithRegion("range constrain", row, 1)
      && layouter.cursor == row + 1
  {
    var row := layouter.cursor;
    var e := layouter.EnableSelector(config.selector, row);
    if e.Err? {
      return Err(e.error);
    }
    // The row exists: the selector was enabled on it.
    var cell := layouter.AssignAdvice(config.advice, row, FromInt(input));
    layouter.CloseRegion("range constrain", 1);
    r := Ok(());
  }

  /** The configuration `configure` returns on a fresh constraint system. */
  const Config0 := RangeCheckConfig(0, 0)

  /** The table `synthesize` fills on a fresh run with `n` rows. */
  function SynthesizedGrid(n: nat, input: nat): (h: Grid)
    requires input < 256
  {
    Fresh(n, [], 1, 1, 0).WithSelector(0, 0).WithAdvice(0, 0, FromInt(input)).WithRegion("range constrain", 0, 1)
  }

  /** The run is accepted exactly when the range-check product of the input vanishes in the
      field; otherwise the only report is the gate failing at offset 0 of region 0. */
  lemma SynthesizedVerify(n: nat, range: nat, input: nat)
    requires n >= 1 && input < 256
    ensures var failures := SynthesizedGrid(n, input).Verify([Gate("range check", [RangeGate(Config0, range)])]);
      && (failures == [] <==> FromInt(RangePoly(input, range)) == 0)
      && (failures != [] ==> failures == [ConstraintNotSatisfied(0, 0, InRegion(0, 0))])
  {
    var g := SynthesizedGrid(n, input);
    var gates := [Gate("range check", [RangeGate(Config0, range)])];
    var verdict := FromInt(RangePoly(input, range));
    forall row | 0 <= row < g.n
      ensures g.Eval(RangeGate(Config0, range), row) == if row == 0 then verdict else 0
    {
      g.RotateInside(row, 0);
      RangeCheckEval(g, AdviceQuery(0, 0), range, row);
      MulUnits(g.Eval(RangeCheck(AdviceQuery(0, 0), range), row));
    }
    assert g.CopiesHold();
    VerifyEmptyIff(g, gates);
    if verdict != 0 {
      SingleRowFails(g, gates, 0);
    }
  }

  /** `MockProver::run` followed by `verify()` on the circuit `MyCircuit<range>(input)`:
      configure, check that there are no public inputs, synthesize into a fresh table of `2^k`
      rows, and report every violated constraint. */
  method Run(k: nat, range: nat, input: nat, instance: seq<seq<Elem>>, ghost inv: Elem -> Elem) returns (r: Result<seq<Failure>>)
    requires input < 256
    ensures r.Ok? <==> instance == []
    ensures r.Ok? ==> (r.value == [] <==> FromInt(RangePoly(input, range)) == 0)
    ensures r.Ok? && range <= 31 ==> (r.value == [] <==> input == 0 || input < range)
    ensures r.Ok? && range <= P && IsInvertOrZero(inv) ==> (r.value == [] <==> input == 0 || input < range)
    ensures r.Ok? && r.value != [] ==> r.value == [ConstraintNotSatisfied(0, 0, InRegion(0, 0))]
  {
    var n := Pow2(k);
    var cs := new ConstraintSystem();
    var config := Configure(cs, range);
    var checked := CheckInstances(instance, cs.numInstance, n);
    if checked.Err? {
      return Err(checked.error);
    }
    var layouter := new Layouter(n, instance, cs.numAdvice, cs.numSelectors, cs.numTables, cs.equality);
    // A fresh table always has row 0, so synthesis succeeds.
    var s := Synthesize(layouter, config, input);
    assert config == Config0 && layouter.grid == SynthesizedGrid(n, input);
    SynthesizedVerify(n, range, input);
    if range <= 31 {
      RangePolyFits(input, range);
      RangeCheckBoundedIff(input, range);
    }
    if range <= P && IsInvertOrZero(inv) {
      RangeCheckFieldIff(inv, input, range);
    }
    r := Ok(layouter.grid.Verify(cs.gates));
  }

  /** The repository's scenario with `RANGE = 8`: inputs 0 to 7 pass and 8 fails. */
  lemma Scenario()
    ensures forall w | 0 <= w < 8 :: FromInt(RangePoly(w, 8)) == 0
    ensures FromInt(RangePoly(8, 8)) != 0
  {
    forall w | 0 <= w < 8
      ensures FromInt(RangePoly(w, 8)) == 0
    {
      RangePolyFits(w, 8);
      RangeCheckBoundedIff(w, 8);
    }
    RangePolyFits(8, 8);
    RangeCheckBoundedIff(8, 8);
  }

  // ------------------------------------------------------------------ arithmetic helpers

  function Pow256(e: nat): (r: nat) {
    if e == 0 then 1 else 256 * Pow256(e - 1)
  }

  lemma Pow256BelowModulus()
    ensures Pow256(31) < P
  {
    assert Pow256(4) == 0x1_0000_0000 by {
      assert Pow256(1) == 0x100 && Pow256(2) == 0x1_0000 && Pow256(3) == 0x100_0000;
    }
    assert Pow256(8) == 0x1_0000_0000_0000_0000 by {
      assert Pow256(5) == 0x100 * Pow256(4) && Pow256(6) == 0x100 * Pow256(5);
      assert Pow256(7) == 0x100 * Pow256(6) && Pow256(8) == 0x100 * Pow256(7);
    }
    assert Pow256(16) == 0x1_0000_0000_0000_0000_0000_0000_0000_0000 by {
      Pow256Add(8, 8);
    }
    assert Pow256(31) == 0x100_0000_0000_0000_0000_0000_0000_0000_0000_0000_0000_0000_0000_0000_0000_0000 by {
      Pow256Add(16, 8);
      Pow256Add(24, 4);
      assert Pow256(29) == 0x100 * Pow256(28) && Pow256(30) == 0x100 * Pow256(29);
      assert Pow256(31) == 0x100 * Pow256(30);
    }
  }

  lemma {:induction false} Pow256Add(a: nat, b: nat)
    ensures Pow256(a + b) == Pow256(a) * Pow256(b)
  {
    if a > 0 {
      Pow256Add(a - 1, b);
      assert Pow256(a + b) == 256 * Pow256(a - 1 + b);
    }
  }

  lemma {:induction false} Pow256Monotone(a: nat, b: nat)
    requires a <= b
    ensures Pow256(a) <= Pow256(b)
  {
    if a < b {
      Pow256Monotone(a, b - 1);
    }
  }

  lemma AbsMul(x: int, y: int)
    ensures Abs(x * y) == Abs(x) * Abs(y)
  {
  }

  lemma MulBound(x: nat, bx: nat, y: nat, yBound: nat)
    requires x < bx && y < yBound
    ensures x * y < bx * yBound
  {
  }
}
