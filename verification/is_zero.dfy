/** The is-zero gadget: next to a `value` advice column it keeps a `value_inv` column and the
    expression `1 - value * value_inv`, which is 1 when `value` is zero and 0 otherwise once the
    gate `q_enable * value * (1 - value * value_inv)` holds. */
module IsZero {
  import opened Field
  import opened Plonk
  import opened Layout

  /** The advice column holding the inverse and the is-zero expression. */
  datatype IsZeroConfig = IsZeroConfig(valueInv: nat, expr: Expr)

  /** `1 - value * value_inv`, both read at the current row. */
  function IsZeroExpr(value: nat, valueInv: nat): (e: Expr) {
    Minus(Constant(1), Product(AdviceQuery(value, 0), AdviceQuery(valueInv, 0)))
  }

  /** The "is_zero" gate: `q_enable * value * (1 - value * value_inv)`. */
  function IsZeroGate(qEnable: Expr, value: nat, valueInv: nat): (e: Expr) {
    Product(Product(qEnable, AdviceQuery(value, 0)), IsZeroExpr(value, valueInv))
  }

  /** The expression and the gate in terms of the cells they read. */
  lemma EvalIsZero(g: Grid, qEnable: Expr, value: nat, valueInv: nat, row: nat)
    requires row < g.n
    ensures var v, w := g.AdviceValue(value, row), g.AdviceValue(valueInv, row);
      && g.Eval(IsZeroExpr(value, valueInv), row) == Sub(1, Mul(v, w))
      && g.Eval(IsZeroGate(qEnable, value, valueInv), row) == Mul(Mul(g.Eval(qEnable, row), v), Sub(1, Mul(v, w)))
  {
    g.RotateInside(row, 0);
    var v, w := g.AdviceValue(value, row), g.AdviceValue(valueInv, row);
    var vw := Product(AdviceQuery(value, 0), AdviceQuery(valueInv, 0));
    assert g.Eval(vw, row) == Mul(v, w);
    assert g.Eval(Negated(vw), row) == Neg(Mul(v, w));
    assert g.Eval(Product(qEnable, AdviceQuery(value, 0)), row) == Mul(g.Eval(qEnable, row), v);
  }

  /** For a value `v` and an inverse-cell value `w`: the gate with its enabling factor `q`
      vanishes exactly when `q` is off, `v` is zero or `w` inverts `v`. */
  lemma GateIff(inv: Elem -> Elem, q: Elem, v: Elem, w: Elem)
    requires IsInvertOrZero(inv)
    ensures Mul(Mul(q, v), Sub(1, Mul(v, w))) == 0 <==> q == 0 || v == 0 || Mul(v, w) == 1
  {
    ZeroProduct(inv, Mul(q, v), Sub(1, Mul(v, w)));
    ZeroProduct(inv, q, v);
    SubZeroIff(1, Mul(v, w));
  }

  /** Soundness: at a row where the gate holds and its enabling factor is on, the expression is 1
      when the value is zero and 0 otherwise, whatever the prover put in the inverse cell. */
  lemma ExprSound(inv: Elem -> Elem, g: Grid, qEnable: Expr, value: nat, valueInv: nat, row: nat)
    requires IsInvertOrZero(inv) && row < g.n
    requires g.Eval(qEnable, row) != 0
    requires g.Eval(IsZeroGate(qEnable, value, valueInv), row) == 0
    ensures g.Eval(IsZeroExpr(value, valueInv), row) == if g.AdviceValue(value, row) == 0 then 1 else 0
  {
    var v, w := g.AdviceValue(value, row), g.AdviceValue(valueInv, row);
    EvalIsZero(g, qEnable, value, valueInv, row);
    GateIff(inv, g.Eval(qEnable, row), v, w);
    MulUnits(w);
  }

  /** Completeness: with the inverse-or-zero of the value in the inverse cell, the gate
      vanishes for every value and every enabling factor, and the expression is 1 exactly when
      the value is zero and 0 otherwise. */
  lemma ExprComplete(inv: Elem -> Elem, g: Grid, qEnable: Expr, value: nat, valueInv: nat, row: nat)
    requires IsInvertOrZero(inv) && row < g.n
    requires g.AdviceValue(valueInv, row) == inv(g.AdviceValue(value, row))
    ensures g.Eval(IsZeroGate(qEnable, value, valueInv), row) == 0
    ensures g.Eval(IsZeroExpr(value, valueInv), row) == if g.AdviceValue(value, row) == 0 then 1 else 0
  {
    var v := g.AdviceValue(value, row);
    var q := g.Eval(qEnable, row);
    EvalIsZero(g, qEnable, value, valueInv, row);
    var e := Sub(1, Mul(v, inv(v)));
    if v == 0 {
      MulUnits(0);
      assert e == Sub(1, 0) == 1;
      MulUnits(q);
    } else {
      assert Mul(v, inv(v)) == 1;
      assert e == Sub(1, 1) == 0;
      MulUnits(Mul(q, v));
    }
  }

  /** `configure`: adds the "is_zero" gate over the caller's `value` and `value_inv` columns and
      keeps its expression; the enabling factor is whatever expression the caller supplies. */
  method Configure(cs: ConstraintSystem, qEnable: Expr, value: nat, valueInv: nat) returns (config: IsZeroConfig)
    modifies cs
    ensures config == IsZeroConfig(valueInv, IsZeroExpr(value, valueInv))
    ensures cs.gates == old(cs.gates) + [Gate("is_zero", [IsZeroGate(qEnable, value, valueInv)])]
    ensures cs.numAdvice == old(cs.numAdvice) && cs.numInstance == old(cs.numInstance)
    ensures cs.numSelectors == old(cs.numSelectors) && cs.numTables == old(cs.numTables)
    ensures cs.equality == old(cs.equality)
  {
    var expr := Constant(0);
    expr := IsZeroExpr(value, valueInv);
    cs.CreateGate("is_zero", [Product(Product(qEnable, AdviceQuery(value, 0)), expr)]);
    config := IsZeroConfig(valueInv, expr);
  }

  /** `assign`: a one-row region from the cursor whose only cell is the inverse-or-zero of
      `value` in the `value_inv` column; returns the configuration's expression unchanged. */
  method Assign(layouter: Layouter, config: IsZeroConfig, value: Elem, inv: Elem -> Elem) returns (r: Result<Expr>)
    requires layouter.Valid() && config.valueInv < layouter.grid.numAdvice
    modifies layouter`grid, layouter`cursor
    ensures layouter.Valid()
    ensures r.Ok? <==> old(layouter.cursor) < old(layouter.grid.n)
    ensures r.Ok? ==>
      && layouter.grid == old(layouter.grid).WithAdvice(config.valueInv, old(layouter.cursor), inv(value))
                                            .WithRegion("is_zero_chip", old(layouter.cursor), 1)
      && layouter.cursor == old(layouter.cursor) + 1
      && r.value == config.expr
    ensures r.Err? ==> layouter.grid == old(layouter.grid) && layouter.cursor == old(layouter.cursor)
  {
    var valueInv := inv(value);
    var cell := layouter.AssignAdvice(config.valueInv, layouter.cursor, valueInv);
    if cell.Err? {
      return Err(cell.error);
    }
    layouter.CloseRegion("is_zero_chip", 1);
    r := Ok(config.expr);
  }

  /** At the row `assign` fills, holding `v` in a separate `value` column, the gate vanishes and
      the returned expression reads 1 exactly when `v` is zero. */
  lemma AssignedRow(inv: Elem -> Elem, g: Grid, qEnable: Expr, value: nat, valueInv: nat, row: nat, v: Elem)
    requires IsInvertOrZero(inv) && row < g.n && value != valueInv
    requires g.AdviceValue(value, row) == v
    ensures var h := g.WithAdvice(valueInv, row, inv(v)).WithRegion("is_zero_chip", row, 1);
      && h.Eval(IsZeroGate(qEnable, value, valueInv), row) == 0
      && h.Eval(IsZeroExpr(value, valueInv), row) == if v == 0 then 1 else 0
  {
    var h := g.WithAdvice(valueInv, row, inv(v)).WithRegion("is_zero_chip", row, 1);
    assert h.AdviceValue(value, row) == v && h.AdviceValue(valueInv, row) == inv(v);
    ExprComplete(inv, h, qEnable, value, valueInv, row);
  }
}
