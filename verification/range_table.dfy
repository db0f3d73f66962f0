/** The lookup table of the second range-check example: one table column loaded with the
    values `0 .. RANGE - 1`, value `i` at offset `i`. */
module RangeTable {
  import opened Field
  import opened Plonk
  import opened Layout

  datatype RangeCheckTable = RangeCheckTable(value: nat)

  /** The column contents after `m` iterations: `0, 1, .., m - 1`. */
  function Ramp(m: nat): (vs: seq<Elem>)
    ensures |vs| == m
  {
    seq(m, i requires 0 <= i => FromInt(i))
  }

  lemma RampSnoc(m: nat)
    ensures Ramp(m + 1) == Ramp(m) + [FromInt(m)]
  {
    assert Ramp(m + 1)[..m] == Ramp(m);
  }

  /** The writes of the first `m` iterations, oldest first. */
  function Loads(col: nat, m: nat): (ws: seq<TableWrite>)
    ensures |ws| == m
  {
    seq(m, i requires 0 <= i => TableWrite(col, i, FromInt(i)))
  }

  /** How many of `ws` write offset `offset`. */
  function OffsetCount(ws: seq<TableWrite>, offset: nat): (r: nat) {
    if ws == [] then 0
    else OffsetCount(ws[..|ws| - 1], offset) + (if ws[|ws| - 1].offset == offset then 1 else 0)
  }

  lemma {:induction false} OffsetCountAppend(ws: seq<TableWrite>, more: seq<TableWrite>, offset: nat)
    ensures OffsetCount(ws + more, offset) == OffsetCount(ws, offset) + OffsetCount(more, offset)
    decreases |more|
  {
    if more == [] {
      assert ws + more == ws;
    } else {
      var init, last := more[..|more| - 1], more[|more| - 1];
      var all := ws + more;
      assert all[..|all| - 1] == ws + init;
      assert all[|all| - 1] == last;
      OffsetCountAppend(ws, init, offset);
      var bit := if last.offset == offset then 1 else 0;
      assert OffsetCount(all, offset) == OffsetCount(ws + init, offset) + bit;
      assert OffsetCount(more, offset) == OffsetCount(init, offset) + bit;
    }
  }

  method Configure(cs: ConstraintSystem) returns (table: RangeCheckTable)
    modifies cs
    ensures table == RangeCheckTable(old(cs.numTables))
    ensures cs.numTables == old(cs.numTables) + 1
    ensures cs.numAdvice == old(cs.numAdvice) && cs.numInstance == old(cs.numInstance)
    ensures cs.numSelectors == old(cs.numSelectors)
    ensures cs.equality == old(cs.equality) && cs.gates == old(cs.gates)
  {
    var value := cs.LookupTableColumn();
    table := RangeCheckTable(value);
  }

  /** `load`: one `assign_table` call running `LoadPass`. When the pass ends, a pass that wrote
      nothing is refused, the column becomes used, and the rows from `range` to the last are
      filled with the default, offset 0's value 0, which needs row `range` to exist. */
  method Load(layouter: Layouter, table: RangeCheckTable, range: nat) returns (r: Result<()>)
    requires layouter.Valid() && table.value < layouter.grid.numTables
    modifies layouter`grid, layouter`tableWrites, layouter`usedTables
    ensures layouter.Valid()
    ensures var n, used := old(layouter.grid.n), old(layouter.usedTables);
      && (r.Ok? <==> 0 < range < n && table.value !in used)
      && (r.Err? ==> r.error == if range == 0 || table.value in used then Synthesis else NotEnoughRowsAvailable)
      && layouter.usedTables == used + (if 0 < range <= n && table.value !in used then {table.value} else {})
    ensures var n := old(layouter.grid.n);
      var written := if table.value in old(layouter.usedTables) then 0 else if range <= n then range else n;
      && layouter.tableWrites == old(layouter.tableWrites) + Loads(table.value, written)
      && layouter.grid == if r.Ok? then old(layouter.grid).WithTableRun(table.value, 0, Ramp(range)).WithFill({table.value}, range)
                          else old(layouter.grid).WithTableRun(table.value, 0, Ramp(written))
  {
    var pass;
    r, pass := LoadPass(layouter, table, range);
    if r.Ok? {
      if range > 0 {
        OneColumnLoaded(table.value, range);
      }
      r := layouter.CloseTable(pass);
    }
  }

  /** The closure `load` hands to `assign_table`: each value of `0 .. range` written at the next
      offset. A column loaded before is refused at the first write; a write past the last row
      stops the pass with the writes before it kept. */
  method LoadPass(layouter: Layouter, table: RangeCheckTable, range: nat) returns (r: Result<()>, pass: TablePass)
    requires layouter.Valid() && table.value < layouter.grid.numTables
    modifies layouter`grid, layouter`tableWrites
    ensures layouter.Valid()
    ensures var n, used := old(layouter.grid.n), old(layouter.usedTables);
      && (r.Ok? <==> range <= n && (range == 0 || table.value !in used))
      && (r.Err? ==> r.error == if table.value in used then Synthesis else NotEnoughRowsAvailable)
    ensures r.Ok? ==> pass == OneColumn(table.value, range)
    ensures var n := old(layouter.grid.n);
      var written := if table.value in old(layouter.usedTables) then 0 else if range <= n then range else n;
      && layouter.tableWrites == old(layouter.tableWrites) + Loads(table.value, written)
      && layouter.grid == old(layouter.grid).WithTableRun(table.value, 0, Ramp(written))
  {
    LoadStep(old(layouter.grid), table.value, 0);
    pass := map[];
    var offset := 0;
    var value := 0;
    while value < range
      invariant value <= range && offset == value && value <= old(layouter.grid.n)
      invariant value > 0 ==> table.value !in old(layouter.usedTables)
      invariant pass == OneColumn(table.value, value)
      invariant layouter.Valid() && layouter.usedTables == old(layouter.usedTables)
      invariant layouter.grid == old(layouter.grid).WithTableRun(table.value, 0, Ramp(value))
      invariant layouter.tableWrites == old(layouter.tableWrites) + Loads(table.value, value)
    {
      LoadStep(old(layouter.grid), table.value, value);
      PassStep(table.value, value);
      var w;
      w, pass := layouter.AssignTable(pass, table.value, offset, FromInt(value));
      if w.Err? {
        return Err(w.error), pass;
      }
      offset := offset + 1;
      value := value + 1;
    }
    r := Ok(());
  }

  /** What the table layouter has recorded after the first `m` iterations: offsets `0 .. m - 1`
      of `col`, and nothing at all before the first. */
  function OneColumn(col: nat, m: nat): (pass: TablePass)
    ensures m > 0 <==> col in pass
  {
    if m == 0 then map[] else map[col := Prefix(m)]
  }

  /** After `m > 0` iterations the column holds offsets `0 .. m - 1` and nothing else was written. */
  lemma OneColumnLoaded(col: nat, m: nat)
    requires m > 0
    ensures OneColumn(col, m).Keys == {col} && Loaded(OneColumn(col, m), m)
    ensures PassLength(OneColumn(col, m)) == Ok(m)
  {
    PassLengthOf(OneColumn(col, m), m);
  }

  /** Each iteration records one more offset, whose default is set exactly when it is the first. */
  lemma PassStep(col: nat, m: nat)
    ensures 0 in Assigned(OneColumn(col, m), col) <==> m > 0
    ensures OneColumn(col, m)[col := Assigned(OneColumn(col, m), col) + {m}] == OneColumn(col, m + 1)
  {
    assert Prefix(m + 1) == Prefix(m) + {m};
    if m > 0 {
      assert 0 in Prefix(m);
    }
  }

  /** Loading starts from the table as it was; each iteration is one more single write. */
  lemma LoadStep(g: Grid, col: nat, m: nat)
    ensures g.WithTableRun(col, 0, Ramp(0)) == g && Loads(col, 0) == []
    ensures g.WithTableRun(col, 0, Ramp(m + 1)) == g.WithTableRun(col, 0, Ramp(m)).WithTable(col, m, FromInt(m))
    ensures Loads(col, m + 1) == Loads(col, m) + [TableWrite(col, m, FromInt(m))]
  {
    assert Ramp(0) == [];
    TableRunSnoc(g, col, 0, Ramp(m), FromInt(m));
    RampSnoc(m);
    assert Loads(col, m + 1)[..m] == Loads(col, m);
  }

  /** After a load that succeeds, the column holds `i` at every offset `i < range` and the
      default 0 at every later row; every other cell is as before. */
  lemma LoadedCell(g: Grid, table: RangeCheckTable, range: nat, col: nat, offset: nat)
    requires 0 < range < g.n && range <= P
    ensures g.WithTableRun(table.value, 0, Ramp(range)).WithFill({table.value}, range).TableValue(col, offset)
         == if col == table.value && offset < range then offset
            else if col == table.value && offset < g.n then 0
            else g.TableValue(col, offset)
  {
    var h := g.WithTableRun(table.value, 0, Ramp(range));
    TableRunAt(g, table.value, 0, Ramp(range), col, offset);
    TableRunAt(g, table.value, 0, Ramp(range), table.value, 0);
    FillAt(h, {table.value}, range, col, offset);
  }

  /** The loaded values are exactly `0 .. range - 1`. */
  lemma RampValues(range: nat)
    requires range <= P
    ensures forall x: Elem :: x in Ramp(range) <==> x < range
  {
    forall x: Elem
      ensures x in Ramp(range) <==> x < range
    {
      if x < range {
        assert Ramp(range)[x] == x;
      }
    }
  }

  /** Every write goes to the table's column, offsets strictly increase, each offset below
      `range` is written exactly once and no other offset is written. */
  lemma {:induction false} LoadsOnce(col: nat, range: nat)
    ensures forall i | 0 <= i < range :: Loads(col, range)[i].column == col
    ensures forall i, j | 0 <= i < j < range :: Loads(col, range)[i].offset < Loads(col, range)[j].offset
    ensures forall offset: nat :: OffsetCount(Loads(col, range), offset) == if offset < range then 1 else 0
  {
    if range > 0 {
      LoadsOnce(col, range - 1);
      var ws := Loads(col, range);
      assert ws[..range - 1] == Loads(col, range - 1);
    }
  }
}
