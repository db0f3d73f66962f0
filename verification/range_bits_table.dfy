/** The lookup table of the third range-check example: two table columns, `value` and
    `num_bits`. Its `load` writes twice per offset, both times into `value`: first `NUM_BITS`,
    then the offset itself. `RangeBitsTable.Load` models it as written; `LoadSeparate` is the
    loader with the first write aimed at `num_bits`. */
module RangeBitsTable {
  import opened Field
  import opened Plonk
  import opened Layout
  import RangeTable

  datatype RangeCheckTable = RangeCheckTable(value: nat, numBits: nat)

  method Configure(cs: ConstraintSystem) returns (table: RangeCheckTable)
    modifies cs
    ensures table == RangeCheckTable(old(cs.numTables), old(cs.numTables) + 1)
    ensures table.value != table.numBits
    ensures cs.numTables == old(cs.numTables) + 2
    ensures cs.numAdvice == old(cs.numAdvice) && cs.numInstance == old(cs.numInstance)
    ensures cs.numSelectors == old(cs.numSelectors)
    ensures cs.equality == old(cs.equality) && cs.gates == old(cs.gates)
  {
    var value := cs.LookupTableColumn();
    var numBits := cs.LookupTableColumn();
    table := RangeCheckTable(value, numBits);
  }

  // ------------------------------------------------------------------ the loader as written

  /** The writes of the first `m` iterations: at each offset, `numBits` and then the offset,
      both into column `col`. */
  function PairLoads(col: nat, numBits: nat, m: nat): (ws: seq<TableWrite>)
    ensures |ws| == 2 * m
  {
    if m == 0 then []
    else PairLoads(col, numBits, m - 1) + [TableWrite(col, m - 1, FromInt(numBits)), TableWrite(col, m - 1, FromInt(m - 1))]
  }

  /** `load` as written: one `assign_table` call running `LoadPass`. A pass that wrote nothing
      (`range == 0`) is refused when it ends, so the load fails whatever `range` is. For
      `range >= 1` the second write has landed before it is refused, so the `value` column's
      offset 0 ends up holding 0, not `NUM_BITS`; the column is not marked used. */
  method Load(layouter: Layouter, table: RangeCheckTable, range: nat, numBits: nat) returns (r: Result<()>)
    requires layouter.Valid() && table.value < layouter.grid.numTables
    modifies layouter`grid, layouter`tableWrites, layouter`usedTables
    ensures layouter.Valid()
    ensures r == Err(Synthesis)
    ensures layouter.usedTables == old(layouter.usedTables)
    ensures var lands := range > 0 && table.value !in old(layouter.usedTables);
      && layouter.grid == (if lands then old(layouter.grid).WithTable(table.value, 0, 0) else old(layouter.grid))
      && layouter.tableWrites == old(layouter.tableWrites)
           + (if lands then [TableWrite(table.value, 0, FromInt(numBits)), TableWrite(table.value, 0, FromInt(0))] else [])
  {
    var pass;
    r, pass := LoadPass(layouter, table, range, numBits);
    if r.Ok? {
      r := layouter.CloseTable(pass);
    }
  }

  /** The closure of `load` as written. Its first write sets the `value` column's offset-0 cell,
      which is the column's default, to `NUM_BITS`; its second write sets that cell again, to 0:
      the table layouter lets the write through and then refuses it. So any non-empty pass fails
      on its first row, with both writes landed, or with none when the column was loaded before. */
  method LoadPass(layouter: Layouter, table: RangeCheckTable, range: nat, numBits: nat) returns (r: Result<()>, pass: TablePass)
    requires layouter.Valid() && table.value < layouter.grid.numTables
    modifies layouter`grid, layouter`tableWrites
    ensures layouter.Valid()
    ensures r.Ok? <==> range == 0
    ensures r.Ok? ==> pass == map[]
    ensures r.Err? ==> r.error == Synthesis
    ensures var lands := range > 0 && table.value !in old(layouter.usedTables);
      && layouter.grid == (if lands then old(layouter.grid).WithTable(table.value, 0, 0) else old(layouter.grid))
      && layouter.tableWrites == old(layouter.tableWrites)
           + (if lands then [TableWrite(table.value, 0, FromInt(numBits)), TableWrite(table.value, 0, FromInt(0))] else [])
  {
    var offset := 0;
    var value := 0;
    pass := map[];
    r := Ok(());
    while value < range && r.Ok?
      invariant offset == value && (r.Ok? ==> value == 0 && pass == map[])
      invariant layouter.Valid() && layouter.usedTables == old(layouter.usedTables)
      invariant r.Ok? ==> layouter.grid == old(layouter.grid) && layouter.tableWrites == old(layouter.tableWrites)
      invariant r.Err? ==> range > 0 && r.error == Synthesis
      invariant r.Err? ==> var lands := table.value !in old(layouter.usedTables);
        && layouter.grid == (if lands then old(layouter.grid).WithTable(table.value, 0, 0) else old(layouter.grid))
        && layouter.tableWrites == old(layouter.tableWrites)
             + (if lands then [TableWrite(table.value, 0, FromInt(numBits)), TableWrite(table.value, 0, FromInt(0))] else [])
      decreases range - value, if r.Ok? then 1 else 0
    {
      TableOverwrite(old(layouter.grid), table.value, 0, FromInt(numBits), 0);
      var first;
      first, pass := layouter.AssignTable(pass, table.value, offset, FromInt(numBits));
      if first.Err? {
        r := Err(first.error);
      } else {
        var second;
        second, pass := layouter.AssignTable(pass, table.value, offset, FromInt(value));
        if second.Err? {
          r := Err(second.error);
        } else {
          offset := offset + 1;
          value := value + 1;
        }
      }
    }
  }

  /** Every write goes to the `value` column; the one at position `2 i` writes `numBits` and
      the one at `2 i + 1` writes `i`, both at offset `i`. */
  lemma {:induction false} PairLoadsAt(col: nat, numBits: nat, m: nat, k: nat)
    requires k < 2 * m
    ensures PairLoads(col, numBits, m)[k] == TableWrite(col, k / 2, if k % 2 == 0 then FromInt(numBits) else FromInt(k / 2))
  {
    if k < 2 * (m - 1) {
      PairLoadsAt(col, numBits, m - 1, k);
    }
  }

  /** Each offset below `range` is written exactly twice and no other offset is written. */
  lemma {:induction false} PairLoadsTwice(col: nat, numBits: nat, range: nat, offset: nat)
    ensures RangeTable.OffsetCount(PairLoads(col, numBits, range), offset) == if offset < range then 2 else 0
  {
    if range > 0 {
      PairLoadsTwice(col, numBits, range - 1, offset);
      var pair := [TableWrite(col, range - 1, FromInt(numBits)), TableWrite(col, range - 1, FromInt(range - 1))];
      RangeTable.OffsetCountAppend(PairLoads(col, numBits, range - 1), pair, offset);
      assert pair[..1] == [pair[0]] && [pair[0]][..0] == [];
      assert RangeTable.OffsetCount([pair[0]], offset) == if offset == range - 1 then 1 else 0;
      assert RangeTable.OffsetCount(pair, offset) == if offset == range - 1 then 2 else 0;
    }
  }

  // ------------------------------------------------------------------ the loader with two columns

  /** The writes of the first `m` iterations of the corrected loop. */
  function SeparateLoads(table: RangeCheckTable, numBits: nat, m: nat): (ws: seq<TableWrite>)
    ensures |ws| == 2 * m
  {
    if m == 0 then []
    else SeparateLoads(table, numBits, m - 1)
         + [TableWrite(table.numBits, m - 1, FromInt(numBits)), TableWrite(table.value, m - 1, FromInt(m - 1))]
  }

  /** The table after the first `m` iterations of the corrected loop. */
  function SeparateGrid(g: Grid, table: RangeCheckTable, numBits: nat, m: nat): (h: Grid)
    ensures h == g.(tables := h.tables)
  {
    if m == 0 then g
    else SeparateGrid(g, table, numBits, m - 1).WithTable(table.numBits, m - 1, FromInt(numBits))
                                              .WithTable(table.value, m - 1, FromInt(m - 1))
  }

  /** What the table layouter has recorded after the first `m` iterations of the corrected
      loop: offsets `0 .. m - 1` of both columns, and nothing before the first. */
  function BothColumns(table: RangeCheckTable, m: nat): (pass: TablePass)
    ensures m > 0 <==> table.numBits in pass
  {
    if m == 0 then map[] else map[table.numBits := Prefix(m), table.value := Prefix(m)]
  }

  /** After `m > 0` iterations both columns hold offsets `0 .. m - 1` and nothing else was written. */
  lemma BothColumnsLoaded(table: RangeCheckTable, m: nat)
    requires table.value != table.numBits && m > 0
    ensures BothColumns(table, m).Keys == {table.numBits, table.value} && Loaded(BothColumns(table, m), m)
    ensures PassLength(BothColumns(table, m)) == Ok(m)
  {
    PassLengthOf(BothColumns(table, m), m);
  }

  /** The table after a first row that fails because the two columns are not distinct and
      unloaded: the `num_bits` write lands unless that column was loaded before, and the `value`
      write lands unless either column was. */
  function FirstRowGrid(g: Grid, used: set<nat>, table: RangeCheckTable, numBits: nat): (h: Grid) {
    if table.numBits in used then g
    else if table.value in used then g.WithTable(table.numBits, 0, FromInt(numBits))
    else SeparateGrid(g, table, numBits, 1)
  }

  /** The writes of that failing first row that reach the table. */
  function FirstRowWrites(used: set<nat>, table: RangeCheckTable, numBits: nat): (ws: seq<TableWrite>) {
    if table.numBits in used then []
    else if table.value in used then [TableWrite(table.numBits, 0, FromInt(numBits))]
    else SeparateLoads(table, numBits, 1)
  }

  /** Two distinct columns, neither loaded by an earlier `assign_table` call. */
  predicate Unloaded(used: set<nat>, table: RangeCheckTable) {
    table.value != table.numBits && table.numBits !in used && table.value !in used
  }

  /** `load` with its first write aimed at the `num_bits` column: one `assign_table` call running
      `LoadSeparatePass`. When the pass ends, a pass that wrote nothing is refused, both columns
      become used, and their rows from `range` to the last are filled with their defaults
      (`NUM_BITS` and 0), which needs row `range` to exist. */
  method LoadSeparate(layouter: Layouter, table: RangeCheckTable, range: nat, numBits: nat) returns (r: Result<()>)
    requires layouter.Valid() && table.value < layouter.grid.numTables && table.numBits < layouter.grid.numTables
    modifies layouter`grid, layouter`tableWrites, layouter`usedTables
    ensures layouter.Valid()
    ensures var n, unloaded := old(layouter.grid.n), Unloaded(old(layouter.usedTables), table);
      && (r.Ok? <==> 0 < range < n && unloaded)
      && (r.Err? ==> r.error == if range == 0 || !unloaded then Synthesis else NotEnoughRowsAvailable)
      && layouter.usedTables == old(layouter.usedTables) + (if 0 < range <= n && unloaded then {table.numBits, table.value} else {})
    ensures range > 0 && !Unloaded(old(layouter.usedTables), table) ==>
      && layouter.grid == FirstRowGrid(old(layouter.grid), old(layouter.usedTables), table, numBits)
      && layouter.tableWrites == old(layouter.tableWrites) + FirstRowWrites(old(layouter.usedTables), table, numBits)
    ensures range == 0 || Unloaded(old(layouter.usedTables), table) ==>
      var done := if range <= old(layouter.grid.n) then range else old(layouter.grid.n);
      && layouter.grid == (if r.Ok? then SeparateGrid(old(layouter.grid), table, numBits, range).WithFill({table.numBits, table.value}, range)
                           else SeparateGrid(old(layouter.grid), table, numBits, done))
      && layouter.tableWrites == old(layouter.tableWrites) + SeparateLoads(table, numBits, done)
  {
    var pass;
    r, pass := LoadSeparatePass(layouter, table, range, numBits);
    if r.Ok? {
      if range > 0 {
        BothColumnsLoaded(table, range);
      }
      r := layouter.CloseTable(pass);
    }
  }

  /** The closure of the corrected `load`: at each offset, `NUM_BITS` into `num_bits` and the
      offset into `value`. A write past the last row stops the pass with the writes before it
      kept; so does a write into a column loaded before, or a second setting of a default, which
      happens on the first row unless the two columns are distinct and unloaded. */
  method LoadSeparatePass(layouter: Layouter, table: RangeCheckTable, range: nat, numBits: nat) returns (r: Result<()>, pass: TablePass)
    requires layouter.Valid() && table.value < layouter.grid.numTables && table.numBits < layouter.grid.numTables
    modifies layouter`grid, layouter`tableWrites
    ensures layouter.Valid()
    ensures var n, unloaded := old(layouter.grid.n), Unloaded(old(layouter.usedTables), table);
      && (r.Ok? <==> range <= n && (range == 0 || unloaded))
      && (r.Err? ==> r.error == if unloaded then NotEnoughRowsAvailable else Synthesis)
    ensures r.Ok? ==> pass == BothColumns(table, range)
    ensures range > 0 && !Unloaded(old(layouter.usedTables), table) ==>
      && layouter.grid == FirstRowGrid(old(layouter.grid), old(layouter.usedTables), table, numBits)
      && layouter.tableWrites == old(layouter.tableWrites) + FirstRowWrites(old(layouter.usedTables), table, numBits)
    ensures range == 0 || Unloaded(old(layouter.usedTables), table) ==>
      var done := if range <= old(layouter.grid.n) then range else old(layouter.grid.n);
      && layouter.grid == SeparateGrid(old(layouter.grid), table, numBits, done)
      && layouter.tableWrites == old(layouter.tableWrites) + SeparateLoads(table, numBits, done)
  {
    pass := map[];
    var offset := 0;
    var value := 0;
    while value < range
      invariant value <= range && offset == value && value <= old(layouter.grid.n)
      invariant value > 0 ==> Unloaded(old(layouter.usedTables), table)
      invariant pass == BothColumns(table, value)
      invariant layouter.Valid() && layouter.usedTables == old(layouter.usedTables)
      invariant layouter.grid == SeparateGrid(old(layouter.grid), table, numBits, value)
      invariant layouter.tableWrites == old(layouter.tableWrites) + SeparateLoads(table, numBits, value)
    {
      SeparatePassStep(table, value);
      var first;
      first, pass := layouter.AssignTable(pass, table.numBits, offset, FromInt(numBits));
      if first.Err? {
        return Err(first.error), pass;
      }
      var second;
      second, pass := layouter.AssignTable(pass, table.value, offset, FromInt(value));
      if second.Err? {
        return Err(second.error), pass;
      }
      offset := offset + 1;
      value := value + 1;
    }
    r := Ok(());
  }

  /** Each iteration of the corrected loop records offset `m` of `num_bits` and then of `value`;
      with distinct columns, each sets its column's default exactly when `m` is the first. */
  lemma SeparatePassStep(table: RangeCheckTable, m: nat)
    ensures BothColumns(table, 0) == map[]
    ensures 0 in Assigned(BothColumns(table, m), table.numBits) <==> m > 0
    ensures var mid := BothColumns(table, m)[table.numBits := Assigned(BothColumns(table, m), table.numBits) + {m}];
      && (table.value != table.numBits ==> (0 in Assigned(mid, table.value) <==> m > 0))
      && (table.value != table.numBits ==> mid[table.value := Assigned(mid, table.value) + {m}] == BothColumns(table, m + 1))
  {
    assert Prefix(m + 1) == Prefix(m) + {m};
    if m > 0 {
      assert 0 in Prefix(m);
    }
  }

  /** After a load that succeeds, `value` holds `i` at every offset `i < range` and 0 at every
      later row, `num_bits` holds `numBits` at every row; every other cell is as before. */
  lemma LoadedSeparateCell(g: Grid, table: RangeCheckTable, numBits: nat, range: nat, col: nat, offset: nat)
    requires table.value != table.numBits && 0 < range < g.n && range <= P
    ensures SeparateGrid(g, table, numBits, range).WithFill({table.numBits, table.value}, range).TableValue(col, offset)
         == if col == table.value && offset < range then offset
            else if col == table.value && offset < g.n then 0
            else if col == table.numBits && offset < g.n then FromInt(numBits)
            else g.TableValue(col, offset)
  {
    var h := SeparateGrid(g, table, numBits, range);
    SeparateCell(g, table, numBits, range, col, offset);
    SeparateCell(g, table, numBits, range, col, 0);
    FillAt(h, {table.numBits, table.value}, range, col, offset);
  }

  /** With two distinct columns, after `m` iterations the `value` column holds `i` and the
      `num_bits` column holds `numBits` at every offset `i < m`; every other cell is as before. */
  lemma {:induction false} SeparateCell(g: Grid, table: RangeCheckTable, numBits: nat, m: nat, col: nat, offset: nat)
    requires table.value != table.numBits && m <= P
    ensures SeparateGrid(g, table, numBits, m).TableValue(col, offset)
         == if col == table.value && offset < m then offset
            else if col == table.numBits && offset < m then FromInt(numBits)
            else g.TableValue(col, offset)
  {
    if m > 0 {
      SeparateCell(g, table, numBits, m - 1, col, offset);
    }
  }

  /** The loop as written asks, for its first row, to set the `value` column's offset-0 cell
      twice (first to `numBits`, then to 0); the corrected loop sets the offset-0 cells of two
      different columns once each. */
  lemma DefaultSetTwice(table: RangeCheckTable, numBits: nat, range: nat)
    requires range >= 1 && table.value != table.numBits
    ensures var ws := PairLoads(table.value, numBits, range);
      ws[0].column == ws[1].column == table.value && ws[0].offset == ws[1].offset == 0
    ensures var ws := SeparateLoads(table, numBits, range);
      ws[0].column != ws[1].column && ws[0].offset == ws[1].offset == 0
  {
    PairLoadsAt(table.value, numBits, range, 0);
    PairLoadsAt(table.value, numBits, range, 1);
    SeparateLoadsAt(table, numBits, range, 0);
    SeparateLoadsAt(table, numBits, range, 1);
  }

  /** Write `2 i` of the corrected loop is `numBits` into `num_bits` and write `2 i + 1` is `i`
      into `value`, both at offset `i`. */
  lemma {:induction false} SeparateLoadsAt(table: RangeCheckTable, numBits: nat, m: nat, k: nat)
    requires k < 2 * m
    ensures SeparateLoads(table, numBits, m)[k]
         == if k % 2 == 0 then TableWrite(table.numBits, k / 2, FromInt(numBits)) else TableWrite(table.value, k / 2, FromInt(k / 2))
  {
    if k < 2 * (m - 1) {
      SeparateLoadsAt(table, numBits, m - 1, k);
    }
  }
}
