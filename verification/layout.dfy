/** The two stateful objects the circuits talk to: the constraint system that `configure`
    fills with columns and gates, and the layouter through which `synthesize` writes the
    assignment table. Regions are laid out one after another, each starting where the
    previous one ended. */
module Layout {
  import opened Field
  import opened Plonk

  /** The configuration registry: every allocation hands out the next index of its kind. */
  class ConstraintSystem {
    var numAdvice: nat
    var numInstance: nat
    var numSelectors: nat
    var numTables: nat
    var equality: set<Column>
    var gates: seq<Gate>

    constructor ()
      ensures numAdvice == 0 && numInstance == 0 && numSelectors == 0 && numTables == 0
      ensures equality == {} && gates == []
    {
      numAdvice, numInstance, numSelectors, numTables := 0, 0, 0, 0;
      equality, gates := {}, [];
    }

    method AdviceColumn() returns (c: nat)
      modifies this`numAdvice
      ensures c == old(numAdvice) && numAdvice == old(numAdvice) + 1
    {
      c := numAdvice;
      numAdvice := numAdvice + 1;
    }

    method InstanceColumn() returns (c: nat)
      modifies this`numInstance
      ensures c == old(numInstance) && numInstance == old(numInstance) + 1
    {
      c := numInstance;
      numInstance := numInstance + 1;
    }

    method Selector() returns (s: nat)
      modifies this`numSelectors
      ensures s == old(numSelectors) && numSelectors == old(numSelectors) + 1
    {
      s := numSelectors;
      numSelectors := numSelectors + 1;
    }

    method LookupTableColumn() returns (t: nat)
      modifies this`numTables
      ensures t == old(numTables) && numTables == old(numTables) + 1
    {
      t := numTables;
      numTables := numTables + 1;
    }

    /** Only advice and instance columns can take part in copy constraints. */
    method EnableEquality(c: Column)
      requires !c.Table?
      modifies this`equality
      ensures equality == old(equality) + {c}
    {
      equality := equality + {c};
    }

    method CreateGate(name: string, polys: seq<Expr>)
      modifies this`gates
      ensures gates == old(gates) + [Gate(name, polys)]
    {
      gates := gates + [Gate(name, polys)];
    }
  }

  /** One write into a lookup-table column, as recorded in the order it happened. */
  datatype TableWrite = TableWrite(column: nat, offset: nat, value: Elem)

  // ------------------------------------------------------------------ one `assign_table` call

  /** What the table layouter of one `assign_table` call records: for each column it has
      written, the offsets assigned so far. The column's default is set once offset 0 is. */
  type TablePass = map<nat, set<nat>>

  function Assigned(pass: TablePass, col: nat): (offsets: set<nat>) {
    if col in pass then pass[col] else {}
  }

  /** The offsets `0 .. len - 1`. */
  function Prefix(len: nat): (offsets: set<nat>)
    ensures forall i: nat :: i in offsets <==> i < len
  {
    if len == 0 then {} else Prefix(len - 1) + {len - 1}
  }

  lemma {:induction false} PrefixSize(len: nat)
    ensures |Prefix(len)| == len
  {
    if len > 0 {
      PrefixSize(len - 1);
    }
  }

  /** The pass wrote at least one column, and every column it wrote holds exactly the offsets
      `0 .. len - 1`. */
  ghost predicate Loaded(pass: TablePass, len: nat) {
    pass != map[] && forall c | c in pass :: pass[c] == Prefix(len)
  }

  /** The common length of the columns a pass wrote, or a synthesis error when it wrote none,
      left a gap in one, or wrote them to different lengths. */
  ghost function PassLength(pass: TablePass): (r: Result<nat>)
    ensures r.Ok? ==> Loaded(pass, r.value)
    ensures r.Err? ==> r.error == Synthesis
  {
    if pass == map[] then Err(Synthesis)
    else
      var c :| c in pass;
      if Loaded(pass, |pass[c]|) then Ok(|pass[c]|) else Err(Synthesis)
  }

  /** A pass that loaded its columns to one length has that length. */
  lemma PassLengthOf(pass: TablePass, len: nat)
    requires Loaded(pass, len)
    ensures PassLength(pass) == Ok(len)
  {
    PrefixSize(len);
  }

  /** The layouter of one run, over the mock prover's assignment table. */
  class Layouter {
    var grid: Grid
    /** The first row of the next region. */
    var cursor: nat
    /** The columns enabled for equality by the configuration. */
    const equality: set<Column>
    /** Every lookup-table write that reached the table, oldest first. */
    ghost var tableWrites: seq<TableWrite>
    /** The lookup-table columns loaded by earlier `assign_table` calls; they cannot be written again. */
    var usedTables: set<nat>

    /** The table has at least one row. */
    ghost predicate Valid()
      reads this
    {
      grid.n > 0
    }

    constructor (n: nat, instance: seq<seq<Elem>>, numAdvice: nat, numSelectors: nat, numTables: nat, equality: set<Column>)
      requires n > 0
      ensures Valid() && grid == Fresh(n, instance, numAdvice, numSelectors, numTables)
      ensures cursor == 0 && this.equality == equality && tableWrites == [] && usedTables == {}
    {
      grid := Fresh(n, instance, numAdvice, numSelectors, numTables);
      cursor := 0;
      this.equality := equality;
      tableWrites := [];
      usedTables := {};
    }

    method EnableSelector(s: nat, row: nat) returns (r: Result<()>)
      requires Valid() && s < grid.numSelectors
      modifies this`grid
      ensures Valid()
      ensures r.Ok? <==> row < old(grid.n)
      ensures grid == if r.Ok? then old(grid).WithSelector(s, row) else old(grid)
    {
      if row >= grid.n {
        return Err(NotEnoughRowsAvailable);
      }
      grid := grid.WithSelector(s, row);
      r := Ok(());
    }

    method AssignAdvice(col: nat, row: nat, v: Elem) returns (r: Result<AssignedCell>)
      requires Valid() && col < grid.numAdvice
      modifies this`grid
      ensures Valid()
      ensures r.Ok? <==> row < old(grid.n)
      ensures grid == if r.Ok? then old(grid).WithAdvice(col, row, v) else old(grid)
      ensures r.Ok? ==> r.value == AssignedCell(Cell(Advice(col), row), v)
    {
      if row >= grid.n {
        return Err(NotEnoughRowsAvailable);
      }
      grid := grid.WithAdvice(col, row, v);
      r := Ok(AssignedCell(Cell(Advice(col), row), v));
    }

    /** Copies public input `(inst, instRow)` into an advice cell and constrains the two equal. */
    method AssignAdviceFromInstance(inst: nat, instRow: nat, col: nat, row: nat) returns (r: Result<AssignedCell>)
      requires Valid() && col < grid.numAdvice
      modifies this`grid
      ensures Valid()
      ensures r.Ok? <==> instRow < old(grid.n) && row < old(grid.n)
                         && Advice(col) in equality && Instance(inst) in equality
      ensures r.Ok? ==>
        var v := old(grid).InstanceValue(inst, instRow);
        && grid == old(grid).WithAdvice(col, row, v).WithCopy(Copy(Cell(Advice(col), row), Cell(Instance(inst), instRow)))
        && r.value == AssignedCell(Cell(Advice(col), row), v)
    {
      if instRow >= grid.n {
        return Err(BoundsFailure);
      }
      var v := grid.InstanceValue(inst, instRow);
      if row >= grid.n {
        return Err(NotEnoughRowsAvailable);
      }
      grid := grid.WithAdvice(col, row, v);
      if Advice(col) !in equality || Instance(inst) !in equality {
        return Err(ColumnNotInPermutation);
      }
      grid := grid.WithCopy(Copy(Cell(Advice(col), row), Cell(Instance(inst), instRow)));
      r := Ok(AssignedCell(Cell(Advice(col), row), v));
    }

    /** Writes the value of `source` into an advice cell and constrains the two equal. */
    method CopyAdvice(source: AssignedCell, col: nat, row: nat) returns (r: Result<AssignedCell>)
      requires Valid() && col < grid.numAdvice
      modifies this`grid
      ensures Valid()
      ensures r.Ok? <==> row < old(grid.n) && source.cell.row < old(grid.n)
                         && Advice(col) in equality && source.cell.column in equality
      ensures r.Ok? ==>
        && grid == old(grid).WithAdvice(col, row, source.value).WithCopy(Copy(Cell(Advice(col), row), source.cell))
        && r.value == AssignedCell(Cell(Advice(col), row), source.value)
    {
      if row >= grid.n {
        return Err(NotEnoughRowsAvailable);
      }
      grid := grid.WithAdvice(col, row, source.value);
      if source.cell.row >= grid.n {
        return Err(BoundsFailure);
      }
      if Advice(col) !in equality || source.cell.column !in equality {
        return Err(ColumnNotInPermutation);
      }
      grid := grid.WithCopy(Copy(Cell(Advice(col), row), source.cell));
      r := Ok(AssignedCell(Cell(Advice(col), row), source.value));
    }

    /** Constrains `cell` to equal public input `(inst, row)`; nothing is written. */
    method ConstrainInstance(cell: Cell, inst: nat, row: nat) returns (r: Result<()>)
      requires Valid()
      modifies this`grid
      ensures Valid()
      ensures r.Ok? <==> cell.row < old(grid.n) && row < old(grid.n)
                         && cell.column in equality && Instance(inst) in equality
      ensures grid == if r.Ok? then old(grid).WithCopy(Copy(cell, Cell(Instance(inst), row))) else old(grid)
    {
      if cell.row >= grid.n || row >= grid.n {
        return Err(BoundsFailure);
      }
      if cell.column !in equality || Instance(inst) !in equality {
        return Err(ColumnNotInPermutation);
      }
      grid := grid.WithCopy(Copy(cell, Cell(Instance(inst), row)));
      r := Ok(());
    }

    /** `assign_cell` of the table layouter of the open `assign_table` call, which has recorded
        `pass` so far. A column loaded by an earlier call is refused. A write past the last row
        fails. Otherwise the write reaches the table; a second write at offset 0, the column's
        default, is then refused all the same. */
    method AssignTable(pass: TablePass, col: nat, offset: nat, v: Elem) returns (r: Result<()>, next: TablePass)
      requires Valid() && col < grid.numTables
      modifies this`grid, this`tableWrites
      ensures Valid()
      ensures r.Ok? <==> col !in usedTables && offset < old(grid.n) && !(offset == 0 && 0 in Assigned(pass, col))
      ensures r.Err? ==> r.error == if col !in usedTables && offset >= old(grid.n) then NotEnoughRowsAvailable else Synthesis
      ensures var lands := col !in usedTables && offset < old(grid.n);
        && grid == (if lands then old(grid).WithTable(col, offset, v) else old(grid))
        && tableWrites == old(tableWrites) + (if lands then [TableWrite(col, offset, v)] else [])
      ensures next == if r.Ok? then pass[col := Assigned(pass, col) + {offset}] else pass
    {
      next := pass;
      if col in usedTables {
        return Err(Synthesis), next;
      }
      if offset >= grid.n {
        return Err(NotEnoughRowsAvailable), next;
      }
      grid := grid.WithTable(col, offset, v);
      tableWrites := tableWrites + [TableWrite(col, offset, v)];
      if offset == 0 && 0 in Assigned(pass, col) {
        return Err(Synthesis), next;
      }
      next := pass[col := Assigned(pass, col) + {offset}];
      r := Ok(());
    }

    /** The end of an `assign_table` call whose closure returned `pass`: the columns must share
        one length with no gap, they become used, and `fill_from_row` copies each column's
        default into its rows from that length to the last, which needs that row to exist. */
    method CloseTable(pass: TablePass) returns (r: Result<()>)
      requires Valid()
      modifies this`grid, this`usedTables
      ensures Valid()
      ensures var len := PassLength(pass);
        && (r.Ok? <==> len.Ok? && len.value < old(grid.n))
        && (r.Err? ==> r.error == if len.Ok? then NotEnoughRowsAvailable else Synthesis)
        && usedTables == old(usedTables) + (if len.Ok? then pass.Keys else {})
        && grid == if r.Ok? then old(grid).WithFill(pass.Keys, len.value) else old(grid)
    {
      if pass == map[] {
        return Err(Synthesis);
      }
      var c :| c in pass;
      var len := |pass[c]|;
      if exists d | d in pass :: pass[d] != Prefix(len) {
        if PassLength(pass).Ok? {
          PrefixSize(PassLength(pass).value);
        }
        return Err(Synthesis);
      }
      PassLengthOf(pass, len);
      usedTables := usedTables + pass.Keys;
      if len >= grid.n {
        return Err(NotEnoughRowsAvailable);
      }
      grid := grid.WithFill(pass.Keys, len);
      r := Ok(());
    }

    /** Records the region that started at `cursor` and moves the cursor past it. */
    method CloseRegion(name: string, height: nat)
      requires Valid()
      modifies this`grid, this`cursor
      ensures Valid()
      ensures grid == old(grid).WithRegion(name, old(cursor), height)
      ensures cursor == old(cursor) + height
    {
      grid := grid.WithRegion(name, cursor, height);
      cursor := cursor + height;
    }
  }
}
