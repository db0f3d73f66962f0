# halo2 example circuits, modelled in Dafny

This project models the example circuits of the halo2-examples repository together with the
part of the halo2 circuit library they rely on.

The circuits:

- the running-sum chip `AddScalarChip` (`add1`);
- the Fibonacci chip;
- the small-range check `range_check` / `bool_check` with its `MyCircuit` and the
  `RangeConstrained` wrapper;
- the two lookup-table loaders of the range-check examples;
- the is-zero gadget.

Each circuit has a configuration pass, which declares columns and gates, and a synthesis pass,
which fills a table of `2^k` rows. A mock verification then re-evaluates every gate at every row
and every equality constraint, and reports what fails.

Modules:

- `Field` is the prime field: integers modulo the Pallas base modulus.
  - The field's inverse is a parameter `inv` constrained by `IsInvertOrZero` (invert, with 0
    mapped to 0).
  - `ZeroProduct` derives the absence of zero divisors from it.
- `Plonk` is the value side of the library:
  - expressions and their evaluation at a row;
  - the assignment table `Grid`, with advice, selector, instance and lookup-table cells, equality
    constraints and regions;
  - the verification pass `Verify`, which lists `ConstraintNotSatisfied` and `Permutation`
    failures in row order, then copy order.
- `Layout` is the state side of the library:
  - the `ConstraintSystem` class that configuration mutates;
  - the `Layouter` class that synthesis mutates: its table, its region cursor, the log of
    lookup-table writes and the set of lookup-table columns already loaded.
  - A write past the last row fails with `NotEnoughRowsAvailable`.
  - Lookup tables are loaded by `assign_table` calls. The layouter records, per call, the offsets
    written in each column. It refuses a column loaded by an earlier call, and a second write to
    a column's offset 0, which holds the column's default; the refused second write has already
    reached the table.
  - When the call ends, it is refused if it wrote nothing, or if its columns do not all hold the
    same gap-free run of offsets. Otherwise its columns become used, and every row after the run
    gets the column's default, which needs that row to exist.
  - These refusals are the library's generic synthesis error, `Synthesis`.
- `AddScalar`, `Fibonacci`, `RangeCheck`, `RangeTable`, `RangeBitsTable` and `IsZero` are the
  circuits, one module per source file.
  - Chip methods are methods over a `Layouter`. Each is proved against a function that gives the
    table it leaves behind.
  - Lemmas then prove what the circuit promises about that table: the witness values, the gates
    holding, and the verdict of `Verify`.
  - `Run` methods replay `MockProver::run` followed by `verify()`.

The library itself (`halo2_proofs`) is not part of this repository. `Plonk` and `Layout` are a
minimal model of the behaviour the circuits depend on:

- rotations wrap around the table;
- unassigned cells read as zero;
- every row is usable;
- equality constraints need equality-enabled columns.

## Model

| member | source | states |
|---|---|---|
| AddScalar.AddGate | src/add1/example1.rs:41-49 | the "add" gate polynomial `s * ((a + scalar) - out)` over `adv[r+1]`, `adv[r]` and `adv[r+2]`; it has no contract of its own, and `AddGateIff` states when it vanishes |
| AddScalar.AddGateIff | src/add1/example1.rs:41-49 | the "add" gate vanishes at a row exactly when its selector is off or `adv[r+1] + adv[r] == adv[r+2]` |
| AddScalar.Witness | src/add1/example1.rs:70-78 | the region's advice column has `Last(nrows) + 1` rows, `scalar` at row 0 and `value` at row 1 |
| AddScalar.WitnessStep | src/add1/example1.rs:82-90 | each row from 2 to the last holds the row above plus `scalar` |
| AddScalar.RunningSumClosedForm | src/add1/example1.rs:82-90 | row `k >= 1` holds `value + (k - 1) * scalar` in the field |
| AddScalar.Configure | src/add1/example1.rs:33-56 | allocates instance, advice and selector columns, enables equality on the advice and instance columns, and adds the "add" gate |
| AddScalar.Assign | src/add1/example1.rs:58-95 | succeeds exactly when rows `0 ..= Last(nrows)` of the region fit; the selector is on at the region's first row only; the column holds the witness; it returns the cell at row `nrows` (row 1 when `nrows < 2`) |
| AddScalar.AssignNext | src/add1/example1.rs:83-88 | one loop step writes the previous cell's value plus `scalar` at the next row and returns that cell |
| AddScalar.AssignSums | src/add1/example1.rs:82-92 | the `2..=nrows` loop extends the witness row by row and returns the last cell |
| AddScalar.ExposePublic | src/add1/example1.rs:96-103 | binds the cell to public-input row `row` and nothing else changes; it fails when a cell is outside the table or a column is not equality-enabled |
| AddScalar.Synthesize | src/add1/example1.rs:132-150 | the table after `synthesize`: the region of `Assign`, then the binding of its last cell to public input 0 |
| AddScalar.SynthesizedLayout | src/add1/example1.rs:132-150 | on a fresh table the witness sits in rows `0 ..= Last`, the selector is on at row 0 only, and the single equality constraint binds the last cell to public input 0 |
| AddScalar.LaidGates | src/add1/example1.rs:41-49 | for `nrows >= 2` the gate vanishes on every row |
| AddScalar.LaidVerify | src/add1/example1.rs:139-147 | for `nrows >= 2` verification passes exactly when public input 0 is `value + (nrows - 1) * scalar`; otherwise it reports exactly the one failed binding |
| AddScalar.Run | src/add1/example1.rs:120-150 | the mock run succeeds exactly when there is one instance column that fits and the region fits in `2^k` rows; for `nrows >= 2` its verdict is the one of `LaidVerify` |
| AddScalar.Scenarios | src/add1/example1.rs:176-227 | `value = scalar = 1` summed to row 10 or row 1 000 000 gives 10 or 1 000 000, within `2^5` or `2^20` rows |
| AddScalar.MockScenarios | src/add1/example1.rs:176-227 | the mock run with `k = 5`, `value = scalar = 1`, `nrows = 10` and public input 10, and the one with `k = 20`, `nrows = 1 000 000` and public input 1 000 000, both succeed with no failure |
| Fibonacci.Fib | src/fibonacci/example1.rs:166-174 | the sequence the chain computes, `s0`, `s1`, `s(i+2) = s(i) + s(i+1)` in the field; it has no contract of its own, and `ChainValues`, `LaidVerify` and `Scenario` state what the table holds in its terms |
| Fibonacci.FibGate | src/fibonacci/example1.rs:57-64 | the "add" gate polynomial `s * (a + b - c)` on one row; it has no contract of its own, and `FibGateIff` states when it vanishes |
| Fibonacci.FibGateIff | src/fibonacci/example1.rs:57-64 | the "add" gate vanishes at a row exactly when its selector is off or `a + b == c` on that row |
| Fibonacci.Configure | src/fibonacci/example1.rs:45-71 | allocates advice `a, b, c`, a selector and an instance column, enables equality on all four columns, and adds the gate |
| Fibonacci.AssignInitialValues | src/fibonacci/example1.rs:73-108 | one region: selector on; `a` and `b` copied from public inputs 0 and 1, with their equality constraints; `c = a + b`; returns the three cells |
| Fibonacci.AssignRow | src/fibonacci/example1.rs:109-134 | one region: selector on; `prev_b` copied into `a` and `prev_c` into `b`, each with an equality constraint; `c = prev_b + prev_c`; returns `c` |
| Fibonacci.ExposePublic | src/fibonacci/example1.rs:135-142 | binds the cell to public-input row `row`; nothing else changes |
| Fibonacci.InitialRegionFacts | src/fibonacci/example1.rs:77-107 | the initial region holds terms 0, 1, 2 of the sequence seeded by public inputs 0 and 1, turns the selector on at its row only, and appends its two bindings |
| Fibonacci.NextRegionFacts | src/fibonacci/example1.rs:115-131 | a next-row region holds `prev_b`, `prev_c` and their sum, changes no other row, turns the selector on at its row only, and appends its two equality constraints |
| Fibonacci.PrevNext | src/fibonacci/example1.rs:169-174 | after each step the old `prev_c` is the new `prev_b`, and the new `prev_c` is the new region's `c` cell |
| Fibonacci.NextStep | src/fibonacci/example1.rs:169-174 | one loop iteration moves the synthesis one region further down the chain |
| Fibonacci.AssignRows | src/fibonacci/example1.rs:166-174 | the `3..10` loop succeeds exactly when its 7 regions fit and leaves the table at step 7 of the chain |
| Fibonacci.Synthesize | src/fibonacci/example1.rs:160-179 | the table after `synthesize`: the chain of 8 regions, then the binding of the last `c` cell to public input 2 |
| Fibonacci.ChainValues | src/fibonacci/example1.rs:166-174 | after `j` regions, row `i` holds terms `i, i+1, i+2` of the sequence seeded by public inputs 0 and 1; other rows are unchanged |
| Fibonacci.ChainConstraints | src/fibonacci/example1.rs:166-174 | the chain turns the selector on at exactly its rows and appends its equality constraints in order |
| Fibonacci.ChainCopiesHold | src/fibonacci/example1.rs:120-122 | every equality constraint of the chain holds in a table whose rows hold the sequence |
| Fibonacci.ChainLaid | src/fibonacci/example1.rs:160-179 | from an empty table the synthesized chain plus the output binding is laid out as verification needs |
| Fibonacci.SynthesizedLayout | src/fibonacci/example1.rs:160-179 | the fresh-run table is laid out with the configuration `configure` returns |
| Fibonacci.LaidGates | src/fibonacci/example1.rs:57-64 | the gate vanishes on every row of that table |
| Fibonacci.LaidVerify | src/fibonacci/example1.rs:176 | verification passes exactly when public input 2 is term 9 of the sequence seeded by public inputs 0 and 1; otherwise only the output binding is reported |
| Fibonacci.SynthesizedVerify | src/fibonacci/example1.rs:160-179 | the same verdict for the fresh-run table, stated on the public inputs |
| Fibonacci.Run | src/fibonacci/example1.rs:148-179 | the mock run succeeds exactly when there is one instance column that fits and the 8 rows fit; its verdict and its failure list follow `SynthesizedVerify` |
| Fibonacci.Scenario | src/fibonacci/example1.rs:190-204 | seeds 1 and 1 give 55 as the public output, within `2^5` rows |
| RangeCheck.RangeCheck | src/range_check/example1.rs:64-68 | the fold `word * (1 - word) * ... * (range - 1 - word)`; it has no contract of its own, and `RangeCheckEval` and `RangeCheckFieldIff` state its value and when it vanishes |
| RangeCheck.BoolCheck | src/range_check/example1.rs:57-60 | `range_check(value, 2)`; it has no contract of its own, and `BoolCheckIff` states when it vanishes |
| RangeCheck.RangeCheckEmpty | src/range_check/example1.rs:64-68 | for `range <= 1` the fold is the word itself |
| RangeCheck.RangeCheckEval | src/range_check/example1.rs:64-68 | the expression evaluates to `v * (1 - v) * ... * (range - 1 - v)` reduced into the field |
| RangeCheck.RangePolyZeroIff | src/range_check/example1.rs:62-68 | over the integers the product vanishes exactly when `v == 0` or `0 <= v < range` |
| RangeCheck.RangeCheckFieldIff | src/range_check/example1.rs:62-68 | for every field element `v` and every `range` up to the modulus, the expression vanishes exactly when `v == 0` or `v < range` |
| RangeCheck.RangeCheckBoundedIff | src/range_check/example1.rs:62-68 | without the field inverse: where the integer product is below the modulus in magnitude, it vanishes in the field on the same inputs as over the integers |
| RangeCheck.RangePolyFits | src/range_check/example1.rs:70 | for an 8-bit witness and `range <= 31` the product is below the modulus |
| RangeCheck.BoolCheckIff | src/range_check/example1.rs:57-60 | `bool_check` evaluates to `v * (1 - v)`, which vanishes exactly when `v` is 0 or 1, for every field element `v` |
| RangeCheck.UnsoundUnchecked | src/range_check/example1.rs:39-45 | wraps a cell with a bit count; it has no contract of its own, and `RangeConstrainedAccessors` states that it checks nothing |
| RangeCheck.Value | src/range_check/example1.rs:48-54 | the wrapped cell's value with the same bit count; it has no contract of its own, and `RangeConstrainedAccessors` states it |
| RangeCheck.RangeConstrainedAccessors | src/range_check/example1.rs:22-55 | `unsound_unchecked` stores any cell and bit count unchanged; `inner`, `num_bits` and `value` read them back, and `value` keeps the bit count |
| RangeCheck.RangeGate | src/range_check/example1.rs:94-99 | the "range check" gate `selector * range_check(advice, RANGE)`; it has no contract of its own, and `RangeGateIff` states when it vanishes |
| RangeCheck.RangeGateIff | src/range_check/example1.rs:94-99 | the gate vanishes at a row exactly when its selector is off or the advice cell holds 0 or a value below `RANGE` |
| RangeCheck.Configure | src/range_check/example1.rs:90-102 | allocates a selector and an advice column and adds the "range check" gate `selector * range_check(advice, RANGE)` |
| RangeCheck.Synthesize | src/range_check/example1.rs:104-122 | one region "range constrain" of one row: the selector on and the byte written to the advice column |
| RangeCheck.SynthesizedVerify | src/range_check/example1.rs:94-122 | verification passes exactly when the range product of the input vanishes in the field; otherwise the one report is the gate failing at offset 0 of region 0 |
| RangeCheck.Run | src/range_check/example1.rs:82-122 | the mock run succeeds exactly with no public inputs; it passes exactly when the input is below `RANGE` (or 0), for any `RANGE` up to the modulus given the field inverse, and for `RANGE <= 31` without it; any failure is the single gate failure |
| RangeCheck.Scenario | src/range_check/example1.rs:134-160 | with `RANGE = 8`, inputs 0 to 7 pass and 8 fails |
| RangeTable.Configure | src/range_check/example2/table.rs:16-23 | allocates one lookup-table column |
| RangeTable.Load | src/range_check/example2/table.rs:25-45 | succeeds exactly when `0 < RANGE < 2^k` and the column was not loaded before. `RANGE = 0` or a loaded column fails with `Synthesis`, otherwise too few rows fail with `NotEnoughRowsAvailable`. It writes `i` at offset `i` for each `i < RANGE` that fits, in order. On success it fills the later rows with the default 0. The column becomes used once all `RANGE` writes land |
| RangeTable.LoadPass | src/range_check/example2/table.rs:31-43 | the closure: writes `i` at offset `i` for each `i < RANGE`, in order, and stops at the first write that fails. A loaded column is refused at once; a write past the last row keeps the writes before it. On success the layouter has recorded offsets `0 .. RANGE - 1` of the column |
| RangeTable.LoadedCell | src/range_check/example2/table.rs:32-42 | after a successful load, the column holds `i` at each offset `i < RANGE` and 0 at every later row; every other cell is unchanged |
| RangeTable.RampValues | src/range_check/example2/table.rs:6-7 | the loaded values are exactly `0 .. RANGE - 1` |
| RangeTable.LoadsOnce | src/range_check/example2/table.rs:32-42 | every write goes to the table's column, offsets increase, and each offset below `RANGE` is written exactly once |
| RangeBitsTable.Configure | src/range_check/example3/table.rs:14-23 | allocates two distinct lookup-table columns, `value` and `num_bits` |
| RangeBitsTable.Load | src/range_check/example3/table.rs:25-60 | as written: always fails with `Synthesis` and marks no column used. For `RANGE = 0` nothing is written. Otherwise, when `value` was not loaded before, both first-row writes land, so `value` at offset 0 ends up holding 0, not `NUM_BITS` |
| RangeBitsTable.LoadPass | src/range_check/example3/table.rs:31-59 | the closure as written: succeeds exactly when `RANGE = 0`, recording nothing. Otherwise it fails with `Synthesis` on its first row, after both writes into `value` at offset 0 have landed, or after none when `value` was loaded before |
| RangeBitsTable.PairLoadsAt | src/range_check/example3/table.rs:34-48 | the loop as written asks for write `2i` to be `NUM_BITS` at offset `i` and write `2i + 1` to be `i` at offset `i`, both into `value` |
| RangeBitsTable.PairLoadsTwice | src/range_check/example3/table.rs:34-48 | the loop as written asks to write each offset below `RANGE` exactly twice, and no other offset |
| RangeBitsTable.DefaultSetTwice | src/range_check/example3/table.rs:35-46 | as written, the first two writes both set offset 0 of `value`; corrected, they set offset 0 of two different columns |
| RangeBitsTable.LoadSeparate | src/range_check/example3/table.rs:25-60 | corrected loader: succeeds exactly when `0 < RANGE < 2^k` and the two columns are distinct and not loaded before. `RANGE = 0` or such columns fail with `Synthesis`, otherwise too few rows fail with `NotEnoughRowsAvailable`. The writes that land are given in each case. On success both columns' later rows get their defaults. Both become used once all `RANGE` rows land |
| RangeBitsTable.LoadSeparatePass | src/range_check/example3/table.rs:31-48 | the corrected closure: at each offset `i < RANGE`, `NUM_BITS` into `num_bits` and `i` into `value`, stopping at the first write that fails. With distinct unloaded columns only a write past the last row fails; otherwise the first row fails with `Synthesis`, after the writes that land. On success both columns have offsets `0 .. RANGE - 1` recorded |
| RangeBitsTable.LoadedSeparateCell | src/range_check/example3/table.rs:34-48 | after a successful corrected load, `value` holds `i` at each offset `i < RANGE` and 0 at every later row, `num_bits` holds `NUM_BITS` at every row; every other cell is unchanged |
| RangeBitsTable.SeparateLoadsAt | src/range_check/example3/table.rs:34-48 | with the corrected loader, write `2i` is `NUM_BITS` into `num_bits` and write `2i + 1` is `i` into `value`, both at offset `i` |
| RangeBitsTable.SeparateCell | src/range_check/example3/table.rs:34-48 | with the corrected loader, `value` holds `i` and `num_bits` holds `NUM_BITS` at each offset `i < RANGE`; other cells are unchanged |
| IsZero.IsZeroExpr | src/is_zero/mod.rs:26-29 | `1 - value * value_inv` on the current row; it has no contract of its own, and `EvalIsZero`, `ExprSound` and `ExprComplete` state its value |
| IsZero.IsZeroGate | src/is_zero/mod.rs:25-30 | the "is_zero" gate `q_enable * value * (1 - value * value_inv)`; it has no contract of its own, and `EvalIsZero` and `GateIff` state when it vanishes |
| IsZero.EvalIsZero | src/is_zero/mod.rs:25-30 | `expr` evaluates to `1 - v * w` and the gate to `q * v * (1 - v * w)`, where `v` is the value cell, `w` the inverse cell and `q` the enabling factor |
| IsZero.GateIff | src/is_zero/mod.rs:30 | the gate vanishes exactly when `q == 0`, `v == 0` or `v * w == 1` |
| IsZero.ExprSound | src/is_zero/mod.rs:29-30 | where the gate holds and `q` is on, `expr` is 1 when the value is zero and 0 otherwise, whatever the inverse cell holds |
| IsZero.ExprComplete | src/is_zero/mod.rs:44-46 | with the inverse-or-zero in the inverse cell, the gate vanishes for every value and `expr` is 1 exactly when the value is zero, 0 otherwise |
| IsZero.Configure | src/is_zero/mod.rs:16-33 | adds the "is_zero" gate `q_enable * value * (1 - value * value_inv)` and returns `value_inv` with `expr = 1 - value * value_inv` |
| IsZero.Assign | src/is_zero/mod.rs:35-50 | a one-row region whose only cell is the inverse-or-zero of the value, in `value_inv`; returns `config.expr` unchanged |
| IsZero.AssignedRow | src/is_zero/mod.rs:44-47 | at the row `assign` fills, with the value in a separate column, the gate vanishes and the returned `expr` reads 1 exactly when the value is zero |

## Left out

- Proof generation, key generation, commitment schemes and transcripts (`src/proof/mod.rs`, the benches, and the proof tests in `src/add1/example1.rs`) are external cryptography. They are not modelled.
- `println!` output is not modelled.
- The library `halo2_proofs` (floor planner, region allocation, `MockProver`, lookup-argument checking) is not part of this model beyond the minimal `Plonk` and `Layout` modules.
  - Lookup arguments are never checked, because no core circuit declares one.
  - Failure reports carry no `cell_values`.
  - Regions are stacked from a cursor; there is no column-aware packing.
  - There are no blinding rows.
  - Writes to a lookup-table column at offsets other than 0 may repeat within one `assign_table` call, and the last one wins.
  - The region the mock prover records for an `assign_table` call (its name and the cells it covers) is not modelled.
  - Plonk.CopyFailures: a broken equality constraint is reported once, as one `Permutation` failure naming both cells. The mock prover reports each cell of a broken copy separately, with its region location. The verdict, whether anything fails, is the same. This applies to the failure lists stated by `AddScalar.LaidVerify`, `Fibonacci.LaidVerify` and both `Run` methods.
- The mock prover's `CellNotAssigned` report is not modelled: an unassigned cell reads as zero. In the core it arises only for `AddScalarChip` with `nrows < 2`, where the gate at row 0 reads the unassigned row 2.
- AddScalar.LaidVerify: stated only for `nrows >= 2`, for the reason above. AddScalar.Run says nothing about the verdict for smaller `nrows`.
- Rotations wrap around the table, as the mock prover evaluates them. A rotation past the last row is not treated as an error.
- Witness-free synthesis (`Value::unknown()`, `without_witnesses`) is not modelled; every value is known.
- The concrete fields (Pallas, and bn256 in the `add1` tests) are replaced by integers modulo the Pallas base prime. The `add1` scenarios use small values, where the two fields agree.
- The field inverse comes from the external field library. It is a parameter `inv` constrained by `IsInvertOrZero` (invert, with 0 mapped to 0), and every statement that needs the absence of zero divisors takes it.
- RangeCheck.Synthesize: `MyCircuit` holds a `u8`, so the input is required to be below 256.
- IsZero.Configure: `q_enable` is a closure over the virtual cells. It is modelled as the expression that closure returns.
- IsZero.Assign: the value cell itself is assigned by the caller, not by `assign`. The lemmas about the gate take that cell as given.
- `construct` functions only wrap a configuration and are not modelled.
- `src/range_check/example3.rs` is entirely commented out.

## Findings

| source | as written | input that shows it | evidently intended | confidence | as-written member | corrected member |
|---|---|---|---|---|---|---|
| src/range_check/example3/table.rs:35-40 | the "assign num_bits" write targets `self.value`, so each row sets the `value` cell twice | any `RANGE >= 1` (for example `RANGE = 8`, `NUM_BITS = 3`): the second write at offset 0 re-sets the column's default, so `load` fails with a synthesis error and no table is loaded. That write has landed, so `value` at offset 0 holds 0, not `NUM_BITS` (with `RANGE = 0` the load writes nothing and fails too) | the write targets `self.num_bits`, so each row of the table pairs `i` with `NUM_BITS` and `load` succeeds when `0 < RANGE < 2^k` | not executed; medium | RangeBitsTable.Load, RangeBitsTable.DefaultSetTwice | RangeBitsTable.LoadSeparate, RangeBitsTable.LoadedSeparateCell |
