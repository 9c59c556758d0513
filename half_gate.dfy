/** The half-gate chip as far as it is written: it checks the widths of its
    inputs, enables its selector on the first row of a fresh region and
    copies the 16 byte cells of the x zero-label into consecutive rows of its
    advice column. The garbled-row equations and the hash are not there yet,
    and it returns no cells. */
module HalfGate {
  import opened Halo2

  /** Cells in a label or in delta: a 128-bit block held as 16 bytes. */
  const BLOCK_CELLS: nat := 16

  datatype HalfGateConfig = HalfGateConfig(advice: Column, q: Selector)

  datatype HalfGateChip = HalfGateChip(config: HalfGateConfig)

  /** `HalfGateChip::configure`: keeps the two handles and registers no gate
      or lookup, so it does not modify the constraint system. */
  method Configure(cs: ConstraintSystem, advice: Column, selector: Selector) returns (config: HalfGateConfig)
    ensures config.advice == advice && config.q == selector
  {
    config := HalfGateConfig(advice, selector);
  }

  /** The advice cells after `cells[0..n]` have been copied, in order, into
      rows 0 to n - 1 of `column`. */
  function CopiedRows(m: map<(Column, nat), Value<Fp>>, column: Column, cells: seq<AssignedCell>, n: nat)
    : (r: map<(Column, nat), Value<Fp>>)
    requires n <= |cells|
  {
    if n == 0 then m else CopiedRows(m, column, cells, n - 1)[(column, n - 1) := cells[n - 1].value]
  }

  /** Copying n cells fills exactly rows 0 to n - 1 of the column, row i with
      cell i, and leaves every other cell as it was. */
  lemma {:induction false} CopiedRowsLayout(m: map<(Column, nat), Value<Fp>>, column: Column,
                                            cells: seq<AssignedCell>, n: nat)
    requires n <= |cells|
    ensures CopiedRows(m, column, cells, n).Keys == m.Keys + set i | 0 <= i < n :: (column, i)
    ensures forall i :: 0 <= i < n ==> CopiedRows(m, column, cells, n)[(column, i)] == cells[i].value
    ensures forall k :: k in m && !(k.0 == column && k.1 < n) ==> CopiedRows(m, column, cells, n)[k] == m[k]
  {
    if n > 0 {
      CopiedRowsLayout(m, column, cells, n - 1);
    }
  }

  /** The equality constraints those copies add: source cell i to row i of `column`. */
  function CopyConstraints(region: nat, column: Column, cells: seq<AssignedCell>, n: nat): (r: set<(Cell, Cell)>)
    requires n <= |cells|
    ensures forall i :: 0 <= i < n ==> (cells[i].cell, Cell(region, column, i)) in r
    ensures forall p :: p in r ==>
      p.1.region == region && p.1.column == column && p.1.row < n && p.0 == cells[p.1.row].cell
  {
    set i | 0 <= i < n :: (cells[i].cell, Cell(region, column, i))
  }

  /** One more copy adds one more constraint. */
  lemma CopyConstraintsStep(region: nat, column: Column, cells: seq<AssignedCell>, n: nat)
    requires n < |cells|
    ensures CopyConstraints(region, column, cells, n + 1) ==
      CopyConstraints(region, column, cells, n) + {(cells[n].cell, Cell(region, column, n))}
  {
  }

  /** `HalfGateChip::generate_half_gate` on the region the layouter hands out.
      The `offset` cursor starts at row 0, where the selector is enabled, and
      moves down one row per copied x-label cell; the first copy that does not
      fit aborts with its error. y_label and delta are only length-checked. */
  method GenerateHalfGate(chip: HalfGateChip, region: Region,
                          xLabel: seq<AssignedCell>, yLabel: seq<AssignedCell>, delta: seq<AssignedCell>)
    returns (o: Outcome<Result<seq<AssignedCell>>>)
    modifies region
    ensures o.Panicked? <==> !(|xLabel| == BLOCK_CELLS && |yLabel| == BLOCK_CELLS && |delta| == BLOCK_CELLS)
    ensures o.Panicked? || region.rows == 0 ==>
      region.enabled == old(region.enabled) && region.advice == old(region.advice) && region.copies == old(region.copies)
    ensures o.Returned? ==> (o.value.Ok? <==> BLOCK_CELLS <= region.rows)
    ensures o.Returned? && o.value.Ok? ==> o.value.value == []
    ensures o.Returned? && 0 < region.rows ==>
      var c := chip.config;
      var n := if region.rows < BLOCK_CELLS then region.rows else BLOCK_CELLS;
      && region.enabled == old(region.enabled) + {(c.q, 0)}
      && region.advice == CopiedRows(old(region.advice), c.advice, xLabel, n)
      && region.copies == old(region.copies) + CopyConstraints(region.index, c.advice, xLabel, n)
  {
    if |xLabel| != BLOCK_CELLS || |yLabel| != BLOCK_CELLS || |delta| != BLOCK_CELLS {
      return Panicked;
    }
    var c := chip.config;
    var offset := 0;
    var enabled := region.EnableSelector(c.q, offset);
    if enabled.Err? {
      return Returned(Err(enabled.error));
    }
    var i := 0;
    while i < |xLabel|
      invariant 0 <= i <= |xLabel|
      invariant offset == i && i <= region.rows
      invariant region.enabled == old(region.enabled) + {(c.q, 0)}
      invariant region.advice == CopiedRows(old(region.advice), c.advice, xLabel, i)
      invariant region.copies == old(region.copies) + CopyConstraints(region.index, c.advice, xLabel, i)
    {
      CopyConstraintsStep(region.index, c.advice, xLabel, i);
      var cell := region.CopyAdvice(xLabel[i], c.advice, offset);
      offset := offset + 1;
      if cell.Err? {
        return Returned(Err(cell.error));
      }
      i := i + 1;
    }
    return Returned(Ok([]));
  }
}
