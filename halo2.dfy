/** The slice of the halo2 proving library that the chips use, stated abstractly:
    the BN254 scalar field, possibly-unknown witness values, regions whose cells
    and selectors are assigned row by row, and lookup arguments registered on a
    constraint system and evaluated row by row against a table. */
module Halo2 {

  /** Order of the BN254 scalar field Fr (halo2curves `bn256::Fr`). */
  const MODULUS: nat := 0x30644e72e131a029b85045b68181585d2833e84879b9709143e1f593f0000001

  /** A field element, always held in canonical form. */
  type Fp = x: nat | x < MODULUS

  /** Field multiplication. */
  function Mul(a: Fp, b: Fp): (r: Fp) {
    (a * b) % MODULUS
  }

  /** Multiplying by 0 or 1, as a selector query does. */
  lemma MulBySelector(s: Fp, a: Fp)
    requires s == 0 || s == 1
    ensures Mul(s, a) == if s == 1 then a else 0
  {
  }

  /** A witness value that is known while proving and unknown while the
      circuit is only being laid out. */
  datatype Value<T> = Unknown | Known(v: T) {

    /** Pairs two values; the pair is known exactly when both are. */
    function Zip<U>(other: Value<U>): (r: Value<(T, U)>)
      ensures r.Known? <==> Known? && other.Known?
      ensures r.Known? ==> r.v == (v, other.v)
    {
      match (this, other)
      case (Known(a), Known(b)) => Known((a, b))
      case _ => Unknown
    }

    /** Applies `f` to a known value; an unknown value stays unknown. */
    function Map<U>(f: T -> U): (r: Value<U>)
      ensures r.Known? <==> Known?
      ensures r.Known? ==> r.v == f(v)
    {
      match this
      case Known(a) => Known(f(a))
      case Unknown => Unknown
    }
  }

  datatype Column = Advice(index: nat)
  /** A selector; a simple one (`meta.selector()`) may only multiply gate
      polynomials, a complex one (`meta.complex_selector()`) may also appear
      in lookups. */
  datatype Selector = Selector(index: nat, simple: bool)
  datatype TableColumn = TableColumn(index: nat)

  /** A cell position: the region it lives in, its column and its row
      relative to the start of that region. */
  datatype Cell = Cell(region: nat, column: Column, row: nat)

  /** A cell that has been assigned, with the value it was given. */
  datatype AssignedCell = AssignedCell(value: Value<Fp>, cell: Cell)

  datatype Error = NotEnoughRowsAvailable

  datatype Result<T> = Ok(value: T) | Err(error: Error)

  /** How a call ends: a Rust panic, or a return with a value. */
  datatype Outcome<T> = Panicked | Returned(value: T)

  /** The values the prover commits to, as seen by a constraint: advice
      cells by (column, row) and the set of enabled (selector, row) pairs.
      A cell that is absent is unassigned and reads as zero. */
  datatype Witness = Witness(advice: map<(Column, nat), Fp>, enabled: set<(Selector, nat)>)

  function AdviceAt(w: Witness, c: Column, row: nat): (v: Fp) {
    if (c, row) in w.advice then w.advice[(c, row)] else 0
  }

  /** The known values of an assignment; unknown values count as unassigned. */
  function KnownCells(m: map<(Column, nat), Value<Fp>>): (k: map<(Column, nat), Fp>)
    ensures forall key :: key in k <==> key in m && m[key].Known?
    ensures forall key :: key in k ==> k[key] == m[key].v
  {
    map key | key in m && m[key].Known? :: m[key].v
  }

  /** A polynomial expression over the queries a lookup may make at the
      current row (`Rotation::cur()`). */
  datatype Expression =
    | QuerySelector(s: Selector)
    | QueryAdvice(c: Column)
    | Product(left: Expression, right: Expression)

  function Eval(e: Expression, w: Witness, row: nat): (v: Fp) {
    match e
    case QuerySelector(s) => if (s, row) in w.enabled then 1 else 0
    case QueryAdvice(c) => AdviceAt(w, c, row)
    case Product(l, r) => Mul(Eval(l, w, row), Eval(r, w, row))
  }

  /** Whether `e` queries a simple selector anywhere. */
  predicate ContainsSimpleSelector(e: Expression) {
    match e
    case QuerySelector(s) => s.simple
    case QueryAdvice(_) => false
    case Product(l, r) => ContainsSimpleSelector(l) || ContainsSimpleSelector(r)
  }

  /** A lookup argument: each input expression is looked up in a table column. */
  datatype Lookup = Lookup(name: string, inputs: seq<(Expression, TableColumn)>)

  /** The tuple a lookup queries at a row, in the order of its inputs. */
  function InputTuple(l: Lookup, w: Witness, row: nat): (t: seq<Fp>)
    ensures |t| == |l.inputs|
    ensures forall i :: 0 <= i < |l.inputs| ==> t[i] == Eval(l.inputs[i].0, w, row)
  {
    seq(|l.inputs|, i requires 0 <= i < |l.inputs| => Eval(l.inputs[i].0, w, row))
  }

  /** The lookup constraint at one row: the queried tuple is a row of the
      table, given as the set of its rows (columns in the lookup's order). */
  predicate LookupHolds(l: Lookup, table: set<seq<Fp>>, w: Witness, row: nat) {
    InputTuple(l, w, row) in table
  }

  /** The constraint system being configured; only the lookups the chips
      register are recorded. */
  class ConstraintSystem {
    var lookups: seq<Lookup>

    constructor ()
      ensures lookups == []
    {
      lookups := [];
    }

    /** `ConstraintSystem::lookup`: panics when an input expression queries
        a simple selector, and otherwise records the lookup. */
    method AddLookup(name: string, inputs: seq<(Expression, TableColumn)>) returns (panicked: bool)
      modifies this
      ensures panicked <==> exists i :: 0 <= i < |inputs| && ContainsSimpleSelector(inputs[i].0)
      ensures lookups == if panicked then old(lookups) else old(lookups) + [Lookup(name, inputs)]
    {
      panicked := exists i :: 0 <= i < |inputs| && ContainsSimpleSelector(inputs[i].0);
      if !panicked {
        lookups := lookups + [Lookup(name, inputs)];
      }
    }
  }

  /** A region handed out by the layouter. `rows` is the number of rows
      available to it; touching a row at or past it fails. `copies` holds the
      equality constraints (source cell, copied cell) that copying adds. */
  class Region {
    const index: nat
    const rows: nat
    var advice: map<(Column, nat), Value<Fp>>
    var enabled: set<(Selector, nat)>
    var copies: set<(Cell, Cell)>

    constructor (index: nat, rows: nat)
      ensures this.index == index && this.rows == rows
      ensures advice == map[] && enabled == {} && copies == {}
    {
      this.index := index;
      this.rows := rows;
      advice := map[];
      enabled := {};
      copies := {};
    }

    /** The witness this region contributes; unknown values count as unassigned. */
    ghost function Assigned(): Witness
      reads this
    {
      Witness(KnownCells(advice), enabled)
    }

    /** `Selector::enable`. */
    method EnableSelector(s: Selector, row: nat) returns (r: Result<()>)
      modifies this
      ensures r.Ok? <==> row < rows
      ensures enabled == if r.Ok? then old(enabled) + {(s, row)} else old(enabled)
      ensures advice == old(advice) && copies == old(copies)
    {
      if row < rows {
        enabled := enabled + {(s, row)};
        r := Ok(());
      } else {
        r := Err(NotEnoughRowsAvailable);
      }
    }

    /** `Region::assign_advice`. */
    method AssignAdvice(c: Column, row: nat, v: Value<Fp>) returns (r: Result<AssignedCell>)
      modifies this
      ensures r.Ok? <==> row < rows
      ensures r.Ok? ==> r.value == AssignedCell(v, Cell(index, c, row))
      ensures advice == if r.Ok? then old(advice)[(c, row) := v] else old(advice)
      ensures enabled == old(enabled) && copies == old(copies)
    {
      if row < rows {
        advice := advice[(c, row) := v];
        r := Ok(AssignedCell(v, Cell(index, c, row)));
      } else {
        r := Err(NotEnoughRowsAvailable);
      }
    }

    /** `AssignedCell::copy_advice`: assigns the source's value and
        constrains the new cell to equal the source cell. */
    method CopyAdvice(source: AssignedCell, c: Column, row: nat) returns (r: Result<AssignedCell>)
      modifies this
      ensures r.Ok? <==> row < rows
      ensures r.Ok? ==> r.value == AssignedCell(source.value, Cell(index, c, row))
      ensures advice == if r.Ok? then old(advice)[(c, row) := source.value] else old(advice)
      ensures copies == if r.Ok? then old(copies) + {(source.cell, Cell(index, c, row))} else old(copies)
      ensures enabled == old(enabled)
    {
      var written := AssignAdvice(c, row, source.value);
      if written.Ok? {
        copies := copies + {(source.cell, written.value.cell)};
      }
      r := written;
    }
  }
}
