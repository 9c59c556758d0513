# proof-of-gc chips in Dafny

This project models the two pieces of working logic in the halo2 chips of
proof-of-gc. That project aims to prove, in zero knowledge, that a garbled
circuit was built correctly with half-gates.

- **The U8 AND chip** (`src/chips/u8_and_chip.rs`):
  - `and_bytes` encodes two field elements as their canonical 32-byte
    little-endian strings, ANDs the strings byte by byte and decodes the result.
  - `configure` registers a lookup asking that (q·x, q·y, q·z) be a row of
    the table. halo2 panics there if the selector is a simple one.
  - `and` enables the selector and writes x, y and z = `and_bytes(x, y)` into
    row 0 of a new region.
- **The half-gate chip** (`src/chips/half_gate.rs`). `generate_half_gate` does
  four things:
  - it checks that its three inputs have 16 cells each;
  - it enables its selector at row 0;
  - it copies the 16 x-label cells into rows 0 to 15 with an `offset` cursor;
  - it returns an empty vector.

  The hash and the garbled-row equations are not written in the source, so
  they are not modelled.

The files:

- `halo2.dfy` (module `Halo2`) is an abstraction of the halo2 library. It
  holds:
  - the BN254 scalar field `Fp` (a `nat` below `MODULUS`);
  - `Value` (known or unknown);
  - `Region`, a class whose methods enable selectors, assign advice cells and
    copy cells. A call fails with `NotEnoughRowsAvailable` when its row is past
    the rows given to the region;
  - `ConstraintSystem`, which records the lookups registered on it;
  - `Eval` and `LookupHolds`, which evaluate a lookup at one row of a `Witness`
    against a table given as a set of rows.
- `field_bytes.dfy` (module `FieldBytes`) holds `Fr::to_bytes`,
  `Fr::from_bytes` and the 32-byte `try_into`.
- `u8_and_chip.dfy` (module `U8And`) holds the AND chip.
- `half_gate.dfy` (module `HalfGate`) holds the half-gate chip.

Bytes (`u8`) are integers in [0, 255]. Their `&` is `BitAnd`, bitwise AND
defined from the low bit up. `BitAndBits` proves it sets bit i exactly when
bit i is set in both operands. Field elements are unbounded naturals below
the modulus. The lookup table is
the exhaustive relation `AndTable()` = {(a, b, a & b) | a, b < 256}. Neither
`u8_and_chip.rs` nor `half_gate.rs` fills the table in.

Where the project's stated aim (half-gate garbling) and its code differ, the
model follows the code:

- The half-gate chip computes no garbled rows and no hash, and returns no
  cells.
- The AND lookup is registered under the name "Check correct XOR of u8
  values". The model keeps that string as written.

## Model

| member | source | states |
|---|---|---|
| `FieldBytes.ToBytes` | src/chips/u8_and_chip.rs:103-105 | the encoding of a field element has 32 bytes and, read least-significant byte first, denotes the element itself |
| `FieldBytes.FromBytes` | src/chips/u8_and_chip.rs:109 | decoding a `[u8; 32]` succeeds exactly when the little-endian value is below the modulus, and what it returns encodes back to the same bytes |
| `FieldBytes.FromBytesToBytes` | src/chips/u8_and_chip.rs:103-109 | decoding the encoding of any field element returns that element |
| `FieldBytes.TryIntoRepr` | src/chips/u8_and_chip.rs:109 | the `Vec<u8>` to `[u8; 32]` conversion succeeds exactly on 32-byte vectors and keeps the bytes |
| `FieldBytes.LeValueZero` | src/chips/u8_and_chip.rs:103 | a byte string denotes zero if and only if all its bytes are zero |
| `Halo2.Value.Map` | src/chips/u8_and_chip.rs:102-109 | mapping a value is known exactly when the value is, and then holds the function applied to it |
| `Halo2.ConstraintSystem.AddLookup` | src/chips/u8_and_chip.rs:36-47 | `meta.lookup` panics, recording nothing, exactly when some input expression queries a simple selector; otherwise it appends the named lookup and changes nothing else |
| `Halo2.Region.EnableSelector` | src/chips/u8_and_chip.rs:66 | `q.enable(region, row)` fails exactly when the row is past the region's rows; on success it adds (q, row) to the enabled set, and it never touches advice cells or copy constraints |
| `Halo2.Region.AssignAdvice` | src/chips/u8_and_chip.rs:79-89 | `assign_advice` fails exactly when the row is past the region's rows; on success it sets exactly that one cell to the value and returns the cell at that position |
| `Halo2.Region.CopyAdvice` | src/chips/u8_and_chip.rs:67-78 | `copy_advice` fails exactly when the row is past the region's rows; on success it writes the source's value to that one cell, adds one equality constraint from the source cell to it, and returns the new cell |
| `U8And.BitAndBits` | src/chips/u8_and_chip.rs:106 | bit i of `x_b & y_b` is set exactly when bit i is set in both operands, for every i |
| `U8And.BitAndBelow` | src/chips/u8_and_chip.rs:106 | `x_b & y_b` is at most `x_b` and at most `y_b` as numbers |
| `U8And.BitAndLaws` | src/chips/u8_and_chip.rs:106 | `&` is commutative, and `b & b == b` |
| `U8And.ByteAnd` | src/chips/u8_and_chip.rs:106 | `x_b & y_b` on two `u8`s is a `u8` whose bit i is set exactly when bit i is set in both, and which is at most each operand |
| `U8And.ZipAnd` | src/chips/u8_and_chip.rs:103-107 | zipping stops at the shorter string, and bit i of byte k of the result is set exactly when bit i is set in byte k of both strings |
| `U8And.ZipAndBelow` | src/chips/u8_and_chip.rs:103-107 | the byte-wise AND of two equal-length strings denotes a number no larger than either string |
| `U8And.AndFields` | src/chips/u8_and_chip.rs:102-109 | for known inputs, byte i of the result's encoding is byte i of x's encoding ANDed with byte i of y's, for every i < 32, and the result is at most x and at most y |
| `U8And.AndBytes` | src/chips/u8_and_chip.rs:99-110 | the result is known exactly when both inputs are known; when known, it has the byte-wise AND property and lies below both inputs |
| `U8And.UnwrapsSucceed` | src/chips/u8_and_chip.rs:105-109 | the collected vector always has 32 bytes, and `from_bytes` on it always succeeds, yielding the `and_bytes` result, so neither `unwrap` can panic |
| `U8And.AndFieldsOnBytes` | src/chips/u8_and_chip.rs:100-106 | for x, y < 256 the result equals the `u8` AND x & y and is itself below 256 |
| `U8And.AndBytesCommutative` | src/chips/u8_and_chip.rs:103-106 | `and_bytes(x, y) == and_bytes(y, x)` for all values, known or not |
| `U8And.AndBytesIdempotent` | src/chips/u8_and_chip.rs:103-106 | `and_bytes(x, x) == x` for all values |
| `U8And.GatedQueries` | src/chips/u8_and_chip.rs:37-46 | a lookup whose three inputs are q·x, q·y and q·z queries (x, y, z) at a row where q is enabled and (0, 0, 0) where it is not |
| `U8And.AndLookup` | src/chips/u8_and_chip.rs:36-47 | the lookup carries the source's name, reads x_tab, y_tab and z_tab in that order, and queries (x, y, z) at a row where q is enabled and (0, 0, 0) where it is not |
| `U8And.Configure` | src/chips/u8_and_chip.rs:26-55 | panics, registering nothing, exactly when `selector` is a simple selector. Otherwise it appends exactly one lookup to the constraint system, (q·x, q·y, q·z) against (x_tab, y_tab, z_tab), and returns the config that holds the three columns and the selector |
| `U8And.UnselectedRowPasses` | src/chips/u8_and_chip.rs:36-47 | every row where q is off satisfies the lookup against the exhaustive AND table, because the table contains (0, 0, 0) |
| `U8And.SelectedRowLookup` | src/chips/u8_and_chip.rs:36-47 | on a row where q is on, the lookup against the AND table holds if and only if x < 256, y < 256 and z is `and_bytes(x, y)`: completeness and soundness together |
| `U8And.And` | src/chips/u8_and_chip.rs:57-94 | with the row budget as the only failure the model has, fails exactly when the region has no row. Otherwise it enables q at row 0, writes x, y and `and_bytes(x, y)` at row 0 of the x, y and z columns, adds the two copy constraints, changes nothing else and returns the z cell. With distinct columns and known byte inputs, the row it writes is an AND row, so the lookup holds there |
| `HalfGate.Configure` | src/chips/half_gate.rs:26-37 | returns a config holding the given advice column and selector. It has no frame on the constraint system, so it registers no gate or lookup |
| `HalfGate.GenerateHalfGate` | src/chips/half_gate.rs:39-81 | panics, touching nothing, unless x_label, y_label and delta all have 16 cells. Otherwise it enables q at row 0 only. It copies x_label[i] to advice row i, in order, for as many of the 16 rows as the region holds, and adds the matching copy constraints. With the row budget as the only failure the model has, it succeeds with an empty vector exactly when all 16 fit; otherwise the first copy that does not fit ends it with that error. y_label and delta never reach the region |
| `HalfGate.CopiedRowsLayout` | src/chips/half_gate.rs:60-72 | after the cursor has copied n cells, rows 0 to n-1 of the advice column hold the labels in input order and every other cell is unchanged |
| `HalfGate.CopyConstraints` | src/chips/half_gate.rs:63-68 | the copy constraints added are exactly those from x_label[i]'s cell to advice row i, for i < n |
| `Halo2.Value.Zip` | src/chips/u8_and_chip.rs:101 | zipping two values gives a known pair exactly when both are known |

## Left out

- src/gen_circuit.rs and src/eval_circuit.rs are not part of this model. Every method body in them is `todo!()` or `unimplemented!()`.
- src/main.rs (demo driver, external garbling library, mock prover) and src/lib.rs (module declarations) are not part of this model.
- The half-gate equations, the correlation-robust hash and fixed-key AES are not modelled. The source has only a TODO for them (src/chips/half_gate.rs:74-76).
- The byte XOR chip and the loading of the lookup table are not modelled. Neither appears in the modelled files, so the table is the fixed relation `AndTable()`.
- The layouter and floor planner are not modelled. Each method receives the region the layouter would hand out. Rows are relative to the region's start. The region's row budget (`rows`) stands for the usable rows left.
- The proving engine is not modelled. The model records copy constraints as (source, copy) pairs but does not check the permutation argument. Lookups are evaluated row by row on a `Witness`, not through polynomial commitments.
- An unknown `Value` in a region counts as unassigned (zero) in `Region.Assigned`. halo2 never evaluates a lookup on such a cell: key generation ignores values, and the prover fails with a synthesis error when asked to assign an unknown value. That error is not modelled, because the model does not tell the passes apart. The lookup lemmas are about fully known witnesses, and the completeness clause of `U8And.And` assumes known inputs.
- `Halo2.Region.CopyAdvice`: does not model the equality check at the end of halo2's `copy_advice`, because the model has no permutation argument. `constrain_equal` fails with `ColumnNotInPermutation` during key generation and in the mock prover unless `enable_equality` was called on both the source column and the target column. Neither `U8AndChip::configure` (src/chips/u8_and_chip.rs:26-55) nor `HalfGateChip::configure` (src/chips/half_gate.rs:26-37) calls it. The model assumes the caller has enabled equality on every column that is copied, so `U8And.And` and `HalfGate.GenerateHalfGate` never fail with that error here.
- `Halo2.Region`: a row past the usable rows is modelled as the error `NotEnoughRowsAvailable`. Some halo2 versions of the mock prover stop with a failed assertion (a panic) instead; that variant is not modelled.
- `value_field().evaluate()` (src/chips/u8_and_chip.rs:85-86) is the identity on these cells, so the model reads the copied value directly.
- `U8AndChip::construct` and `HalfGateChip::construct` are the datatype constructors `U8AndChip` and `HalfGateChip`.
- The test in src/chips/half_gate.rs:113-141 is not modelled. It passes undefined names and asserts nothing usable.
- `U8And.AndBytes`: the two `.map` stages of the source are fused into one, `AndFields`, so that the two unwraps are discharged where the bytes are known to come from canonical encodings.
- `U8And.And`: the lookup-completeness clause of its contract is stated only when the x, y and z columns are distinct. With shared columns, later writes overwrite earlier ones in the same cell.
