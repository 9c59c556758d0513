/** The U8 AND chip: a lookup that forces z = x & y on a selected row, the
    region assignment that writes one such row, and `and_bytes`, which
    computes z by ANDing the byte encodings of x and y. */
module U8And {
  import opened Halo2
  import opened FieldBytes

  /** The name under which `configure` registers its lookup. */
  const LOOKUP_NAME: string := "Check correct XOR of u8 values"

  datatype U8AndConfig = U8AndConfig(x: Column, y: Column, z: Column, q: Selector)

  datatype U8AndChip = U8AndChip(config: U8AndConfig)

  // ---------------------------------------------------------------------------
  // and_bytes

  /** Bit i of n (bit 0 is the least significant). */
  function Bit(n: nat, i: nat): (b: bool) {
    if i == 0 then n % 2 == 1 else Bit(n / 2, i - 1)
  }

  /** Bitwise AND of two naturals, built up from the low bit. */
  function BitAnd(p: nat, q: nat): (r: nat)
    decreases p
  {
    if p == 0 || q == 0 then 0
    else 2 * BitAnd(p / 2, q / 2) + (if p % 2 == 1 && q % 2 == 1 then 1 else 0)
  }

  /** Each bit of `BitAnd(p, q)` is set exactly when that bit is set in both. */
  lemma {:induction false} BitAndBits(p: nat, q: nat)
    ensures forall i: nat :: Bit(BitAnd(p, q), i) == (Bit(p, i) && Bit(q, i))
    decreases p
  {
    forall i: nat
      ensures Bit(BitAnd(p, q), i) == (Bit(p, i) && Bit(q, i))
    {
      if p == 0 || q == 0 {
        ZeroBits(i);
      } else if i > 0 {
        BitAndBits(p / 2, q / 2);
      }
    }
  }

  lemma {:induction false} ZeroBits(i: nat)
    ensures !Bit(0, i)
  {
    if i > 0 {
      ZeroBits(i - 1);
    }
  }

  /** `p & q` is at most `p` and at most `q`, as numbers. */
  lemma {:induction false} BitAndBelow(p: nat, q: nat)
    ensures BitAnd(p, q) <= p && BitAnd(p, q) <= q
    decreases p
  {
    if p != 0 && q != 0 {
      BitAndBelow(p / 2, q / 2);
    }
  }

  /** `&` is commutative and idempotent. */
  lemma {:induction false} BitAndLaws(p: nat, q: nat)
    ensures BitAnd(p, q) == BitAnd(q, p)
    ensures BitAnd(p, p) == p
    decreases p
  {
    if p != 0 && q != 0 {
      BitAndLaws(p / 2, q / 2);
    }
    if p != 0 {
      BitAndLaws(p / 2, p / 2);
    }
  }

  /** `u8 & u8`. */
  function ByteAnd(p: Byte, q: Byte): (r: Byte)
    ensures forall i: nat :: Bit(r, i) == (Bit(p, i) && Bit(q, i))
    ensures r <= p && r <= q
  {
    BitAndBits(p, q);
    BitAndBelow(p, q);
    BitAnd(p, q)
  }

  /** Zips two byte strings and ANDs each pair of bytes; the zip stops at the
      end of the shorter string. */
  function ZipAnd(a: seq<Byte>, b: seq<Byte>): (r: seq<Byte>)
    ensures |r| == if |a| <= |b| then |a| else |b|
    ensures forall k, i: nat :: 0 <= k < |r| ==> (Bit(r[k], i) <==> Bit(a[k], i) && Bit(b[k], i))
  {
    seq(if |a| <= |b| then |a| else |b|, i requires 0 <= i < |a| && i < |b| => ByteAnd(a[i], b[i]))
  }

  /** The AND of two byte strings denotes a number no larger than either. */
  lemma {:induction false} ZipAndBelow(a: seq<Byte>, b: seq<Byte>)
    requires |a| == |b|
    ensures LeValue(ZipAnd(a, b)) <= LeValue(a)
    ensures LeValue(ZipAnd(a, b)) <= LeValue(b)
  {
    if a != [] {
      var r := ZipAnd(a, b);
      ZipAndBelow(a[1..], b[1..]);
      assert r[1..] == ZipAnd(a[1..], b[1..]);
      assert r[0] == ByteAnd(a[0], b[0]);
      LeValueStep(r, a);
      LeValueStep(r, b);
    }
  }

  /** If the first byte and the rest of `r` are each at most those of `s`,
      then `r` denotes at most what `s` does. */
  lemma LeValueStep(r: seq<Byte>, s: seq<Byte>)
    requires |r| == |s| > 0
    requires r[0] <= s[0] && LeValue(r[1..]) <= LeValue(s[1..])
    ensures LeValue(r) <= LeValue(s)
  {
  }

  /** The computation `and_bytes` performs on two known field elements:
      encode both, AND byte by byte, collect into a `[u8; 32]` and decode.
      Both unwraps succeed, because the AND of two canonical encodings is at
      most either of them and so stays below the modulus. */
  function AndFields(x: Fp, y: Fp): (z: Fp)
    ensures forall i :: 0 <= i < REPR_BYTES ==> ToBytes(z)[i] == ByteAnd(ToBytes(x)[i], ToBytes(y)[i])
    ensures z <= x && z <= y
  {
    var bytes := ZipAnd(ToBytes(x), ToBytes(y));
    var repr := TryIntoRepr(bytes);
    assert repr.Some?;
    ZipAndBelow(ToBytes(x), ToBytes(y));
    var decoded := FromBytes(repr.value);
    assert decoded.Some?;
    decoded.value
  }

  /** `and_bytes`: unknown when either input is unknown, otherwise the
      byte-wise AND of the two encodings. */
  function AndBytes(x: Value<Fp>, y: Value<Fp>): (r: Value<Fp>)
    ensures r.Known? <==> x.Known? && y.Known?
    ensures r.Known? ==> forall i :: 0 <= i < REPR_BYTES ==> ToBytes(r.v)[i] == ByteAnd(ToBytes(x.v)[i], ToBytes(y.v)[i])
    ensures r.Known? ==> r.v <= x.v && r.v <= y.v
  {
    x.Zip(y).Map((p: (Fp, Fp)) => AndFields(p.0, p.1))
  }

  /** Neither unwrap in `and_bytes` can fail: the collected vector has 32
      bytes and decodes to a field element. */
  lemma UnwrapsSucceed(x: Fp, y: Fp)
    ensures TryIntoRepr(ZipAnd(ToBytes(x), ToBytes(y))).Some?
    ensures FromBytes(ZipAnd(ToBytes(x), ToBytes(y))) == Some(AndFields(x, y))
  {
    ZipAndBelow(ToBytes(x), ToBytes(y));
  }

  /** A byte string whose bytes after the first are all zero denotes its first byte. */
  lemma LeValueFirstByte(s: seq<Byte>)
    requires |s| > 0
    requires forall i :: 1 <= i < |s| ==> s[i] == 0
    ensures LeValue(s) == s[0]
  {
    assert forall i :: 0 <= i < |s| - 1 ==> s[1..][i] == s[i + 1];
    LeValueZero(s[1..]);
  }

  /** The encoding of a number below 256 is that byte followed by zeros. */
  lemma SmallToBytes(a: Fp)
    requires a < 256
    ensures ToBytes(a)[0] == a
    ensures forall i :: 1 <= i < REPR_BYTES ==> ToBytes(a)[i] == 0
  {
    var s := ToBytes(a);
    assert LeValue(s) == s[0] + 256 * LeValue(s[1..]);
    LeValueZero(s[1..]);
    assert forall i :: 1 <= i < REPR_BYTES ==> s[i] == s[1..][i - 1];
  }

  /** The AND of two byte strings whose bytes after the first are zero
      denotes the AND of the first bytes. */
  lemma ZipAndOfSmall(x: seq<Byte>, y: seq<Byte>, s: seq<Byte>)
    requires |x| == |y| == |s| > 0
    requires forall i :: 1 <= i < |x| ==> x[i] == 0
    requires forall i :: 0 <= i < |s| ==> s[i] == ByteAnd(x[i], y[i])
    ensures LeValue(s) == ByteAnd(x[0], y[0])
  {
    assert forall i :: 1 <= i < |s| ==> s[i] == 0 by {
      forall i | 1 <= i < |s|
        ensures s[i] == 0
      {
        assert ByteAnd(x[i], y[i]) <= x[i];
      }
    }
    LeValueFirstByte(s);
  }

  /** On byte-valued inputs `and_bytes` is `u8 &`, and its result is again a byte. */
  lemma AndFieldsOnBytes(a: Fp, b: Fp)
    requires a < 256 && b < 256
    ensures AndFields(a, b) == ByteAnd(a, b)
    ensures AndFields(a, b) < 256
  {
    var z := AndFields(a, b);
    SmallToBytes(a);
    SmallToBytes(b);
    ZipAndOfSmall(ToBytes(a), ToBytes(b), ToBytes(z));
  }

  lemma AndBytesCommutative(x: Value<Fp>, y: Value<Fp>)
    ensures AndBytes(x, y) == AndBytes(y, x)
  {
    if x.Known? && y.Known? {
      var z1, z2 := AndFields(x.v, y.v), AndFields(y.v, x.v);
      forall i | 0 <= i < REPR_BYTES {
        BitAndLaws(ToBytes(x.v)[i], ToBytes(y.v)[i]);
      }
      assert ToBytes(z1) == ToBytes(z2);
    }
  }

  /** ANDing a value with itself gives the value back. */
  lemma AndBytesIdempotent(x: Value<Fp>)
    ensures AndBytes(x, x) == x
  {
    if x.Known? {
      var z := AndFields(x.v, x.v);
      forall i | 0 <= i < REPR_BYTES {
        BitAndLaws(ToBytes(x.v)[i], ToBytes(x.v)[i]);
      }
      assert ToBytes(z) == ToBytes(x.v);
    }
  }

  // ---------------------------------------------------------------------------
  // configure: the lookup

  /** A lookup whose three inputs are advice columns x, y and z each
      multiplied by selector q queries (x, y, z) at a row where q is on and
      (0, 0, 0) where it is off. */
  lemma GatedQueries(l: Lookup, q: Selector, x: Column, y: Column, z: Column)
    requires |l.inputs| == 3
    requires l.inputs[0].0 == Product(QuerySelector(q), QueryAdvice(x))
    requires l.inputs[1].0 == Product(QuerySelector(q), QueryAdvice(y))
    requires l.inputs[2].0 == Product(QuerySelector(q), QueryAdvice(z))
    ensures forall w: Witness, row: nat ::
      InputTuple(l, w, row) ==
        if (q, row) in w.enabled then [AdviceAt(w, x, row), AdviceAt(w, y, row), AdviceAt(w, z, row)] else [0, 0, 0]
  {
    forall w: Witness, row: nat
      ensures InputTuple(l, w, row) ==
        if (q, row) in w.enabled then [AdviceAt(w, x, row), AdviceAt(w, y, row), AdviceAt(w, z, row)] else [0, 0, 0]
    {
      var s := Eval(QuerySelector(q), w, row);
      MulBySelector(s, AdviceAt(w, x, row));
      MulBySelector(s, AdviceAt(w, y, row));
      MulBySelector(s, AdviceAt(w, z, row));
      assert Eval(l.inputs[0].0, w, row) == Mul(s, AdviceAt(w, x, row));
      assert Eval(l.inputs[1].0, w, row) == Mul(s, AdviceAt(w, y, row));
      assert Eval(l.inputs[2].0, w, row) == Mul(s, AdviceAt(w, z, row));
    }
  }

  /** The lookup `configure` registers, under the source's name, against the
      table columns (xTab, yTab, zTab) in that order. At each row it queries
      the three cells when the selector is on and (0, 0, 0) when it is off. */
  function AndLookup(config: U8AndConfig, xTab: TableColumn, yTab: TableColumn, zTab: TableColumn): (l: Lookup)
    ensures l.name == LOOKUP_NAME
    ensures |l.inputs| == 3 && l.inputs[0].1 == xTab && l.inputs[1].1 == yTab && l.inputs[2].1 == zTab
    ensures forall w: Witness, row: nat ::
      InputTuple(l, w, row) ==
        if (config.q, row) in w.enabled
        then [AdviceAt(w, config.x, row), AdviceAt(w, config.y, row), AdviceAt(w, config.z, row)]
        else [0, 0, 0]
  {
    var l := Lookup(LOOKUP_NAME, [
      (Product(QuerySelector(config.q), QueryAdvice(config.x)), xTab),
      (Product(QuerySelector(config.q), QueryAdvice(config.y)), yTab),
      (Product(QuerySelector(config.q), QueryAdvice(config.z)), zTab)
    ]);
    GatedQueries(l, config.q, config.x, config.y, config.z);
    l
  }

  /** `U8AndChip::configure`. The lookup panics when `selector` is a simple
      selector; otherwise it is registered and the config returned. */
  method Configure(cs: ConstraintSystem, xCol: Column, yCol: Column, zCol: Column, selector: Selector,
                   xTab: TableColumn, yTab: TableColumn, zTab: TableColumn)
    returns (o: Outcome<U8AndConfig>)
    modifies cs
    ensures o.Panicked? <==> selector.simple
    ensures o.Returned? ==> o.value == U8AndConfig(xCol, yCol, zCol, selector)
    ensures cs.lookups == if o.Panicked? then old(cs.lookups)
      else old(cs.lookups) + [AndLookup(U8AndConfig(xCol, yCol, zCol, selector), xTab, yTab, zTab)]
  {
    var config := U8AndConfig(xCol, yCol, zCol, selector);
    var l := AndLookup(config, xTab, yTab, zTab);
    assert ContainsSimpleSelector(l.inputs[0].0) <==> selector.simple;
    var panicked := cs.AddLookup(LOOKUP_NAME, l.inputs);
    if panicked {
      return Panicked;
    }
    return Returned(config);
  }

  /** The exhaustive AND table: every (a, b, a & b) for bytes a and b. */
  function AndTable(): (t: set<seq<Fp>>) {
    set a: nat, b: nat | a < 256 && b < 256 :: [a, b, ByteAnd(a, b)]
  }

  /** A triple is a row of the AND table exactly when its first two entries
      are bytes and the third is their AND. */
  lemma InAndTable(x: Fp, y: Fp, z: Fp)
    ensures [x, y, z] in AndTable() <==> x < 256 && y < 256 && z == ByteAnd(x, y)
  {
    if [x, y, z] in AndTable() {
      var a: nat, b: nat :| a < 256 && b < 256 && [x, y, z] == [a, b, ByteAnd(a, b)];
      assert x == a && y == b;
    }
  }

  /** The row a selected cell triple must form for the lookup to hold. */
  predicate IsAndRow(x: Fp, y: Fp, z: Fp) {
    x < 256 && y < 256 && z == AndFields(x, y)
  }

  /** A row whose selector is off passes the lookup, because the AND table
      holds (0, 0, 0). */
  lemma UnselectedRowPasses(config: U8AndConfig, xTab: TableColumn, yTab: TableColumn, zTab: TableColumn,
                            w: Witness, row: nat)
    requires (config.q, row) !in w.enabled
    ensures LookupHolds(AndLookup(config, xTab, yTab, zTab), AndTable(), w, row)
  {
    InAndTable(0, 0, 0);
  }

  /** On a selected row, the lookup against the AND table holds exactly when
      x and y are bytes and z is what `and_bytes` computes from them
      (completeness and soundness). */
  lemma SelectedRowLookup(config: U8AndConfig, xTab: TableColumn, yTab: TableColumn, zTab: TableColumn,
                          w: Witness, row: nat)
    requires (config.q, row) in w.enabled
    ensures LookupHolds(AndLookup(config, xTab, yTab, zTab), AndTable(), w, row) <==>
      IsAndRow(AdviceAt(w, config.x, row), AdviceAt(w, config.y, row), AdviceAt(w, config.z, row))
  {
    var x, y, z := AdviceAt(w, config.x, row), AdviceAt(w, config.y, row), AdviceAt(w, config.z, row);
    InAndTable(x, y, z);
    if x < 256 && y < 256 {
      AndFieldsOnBytes(x, y);
    }
  }

  // ---------------------------------------------------------------------------
  // and: one row

  /** `U8AndChip::and` on the region the layouter hands out: enable q at row
      0, copy x and y into row 0 of their columns and assign
      z = and_bytes(x, y) at row 0 of the z column. */
  method And(chip: U8AndChip, region: Region, x: AssignedCell, y: AssignedCell) returns (r: Result<AssignedCell>)
    modifies region
    ensures r.Ok? <==> 0 < region.rows
    ensures r.Err? ==> region.enabled == old(region.enabled) && region.advice == old(region.advice) && region.copies == old(region.copies)
    ensures r.Ok? ==>
      var c := chip.config;
      && region.enabled == old(region.enabled) + {(c.q, 0)}
      && region.advice == old(region.advice)[(c.x, 0) := x.value][(c.y, 0) := y.value][(c.z, 0) := AndBytes(x.value, y.value)]
      && region.copies == old(region.copies) + {(x.cell, Cell(region.index, c.x, 0)), (y.cell, Cell(region.index, c.y, 0))}
      && r.value == AssignedCell(AndBytes(x.value, y.value), Cell(region.index, c.z, 0))
    // With distinct columns and known byte inputs, the row written passes the lookup.
    ensures r.Ok? && chip.config.x != chip.config.y && chip.config.x != chip.config.z && chip.config.y != chip.config.z
            && x.value.Known? && y.value.Known? && x.value.v < 256 && y.value.v < 256 ==>
      var c := chip.config;
      var w := region.Assigned();
      && (c.q, 0) in w.enabled
      && AdviceAt(w, c.x, 0) == x.value.v && AdviceAt(w, c.y, 0) == y.value.v
      && IsAndRow(AdviceAt(w, c.x, 0), AdviceAt(w, c.y, 0), AdviceAt(w, c.z, 0))
  {
    var c := chip.config;
    var enabled := region.EnableSelector(c.q, 0);
    if enabled.Err? {
      return Err(enabled.error);
    }
    var xCopied := region.CopyAdvice(x, c.x, 0);
    if xCopied.Err? {
      return xCopied;
    }
    var yCopied := region.CopyAdvice(y, c.y, 0);
    if yCopied.Err? {
      return yCopied;
    }
    r := region.AssignAdvice(c.z, 0, AndBytes(xCopied.value.value, yCopied.value.value));
    if r.Ok? && c.x != c.y && c.x != c.z && c.y != c.z && x.value.Known? && y.value.Known? {
      assert region.advice[(c.x, 0)] == x.value;
      assert region.advice[(c.y, 0)] == y.value;
      assert region.advice[(c.z, 0)] == Known(AndFields(x.value.v, y.value.v));
    }
  }
}
