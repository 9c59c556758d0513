/** The canonical byte encoding of a BN254 scalar field element
    (`Fr::to_bytes` / `Fr::from_bytes` in halo2curves): 32 bytes, least
    significant first. Decoding is partial: a byte string whose value is at
    or above the modulus is rejected. */
module FieldBytes {
  import opened Halo2

  /** Number of bytes in an encoded field element. */
  const REPR_BYTES: nat := 32

  /** A `u8`. */
  type Byte = b: int | 0 <= b < 256

  datatype Option<T> = None | Some(value: T)

  function Pow256(k: nat): (r: nat)
    ensures r > 0
  {
    if k == 0 then 1 else 256 * Pow256(k - 1)
  }

  lemma {:induction false} Pow256Add(a: nat, b: nat)
    ensures Pow256(a + b) == Pow256(a) * Pow256(b)
  {
    if a > 0 {
      Pow256Add(a - 1, b);
    }
  }

  /** Every field element fits in 32 bytes. */
  lemma ModulusFits()
    ensures MODULUS < Pow256(REPR_BYTES)
  {
    assert Pow256(8) == 0x1_0000_0000_0000_0000;
    Pow256Add(8, 8);
    Pow256Add(16, 16);
  }

  /** The number a byte string denotes, least significant byte first. */
  function LeValue(s: seq<Byte>): (n: nat)
    ensures n < Pow256(|s|)
  {
    if s == [] then 0 else s[0] + 256 * LeValue(s[1..])
  }

  /** The `k` low-order bytes of `n`, least significant first. */
  function LeBytes(n: nat, k: nat): (s: seq<Byte>)
    ensures |s| == k
  {
    if k == 0 then [] else [n % 256] + LeBytes(n / 256, k - 1)
  }

  /** Splitting off the low byte of a number below 256^k leaves a number below 256^(k - 1). */
  lemma DivModByte(n: nat, k: nat)
    requires 0 < k && n < Pow256(k)
    ensures n == n % 256 + 256 * (n / 256)
    ensures n / 256 < Pow256(k - 1)
  {
  }

  lemma {:induction false} LeValueOfLeBytes(n: nat, k: nat)
    requires n < Pow256(k)
    ensures LeValue(LeBytes(n, k)) == n
  {
    if k > 0 {
      var s := LeBytes(n, k);
      DivModByte(n, k);
      LeValueOfLeBytes(n / 256, k - 1);
      assert s[1..] == LeBytes(n / 256, k - 1);
      assert LeValue(s) == s[0] + 256 * LeValue(s[1..]);
    }
  }

  lemma {:induction false} LeBytesOfLeValue(s: seq<Byte>)
    ensures LeBytes(LeValue(s), |s|) == s
  {
    if s != [] {
      var n := LeValue(s);
      LeBytesOfLeValue(s[1..]);
      assert n == s[0] + 256 * LeValue(s[1..]);
      assert n / 256 == LeValue(s[1..]) && n % 256 == s[0];
    }
  }

  /** Two byte strings of one length that denote the same number are equal. */
  lemma LeValueInjective(s: seq<Byte>, t: seq<Byte>)
    requires |s| == |t| && LeValue(s) == LeValue(t)
    ensures s == t
  {
    LeBytesOfLeValue(s);
    LeBytesOfLeValue(t);
  }

  /** A byte string denotes zero exactly when every byte is zero. */
  lemma {:induction false} LeValueZero(s: seq<Byte>)
    ensures LeValue(s) == 0 <==> forall i :: 0 <= i < |s| ==> s[i] == 0
  {
    if s != [] {
      LeValueZero(s[1..]);
      if LeValue(s) == 0 {
        assert s[0] == 0;
      }
      assert forall i :: 1 <= i < |s| ==> s[i] == s[1..][i - 1];
    }
  }

  /** `Fr::to_bytes`: the canonical encoding, which denotes `x` itself. */
  function ToBytes(x: Fp): (s: seq<Byte>)
    ensures |s| == REPR_BYTES
    ensures LeValue(s) == x
  {
    ModulusFits();
    LeValueOfLeBytes(x, REPR_BYTES);
    LeBytes(x, REPR_BYTES)
  }

  /** `Fr::from_bytes` on a `[u8; 32]`: accepts exactly the canonical encodings. */
  function FromBytes(s: seq<Byte>): (r: Option<Fp>)
    requires |s| == REPR_BYTES
    ensures r.Some? <==> LeValue(s) < MODULUS
    ensures r.Some? ==> ToBytes(r.value) == s
  {
    var n := LeValue(s);
    if n < MODULUS then
      LeValueInjective(ToBytes(n), s);
      Some(n)
    else
      None
  }

  /** Decoding inverts encoding. */
  lemma FromBytesToBytes(x: Fp)
    ensures FromBytes(ToBytes(x)) == Some(x)
  {
    var r := FromBytes(ToBytes(x));
    LeValueInjective(ToBytes(r.value), ToBytes(x));
  }

  /** `<Vec<u8> as TryInto<[u8; 32]>>::try_into`: succeeds on exactly 32 bytes. */
  function TryIntoRepr(v: seq<Byte>): (r: Option<seq<Byte>>)
    ensures r.Some? <==> |v| == REPR_BYTES
    ensures r.Some? ==> r.value == v
  {
    if |v| == REPR_BYTES then Some(v) else None
  }
}
