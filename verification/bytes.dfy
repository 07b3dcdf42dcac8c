// Bytes, little-endian fields and the C integer conversions the sources rely on.
// Shifts and masks by constants are written with / and %, which on Dafny's
// unbounded integers round towards minus infinity and so agree with the
// two's-complement reading of >> and &.

module Bytes {
  type byte = x: int | 0 <= x < 256

  const INT8_MIN: int := -128
  const INT8_MAX: int := 127
  const INT32_MIN: int := -0x8000_0000
  const INT32_MAX: int := 0x7FFF_FFFF
  const UINT32_MAX: int := 0xFFFF_FFFF
  const TWO32: int := 0x1_0000_0000
  const TWO64: int := 0x1_0000_0000_0000_0000

  predicate FitsInt8(v: int) { INT8_MIN <= v <= INT8_MAX }

  predicate FitsInt32(v: int) { INT32_MIN <= v <= INT32_MAX }

  /** The C conversion (int32_t)v. */
  function ToInt32(v: int): (r: int)
    ensures FitsInt32(r) && (r - v) % TWO32 == 0
    ensures FitsInt32(v) ==> r == v
  {
    (v + 0x8000_0000) % TWO32 - 0x8000_0000
  }

  /** The C conversion (int8_t)b of one byte. */
  function SignedByte(b: byte): (r: int)
    ensures FitsInt8(r) && r % 256 == b
  {
    if b < 128 then b else b - 256
  }

  function Pow256(n: nat): (p: nat)
    ensures p >= 1
  {
    if n == 0 then 1 else 256 * Pow256(n - 1)
  }

  /** The n low bytes of v, least significant first; a negative v is taken in two's complement. */
  function Le(v: int, n: nat): (s: seq<byte>)
    ensures |s| == n
    decreases n
  {
    if n == 0 then [] else [v % 256] + Le(v / 256, n - 1)
  }

  /** Reading back: the unsigned value of a little-endian field. */
  function Unsigned(s: seq<byte>): (v: nat)
  {
    if s == [] then 0 else s[0] + 256 * Unsigned(s[1..])
  }

  /** Reading back: the two's-complement value of a little-endian field. */
  function Signed(s: seq<byte>): (v: int)
  {
    if s != [] && s[|s| - 1] >= 128 then Unsigned(s) - Pow256(|s|) else Unsigned(s)
  }

  lemma {:induction false} UnsignedBound(s: seq<byte>)
    ensures Unsigned(s) < Pow256(|s|)
  {
    if s != [] {
      UnsignedBound(s[1..]);
    }
  }

  lemma HalfEven(n: nat)
    requires n > 0
    ensures Pow256(n) % 2 == 0 && Pow256(n) == 256 * Pow256(n - 1)
  {
  }

  lemma HalfReached(low: byte, high: nat, p: nat)
    requires p % 2 == 0
    ensures 2 * (low + 256 * high) >= 256 * p <==> 2 * high >= p
  {
  }

  /** The top byte alone decides which half of the range a field lies in. */
  lemma {:induction false} TopByte(s: seq<byte>)
    requires s != []
    ensures s[|s| - 1] >= 128 <==> 2 * Unsigned(s) >= Pow256(|s|)
  {
    HalfEven(|s|);
    var high, p := Unsigned(s[1..]), Pow256(|s| - 1);
    assert Unsigned(s) == s[0] + 256 * high;
    if |s| > 1 {
      HalfEven(|s| - 1);
      TopByte(s[1..]);
      hide Unsigned, Pow256;
      HalfReached(s[0], high, p);
    } else {
      assert high == 0 && p == 1;
    }
  }

  /** Writing then reading loses exactly a multiple of 256^n. */
  lemma {:induction false} LeLoss(v: int, n: nat) returns (q: int)
    ensures v == Unsigned(Le(v, n)) + q * Pow256(n)
    decreases n
  {
    if n == 0 {
      q := v;
    } else {
      q := LeLoss(v / 256, n - 1);
      assert Le(v, n)[1..] == Le(v / 256, n - 1);
      assert q * Pow256(n) == 256 * (q * Pow256(n - 1));
    }
  }

  lemma MultipleInRange(a: int, q: int, p: int)
    requires p > 0 && -p < a < p && a == q * p
    ensures q == 0
  {
  }

  /** A field wide enough for v gives v back, unsigned. */
  lemma UnsignedLe(v: int, n: nat)
    requires 0 <= v < Pow256(n)
    ensures Unsigned(Le(v, n)) == v
  {
    var q := LeLoss(v, n);
    UnsignedBound(Le(v, n));
    MultipleInRange(v - Unsigned(Le(v, n)), q, Pow256(n));
  }

  /** A field wide enough for v gives v back, signed. */
  lemma SignedLe(v: int, n: nat)
    requires n > 0 && 0 <= 2 * v + Pow256(n) < 2 * Pow256(n)
    ensures Signed(Le(v, n)) == v
  {
    var s := Le(v, n);
    var q := LeLoss(v, n);
    UnsignedBound(s);
    TopByte(s);
    if s[n - 1] >= 128 {
      assert v - Signed(s) == (q + 1) * Pow256(n);
      MultipleInRange(v - Signed(s), q + 1, Pow256(n));
    } else {
      MultipleInRange(v - Signed(s), q, Pow256(n));
    }
  }

  /** Any field is rewritten unchanged from its unsigned value. */
  lemma {:induction false} LeUnsigned(s: seq<byte>)
    ensures Le(Unsigned(s), |s|) == s
  {
    if s != [] {
      LeUnsigned(s[1..]);
      assert Unsigned(s) / 256 == Unsigned(s[1..]) && Unsigned(s) % 256 == s[0];
    }
  }

  lemma Pow256Values()
    ensures Pow256(1) == 256 && Pow256(2) == 65536 && Pow256(4) == TWO32 && Pow256(8) == TWO64
  {
    assert Pow256(3) == 256 * Pow256(2) && Pow256(2) == 256 * Pow256(1) && Pow256(1) == 256 * Pow256(0);
    assert Pow256(7) == 256 * Pow256(6) && Pow256(6) == 256 * Pow256(5) && Pow256(5) == 256 * Pow256(4);
  }

  /** Signed 32-bit fields, the displacement and branch form. */
  lemma SignedLe32(v: int)
    requires FitsInt32(v)
    ensures Signed(Le(v, 4)) == v
  {
    Pow256Values();
    SignedLe(v, 4);
  }

  /** What an unsigned reader sees of a 32-bit field holding v. */
  lemma UnsignedLe32(v: int)
    ensures Unsigned(Le(v, 4)) == v % TWO32
  {
    Pow256Values();
    var q := LeLoss(v, 4);
    var u := Unsigned(Le(v, 4));
    UnsignedBound(Le(v, 4));
    hide Le, Unsigned, Pow256;
    assert v == v / TWO32 * TWO32 + v % TWO32;
    assert v % TWO32 - u == (q - v / TWO32) * TWO32;
    MultipleInRange(v % TWO32 - u, q - v / TWO32, TWO32);
  }

  /** What an unsigned reader sees of a 64-bit field holding v. */
  lemma UnsignedLe64(v: int)
    ensures Unsigned(Le(v, 8)) == v % TWO64
  {
    Pow256Values();
    var q := LeLoss(v, 8);
    var u := Unsigned(Le(v, 8));
    UnsignedBound(Le(v, 8));
    hide Le, Unsigned, Pow256;
    assert v == v / TWO64 * TWO64 + v % TWO64;
    assert v % TWO64 - u == (q - v / TWO64) * TWO64;
    MultipleInRange(v % TWO64 - u, q - v / TWO64, TWO64);
  }

  lemma SignedFits(s: seq<byte>)
    ensures |s| == 4 ==> FitsInt32(Signed(s))
    ensures |s| == 1 ==> Signed(s) == SignedByte(s[0])
  {
    Pow256Values();
    UnsignedBound(s);
    if s != [] {
      TopByte(s);
    }
    if |s| == 1 {
      assert s[1..] == [];
    }
  }

  /** The bytes of s found at position p of code. */
  ghost predicate At(code: seq<byte>, p: nat, s: seq<byte>)
  {
    p + |s| <= |code| && code[p..p + |s|] == s
  }

  lemma AtSplit(code: seq<byte>, p: nat, a: seq<byte>, b: seq<byte>)
    requires At(code, p, a + b)
    ensures At(code, p, a) && At(code, p + |a|, b)
  {
    var s := a + b;
    assert forall k {:trigger code[p + k]} :: 0 <= k < |s| ==> code[p + k] == code[p..p + |s|][k];
    assert forall k :: 0 <= k < |a| ==> a[k] == s[k];
    assert forall k :: 0 <= k < |b| ==> b[k] == s[|a| + k] && code[p + (|a| + k)] == s[|a| + k];
  }

  lemma AtByte(code: seq<byte>, p: nat, s: seq<byte>, k: nat)
    requires At(code, p, s) && k < |s|
    ensures code[p + k] == s[k]
  {
    assert code[p + k] == code[p..p + |s|][k];
  }
}
