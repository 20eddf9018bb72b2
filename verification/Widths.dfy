// Machine integers as ranges of int, and the bit operations the codecs use.
module Widths {

  type UInt8 = n: int | 0 <= n < 0x100
  type UInt16 = n: int | 0 <= n < 0x1_0000
  type UInt32 = n: int | 0 <= n < 0x1_0000_0000
  type UInt64 = n: int | 0 <= n < 0x1_0000_0000_0000_0000
  type Int8 = n: int | -0x80 <= n < 0x80
  type Int16 = n: int | -0x8000 <= n < 0x8000
  type Int32 = n: int | -0x8000_0000 <= n < 0x8000_0000

  const MAX_INT32: Int32 := 0x7fff_ffff
  const WORD32 := 0x1_0000_0000

  datatype Option<+T> = None | Some(value: T)

  function Min(a: int, b: int): int {
    if a < b then a else b
  }

  function Constant<T>(value: T, size: nat): (r: seq<T>)
    ensures |r| == size
  {
    seq(size, _ => value)
  }

  predicate Distinct<T(==)>(s: seq<T>) {
    forall i, j | 0 <= i < j < |s| :: s[i] != s[j]
  }

  lemma SomeMember<T>(s: set<T>) returns (x: T)
    requires s != {}
    ensures x in s
  {
    x :| x in s;
  }

  // Reinterpretations between signed and unsigned words.
  function ToInt32(u: UInt32): Int32 {
    if u < 0x8000_0000 then u else u - WORD32
  }

  function ToUInt32(v: Int32): UInt32 {
    if v < 0 then v + WORD32 else v
  }

  function ToInt16(u: UInt16): Int16 {
    if u < 0x8000 then u else u - 0x1_0000
  }

  function ToUInt16(v: Int16): UInt16 {
    if v < 0 then v + 0x1_0000 else v
  }

  function ToInt8(u: UInt8): Int8 {
    if u < 0x80 then u else u - 0x100
  }

  function ToUInt8(v: Int8): UInt8 {
    if v < 0 then v + 0x100 else v
  }

  function Pow2(k: nat): nat {
    if k == 0 then 1 else 2 * Pow2(k - 1)
  }

  function BitOr(a: nat, b: nat): nat {
    if a == 0 then b
    else if b == 0 then a
    else 2 * BitOr(a / 2, b / 2) + (if a % 2 == 1 || b % 2 == 1 then 1 else 0)
  }

  function BitXor(a: nat, b: nat): nat {
    if a == 0 then b
    else if b == 0 then a
    else 2 * BitXor(a / 2, b / 2) + (if a % 2 != b % 2 then 1 else 0)
  }

  // A left shift of a 32-bit word.
  function Shl32(a: nat, k: nat): UInt32 {
    (a * Pow2(k)) % WORD32
  }

  lemma Pow2Values()
    ensures Pow2(0) == 1 && Pow2(1) == 2 && Pow2(2) == 4 && Pow2(3) == 8 && Pow2(4) == 16
    ensures Pow2(5) == 32 && Pow2(6) == 64
    ensures Pow2(7) == 0x80 && Pow2(8) == 0x100 && Pow2(16) == 0x1_0000 && Pow2(32) == WORD32
  {
    Pow2Add(4, 4);
    Pow2Add(8, 8);
    Pow2Add(16, 16);
  }

  lemma Pow2Positive(k: nat)
    ensures Pow2(k) >= 1
  {}

  lemma {:induction false} Pow2Add(a: nat, b: nat)
    ensures Pow2(a + b) == Pow2(a) * Pow2(b)
  {
    if a > 0 { Pow2Add(a - 1, b); }
  }

  lemma {:induction false} Pow2Monotone(a: nat, b: nat)
    requires a <= b
    ensures Pow2(a) <= Pow2(b)
  {
    if a < b { Pow2Monotone(a, b - 1); }
  }

  // OR-ing a field above the bits in use adds it.
  lemma {:induction false} OrOfDisjoint(a: nat, b: nat, k: nat)
    requires a < Pow2(k)
    ensures BitOr(a, b * Pow2(k)) == a + b * Pow2(k)
  {
    if k > 0 && a > 0 && b > 0 {
      var half := b * Pow2(k - 1);
      assert b * Pow2(k) == 2 * half;
      OrOfDisjoint(a / 2, b, k - 1);
    }
  }

  lemma {:induction false} OrCommutes(a: nat, b: nat)
    ensures BitOr(a, b) == BitOr(b, a)
    decreases a
  {
    if a > 0 && b > 0 { OrCommutes(a / 2, b / 2); }
  }

  lemma {:induction false} XorWithOnes(a: nat, k: nat)
    requires a < Pow2(k)
    ensures BitXor(a, Pow2(k) - 1) == Pow2(k) - 1 - a
  {
    if k > 0 && a > 0 {
      XorWithOnes(a / 2, k - 1);
    }
  }

  lemma QuotientIsNat(a: nat, p: nat)
    requires p > 0
    ensures a / p >= 0
  {
    var q := a / p;
    assert a == p * q + a % p;
    assert p * (q + 1) == p * q + p;
    PositiveFactor(p, q + 1);
  }

  lemma PositiveFactor(p: nat, x: int)
    requires p * x > 0
    ensures x > 0
  {}

  // A right shift that divides by p.
  function Shr(a: nat, p: nat): nat
    requires p > 0
  {
    QuotientIsNat(a, p);
    a / p
  }

  // The bits below p.
  function LowBits(a: nat, p: nat): nat
    requires p > 0
  {
    a % p
  }

  lemma DivModUnique(x: int, m: int, q: int, r: int)
    requires m > 0 && x == q * m + r && 0 <= r < m
    ensures x / m == q && x % m == r
  {
    var d := x / m - q;
    assert d * m == r - x % m;
    assert d >= 1 ==> d * m >= m;
    assert d <= -1 ==> d * m <= -m;
  }

  lemma DigitsBelow(low: nat, x: nat, p: nat, q: nat)
    requires low < p && x < q
    ensures low + x * p < p * q && x * p < p * q
  {
    assert (x + 1) * p <= q * p;
    assert (x + 1) * p == x * p + p;
  }
}
