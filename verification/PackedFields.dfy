// Fields of equal width packed into a word, lowest first: the layout that the
// Java and the Bedrock palettes share.
module PackedFields {
  import opened Widths

  function CeilDiv(n: nat, d: nat): nat
    requires d > 0
  {
    (n + d - 1) / d
  }

  // The field in the given slot: the word is shifted down one field at a time.
  function Field(word: nat, slot: nat, bits: nat): nat {
    Pow2Positive(bits);
    if slot == 0 then LowBits(word, Pow2(bits)) else Field(Shr(word, Pow2(bits)), slot - 1, bits)
  }

  // OR-ing a field that fits into the free bits of a word adds it.
  lemma FieldAbove(low: nat, x: nat, shift: nat, bits: nat)
    requires low < Pow2(shift) && x < Pow2(bits) && shift + bits <= 32
    ensures BitOr(low, Shl32(x, shift)) == low + x * Pow2(shift) < Pow2(shift + bits)
  {
    hide BitOr, Pow2;
    var p, q := Pow2(shift), Pow2(bits);
    Pow2Add(shift, bits);
    DigitsBelow(low, x, p, q);
    assert x * p < WORD32 by {
      Pow2Monotone(shift + bits, 32);
      Pow2Values();
    }
    DivModUnique(x * p, WORD32, 0, x * p);
    OrOfDisjoint(low, x, shift);
  }

  // The number whose digits in base 2^bits are the fields, lowest first.
  function Digits(fields: seq<nat>, bits: nat): nat {
    if fields == [] then 0 else fields[0] + Pow2(bits) * Digits(fields[1..], bits)
  }

  predicate Fit(fields: seq<nat>, bits: nat) {
    forall k | 0 <= k < |fields| :: fields[k] < Pow2(bits)
  }

  lemma {:induction false} DigitsAppend(fields: seq<nat>, x: nat, bits: nat)
    ensures Digits(fields + [x], bits) == Digits(fields, bits) + x * Pow2(|fields| * bits)
  {
    if fields == [] {
      assert fields + [x] == [x] && [x][1..] == [];
    } else {
      assert (fields + [x])[1..] == fields[1..] + [x];
      DigitsAppend(fields[1..], x, bits);
      var rest := |fields[1..]| * bits;
      assert |fields| * bits == bits + rest;
      Pow2Add(bits, rest);
      ShiftUp(Pow2(bits), Digits(fields[1..], bits), x, Pow2(rest));
    }
  }

  lemma ShiftUp(b: nat, n: nat, x: nat, p: nat)
    ensures b * (n + x * p) == b * n + x * (b * p)
  {}

  lemma {:induction false} DigitsBound(fields: seq<nat>, bits: nat)
    requires Fit(fields, bits)
    ensures Digits(fields, bits) < Pow2(|fields| * bits)
  {
    if fields != [] {
      DigitsBound(fields[1..], bits);
      var rest := |fields[1..]| * bits;
      assert |fields| * bits == bits + rest;
      Pow2Add(bits, rest);
      DigitsBelow(fields[0], Digits(fields[1..], bits), Pow2(bits), Pow2(rest));
    }
  }

  lemma {:induction false} FieldOfDigits(fields: seq<nat>, bits: nat, j: nat)
    requires Fit(fields, bits) && j < |fields|
    ensures Field(Digits(fields, bits), j, bits) == fields[j]
  {
    Pow2Positive(bits);
    DivModUnique(Digits(fields, bits), Pow2(bits), Digits(fields[1..], bits), fields[0]);
    if j > 0 {
      FieldOfDigits(fields[1..], bits, j - 1);
    }
  }

  lemma ShrShr(x: nat, a: nat, b: nat, p: nat)
    requires a > 0 && b > 0 && p > 0 && p == a * b
    ensures Shr(Shr(x, a), b) == Shr(x, p)
  {
    var q, r := Shr(x, a), x % a;
    var q', r' := Shr(q, b), q % b;
    assert x == q * a + r;
    assert q == q' * b + r';
    MulDistributes(q', b, r', a);
    DigitsBelow(r, r', a, b);
    assert x == q' * p + (r' * a + r);
    DivModUnique(x, p, q', r' * a + r);
  }

  lemma MulDistributes(q: int, b: int, r: int, a: int)
    ensures (q * b + r) * a == q * (a * b) + r * a
  {}

  // A field found by shifting it down to the bottom and masking.
  function MaskedShift(word: nat, shift: nat, bits: nat): nat {
    Pow2Positive(shift);
    Pow2Positive(bits);
    LowBits(Shr(word, Pow2(shift)), Pow2(bits))
  }

  lemma {:induction false} FieldByShift(word: nat, slot: nat, shift: nat, bits: nat)
    requires shift == slot * bits
    ensures MaskedShift(word, shift, bits) == Field(word, slot, bits)
    decreases slot
  {
    if slot == 0 {
      assert shift == 0;
      assert Shr(word, 1) == word;
    } else {
      var before := shift - bits;
      assert before == (slot - 1) * bits;
      FieldByShift(Shr(word, Pow2(bits)), slot - 1, before, bits) by { Pow2Positive(bits); }
      ShiftTwice(word, bits, before);
    }
  }

  lemma ShiftTwice(word: nat, a: nat, b: nat)
    ensures Pow2(a) > 0 && MaskedShift(Shr(word, Pow2(a)), b, a) == MaskedShift(word, a + b, a)
  {
    hide Pow2;
    Pow2Positive(a);
    Pow2Positive(b);
    Pow2Positive(a + b);
    Pow2Add(a, b);
    ShrShr(word, Pow2(a), Pow2(b), Pow2(a + b));
  }
}
