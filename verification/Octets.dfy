/** Octets as bit vectors and as numbers. */
module Octets {
  import opened Prelude

  function Value(b: bv8): byte { b as int }

  function XorByte(a: bv8, b: bv8): bv8 { a ^ b }

  function Up(b: bv8): bv8 { b + 1 }

  /** The octet congruent to `n`; octet addition wraps the way the conversion in C does. */
  function Digit(n: nat): bv8 { if n == 0 then 0 else Up(Digit(n - 1)) }

  lemma ValueOfUp(b: bv8)
    ensures Value(Up(b)) == if Value(b) == 0xFF then 0 else Value(b) + 1
  {
  }

  lemma ValueOfZero()
    ensures Value(0) == 0
  {
  }

  lemma {:induction false} ValueOfDigit(n: nat)
    ensures Value(Digit(n)) == n % 0x100
  {
    hide Value, Up;
    if n == 0 {
      ValueOfZero();
    } else {
      ValueOfDigit(n - 1);
      ValueOfUp(Digit(n - 1));
    }
  }

  lemma SameValue(b: bv8, c: bv8)
    requires Value(b) == Value(c)
    ensures b == c
  {
  }

  lemma DigitOfValue(b: bv8)
    ensures Digit(Value(b)) == b
  {
    hide Value, Digit;
    ValueOfDigit(Value(b));
    SameValue(Digit(Value(b)), b);
  }

  lemma SameDigit(m: nat, n: nat)
    requires m % 0x100 == n % 0x100
    ensures Digit(m) == Digit(n)
  {
    hide Value, Digit;
    ValueOfDigit(m);
    ValueOfDigit(n);
    SameValue(Digit(m), Digit(n));
  }

  lemma ComplementValue(b: bv8)
    ensures Value(!b) == 0xFF - Value(b)
  {
  }

  lemma SmallMod(n: nat)
    requires n < 0x100
    ensures n % 0x100 == n
  {
  }
}
