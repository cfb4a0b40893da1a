/** The message length of hmac.c: a number of bits in eight octets, most significant first. */
module Sha256Length {
  import opened Octets
  import opened Prelude
  import opened Sha256Spec

  function Nums(x: nat, k: nat): (l: seq<byte>)
    ensures |l| == k
  {
    if k == 0 then [] else Nums(x / 0x100, k - 1) + [x % 0x100]
  }

  lemma {:induction false} NumsAreDigits(x: nat, k: nat)
    ensures forall i :: 0 <= i < k ==> BigEndian(x, k)[i] == Digit(Nums(x, k)[i])
  {
    hide Digit;
    if k > 0 {
      NumsAreDigits(x / 0x100, k - 1);
    }
  }

  /** One added to the number in a sequence of octets. */
  function Inc(l: seq<byte>): (r: seq<byte>)
    ensures |r| == |l|
  {
    if l == [] then []
    else if l[|l| - 1] == 0xFF then Inc(l[..|l| - 1]) + [0]
    else l[..|l| - 1] + [l[|l| - 1] + 1]
  }

  lemma {:induction false} IncNums(x: nat, k: nat)
    ensures Inc(Nums(x, k)) == Nums(x + 1, k)
  {
    hide Inc;
    if k > 0 {
      var front, d := Nums(x / 0x100, k - 1), x % 0x100;
      IncNums(x / 0x100, k - 1);
      IncLast(front, d);
      Carry(x);
    }
  }

  lemma IncLast(front: seq<byte>, d: byte)
    ensures Inc(front + [d]) == if d == 0xFF then Inc(front) + [0] else front + [d + 1]
  {
    assert (front + [d])[..|front|] == front;
  }

  lemma Carry(x: nat)
    ensures (x + 1) / 0x100 == x / 0x100 + (if x % 0x100 == 0xFF then 1 else 0)
    ensures (x + 1) % 0x100 == if x % 0x100 == 0xFF then 0 else x % 0x100 + 1
  {
  }

  function Pow2(k: nat): nat { if k == 0 then 1 else 2 * Pow2(k - 1) }

  /** What the loop of sha256_update adds to octet `i` for a message of `n` octets. */
  function BitsAt(n: u32, i: nat): byte
    requires i < 8
  {
    if i == 7 then n * 8 % 0x1_0000_0000 % 0x100
    else if i <= 2 then 0
    else
      var p := Pow2(53 - 8 * i);
      if p == 0 then 0 else n / p % 0x100
  }

  /** The bits of the length from octet `i` up. */
  function BitsFrom(n: u32, i: int): nat
    requires -1 <= i < 8
  {
    if i == 7 then 8 * n
    else if i == 6 then n / 0x20
    else if i == 5 then n / 0x2000
    else if i == 4 then n / 0x20_0000
    else if i == 3 then n / 0x2000_0000
    else 0
  }

  lemma Quotients(n: u32)
    ensures 8 * n / 0x100 == n / 0x20
    ensures n / 0x20 / 0x100 == n / 0x2000
    ensures n / 0x2000 / 0x100 == n / 0x20_0000
    ensures n / 0x20_0000 / 0x100 == n / 0x2000_0000
    ensures n / 0x2000_0000 / 0x100 == 0
  {
  }

  lemma LowOctet(n: u32)
    ensures n * 8 % 0x1_0000_0000 % 0x100 == 8 * n % 0x100
  {
  }

  lemma BitsOfLength(n: u32, i: nat)
    requires i < 8
    ensures BitsAt(n, i) == BitsFrom(n, i) % 0x100 && BitsFrom(n, i) / 0x100 == BitsFrom(n, i - 1)
  {
    Quotients(n);
    LowOctet(n);
    Powers();
  }

  lemma Powers()
    ensures Pow2(5) == 0x20 && Pow2(13) == 0x2000 && Pow2(21) == 0x20_0000 && Pow2(29) == 0x2000_0000
  {
    assert Pow2(10) == 0x400;
    assert Pow2(17) == 0x2_0000;
    assert Pow2(25) == 0x200_0000;
  }

  /** One octet of an addition: `x` and `m` are what is left of the two summands from this octet up. */
  lemma DigitSum(x: nat, m: nat)
    ensures var s := x % 0x100 + m % 0x100;
            && s % 0x100 == (x + m) % 0x100
            && x / 0x100 + (if s > 0xFF then 1 else 0) + m / 0x100 == (x + m) / 0x100
  {
  }

  lemma DivEight(n: nat)
    ensures 8 * n % 0x100 == 8 * (n % 32)
    ensures 8 * n / 0x100 == n / 32
  {
  }

  lemma SplitHalf(n: nat)
    ensures n / 32 % 0x100 % 2 * 32 + n % 32 == n % 64
  {
  }

  /** The position in the buffer that sha256_update and sha256_finalize compute from the length. */
  lemma IndexOfLength(n: nat)
    ensures Nums(8 * n, 8)[6] % 2 * 32 + Nums(8 * n, 8)[7] / 8 == n % 64
  {
    DivEight(n);
    SplitHalf(n);
    assert Nums(8 * n, 8)[6] == Nums(8 * n / 0x100, 7)[6];
  }
}
