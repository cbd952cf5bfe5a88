/** Bit arithmetic behind the tree shapes: merkle/util.go and the largest power
    of two below a size.

    Machine words are unsigned 32-bit; they are modelled as naturals, with the
    wrap-around of a negation written out where the source uses one. */
module Bits {

  const TWO_32: nat := 0x1_0000_0000

  /** The number of 1 digits of n. */
  function Ones(n: nat): (c: nat)
    ensures c <= n
    ensures n > 0 ==> c > 0
  {
    if n == 0 then 0 else n % 2 + Ones(n / 2)
  }

  /** The number of binary digits of n. */
  function Digits(n: nat): nat {
    if n == 0 then 0 else 1 + Digits(n / 2)
  }

  function Pow2(i: nat): (p: nat)
    ensures p > 0
  {
    if i == 0 then 1 else 2 * Pow2(i - 1)
  }

  predicate IsPow2(n: nat) {
    n == 1 || (n > 1 && n % 2 == 0 && IsPow2(n / 2))
  }

  /** The largest power of two that divides n. */
  function LowestOne(n: nat): (p: nat)
    requires n > 0
    ensures 0 < p <= n && IsPow2(p)
  {
    if n % 2 == 1 then 1 else 2 * LowestOne(n / 2)
  }

  /** Bitwise conjunction of two naturals. */
  function And(a: nat, b: nat): nat {
    if a == 0 || b == 0 then 0 else 2 * And(a / 2, b / 2) + (if a % 2 == 1 && b % 2 == 1 then 1 else 0)
  }

  // --- powers of two

  lemma {:induction false} Pow2IsPow2(i: nat)
    ensures IsPow2(Pow2(i))
  {
    if i == 0 {
    } else {
      Pow2IsPow2(i - 1);
    }
  }

  lemma DoublePower(p: nat)
    requires IsPow2(p)
    ensures IsPow2(2 * p)
  {
  }

  /** A power of two is Pow2 of one less than its number of digits. */
  lemma {:induction false} IsPow2Exponent(n: nat)
    requires IsPow2(n)
    ensures Digits(n) > 0 && n == Pow2(Digits(n) - 1)
  {
    if n <= 1 {
    } else {
      IsPow2Exponent(n / 2);
    }
  }

  /** The powers of two are exactly the numbers with a single 1 digit. */
  lemma {:induction false} PowerHasOneOne(n: nat)
    ensures IsPow2(n) <==> Ones(n) == 1
  {
    if n <= 1 {
    } else {
      PowerHasOneOne(n / 2);
    }
  }

  /** Between two powers of two there is a factor of two. */
  lemma {:induction false} PowersAreSpaced(a: nat, b: nat)
    requires IsPow2(a) && IsPow2(b) && a < b
    ensures 2 * a <= b
  {
    if a <= 1 {
    } else {
      PowersAreSpaced(a / 2, b / 2);
    }
  }

  // --- the split point of a tree

  /** The digits of n bracket it between two powers of two. */
  lemma {:induction false} DigitsBracket(n: nat)
    requires n > 0
    ensures Digits(n) > 0
    ensures Pow2(Digits(n) - 1) <= n < 2 * Pow2(Digits(n) - 1)
  {
    if n <= 1 {
    } else {
      DigitsBracket(n / 2);
    }
  }

  /** The largest power of two smaller than n. */
  function Split(n: nat): (k: nat)
    requires n >= 2
    ensures IsPow2(k) && k < n <= 2 * k
  {
    if n == 2 then 1 else 2 * Split((n + 1) / 2)
  }

  lemma SplitUnique(n: nat, k: nat)
    requires IsPow2(k) && k < n <= 2 * k
    ensures Split(n) == k
  {
    var s := Split(n);
    if s < k {
      PowersAreSpaced(s, k);
    } else if k < s {
      PowersAreSpaced(k, s);
    }
  }

  /** Adding a power of two above n adds one 1 digit. */
  lemma {:induction false} OnesAbove(k: nat, n: nat)
    requires IsPow2(k) && n < k
    ensures Ones(k + n) == 1 + Ones(n)
  {
    hide Ones;
    OnesLevel(n);
    OnesLevel(k + n);
    if k > 1 {
      assert (k + n) / 2 == k / 2 + n / 2;
      OnesAbove(k / 2, n / 2);
    } else {
      OnesLevel(0);
    }
  }

  // --- countBit

  /** Conjunction with the predecessor erases the lowest 1 digit. */
  lemma {:induction false} AndPredecessor(n: nat)
    requires n > 0
    ensures And(n, n - 1) == n - LowestOne(n)
    ensures Ones(And(n, n - 1)) == Ones(n) - 1
  {
    hide *;
    AndLevel(n, n - 1);
    LowestOneLevel(n);
    OnesLevel(n);
    if n % 2 == 1 {
      AndSelf(n / 2);
      OnesLevel(n - 1);
    } else {
      AndPredecessor(n / 2);
      OnesLevel(2 * And(n / 2, n / 2 - 1));
    }
  }

  lemma AndLevel(a: nat, b: nat)
    ensures And(a, b) == 2 * And(a / 2, b / 2) + (if a % 2 == 1 && b % 2 == 1 then 1 else 0)
  {
  }

  lemma OnesLevel(n: nat)
    ensures Ones(n) == n % 2 + Ones(n / 2)
  {
  }

  lemma LowestOneLevel(n: nat)
    requires n > 0
    ensures LowestOne(n) == if n % 2 == 1 then 1 else 2 * LowestOne(n / 2)
  {
  }

  lemma {:induction false} AndSelf(n: nat)
    ensures And(n, n) == n
  {
    if n == 0 {
    } else {
      AndSelf(n / 2);
    }
  }

  /** Each round clears one 1 digit, so the rounds count them. */
  method CountBit(num: nat) returns (count: nat)
    ensures count == Ones(num)
  {
    var n := num;
    count := 0;
    while n != 0
      invariant count + Ones(n) == Ones(num)
    {
      AndPredecessor(n);
      n := And(n, n - 1);
      count := count + 1;
    }
  }

  method IsPower2(num: nat) returns (r: bool)
    ensures r <==> IsPow2(num)
  {
    PowerHasOneOne(num);
    var c := CountBit(num);
    r := c == 1;
  }

  // --- highBit and lowBit

  method HighBit(num: nat) returns (hiBit: nat)
    ensures hiBit == Digits(num)
    ensures num > 0 ==> hiBit > 0 && Pow2(hiBit - 1) <= num < 2 * Pow2(hiBit - 1)
  {
    var n := num;
    hiBit := 0;
    while n != 0
      invariant hiBit + Digits(n) == Digits(num)
    {
      n := n / 2;
      hiBit := hiBit + 1;
    }
    if num > 0 {
      DigitsBracket(num);
    }
  }

  /** The two's complement of num in a word of size w. */
  function Negate(num: nat, w: nat): nat
    requires num <= w
  {
    if num == 0 then 0 else w - num
  }

  /** Conjunction with the negation keeps exactly the lowest 1 digit. */
  lemma {:induction false} AndNegation(n: nat, w: nat)
    requires IsPow2(w) && 0 < n < w
    ensures And(n, w - n) == LowestOne(n)
  {
    if n % 2 == 1 {
      AndComplement(n / 2, w / 2);
      assert (w - n) / 2 == w / 2 - 1 - n / 2;
    } else {
      AndNegation(n / 2, w / 2);
      assert (w - n) / 2 == w / 2 - n / 2;
    }
  }

  lemma {:induction false} AndComplement(n: nat, w: nat)
    requires IsPow2(w) && n < w
    ensures And(n, w - 1 - n) == 0
  {
    if n == 0 {
    } else {
      AndComplement(n / 2, w / 2);
      assert (w - 1 - n) / 2 == w / 2 - 1 - n / 2;
    }
  }

  /** The 1-based position of the lowest 1 digit; 0 for 0. */
  ghost function LowPosition(n: nat): nat {
    if n == 0 then 0 else Digits(LowestOne(n))
  }

  method LowBit(num: nat) returns (r: nat)
    requires num < TWO_32
    ensures r == LowPosition(num)
  {
    if num > 0 {
      Pow2IsPow2(32);
      assert Pow2(32) == TWO_32 by { Pow2Thirty2(); }
      AndNegation(num, TWO_32);
    }
    r := HighBit(And(num, Negate(num, TWO_32)));
  }

  lemma Pow2Thirty2()
    ensures Pow2(32) == TWO_32
  {
    assert Pow2(8) == 0x100;
    assert Pow2(16) == 0x1_0000;
    assert Pow2(24) == 0x100_0000;
  }
}
