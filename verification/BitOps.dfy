/** Python's shifts and bitwise operators on unbounded integers (two's complement). */
module BitOps {

  function Pow2(k: nat): (p: int)
    ensures p > 0
  {
    if k == 0 then 1 else 2 * Pow2(k - 1)
  }

  function ShiftLeft(x: int, k: nat): int {
    if k == 0 then x else 2 * ShiftLeft(x, k - 1)
  }

  // Dafny's division by a positive number rounds down, as Python's >> does.
  function ShiftRight(x: int, k: nat): int {
    if k == 0 then x else ShiftRight(x, k - 1) / 2
  }

  // The number of halvings left before only sign bits remain.
  function Magnitude(x: int): nat {
    if x < 0 then -1 - x else x
  }

  function BitOr(x: int, y: int): int
    decreases Magnitude(x) + Magnitude(y)
  {
    if Magnitude(x) == 0 && Magnitude(y) == 0 then
      if x == -1 || y == -1 then -1 else 0
    else
      (if x % 2 == 1 || y % 2 == 1 then 1 else 0) + 2 * BitOr(x / 2, y / 2)
  }

  function BitAnd(x: int, y: int): int
    decreases Magnitude(x) + Magnitude(y)
  {
    if Magnitude(x) == 0 && Magnitude(y) == 0 then
      if x == -1 && y == -1 then -1 else 0
    else
      (if x % 2 == 1 && y % 2 == 1 then 1 else 0) + 2 * BitAnd(x / 2, y / 2)
  }

  lemma {:induction false} OrZero(x: int)
    ensures BitOr(x, 0) == x
    decreases Magnitude(x)
  {
    if Magnitude(x) != 0 {
      OrZero(x / 2);
    }
  }

  /** An or of two numbers that share no bit position is their sum. */
  lemma {:induction false} OrIsSum(high: int, low: int, k: nat)
    requires 0 <= low < Pow2(k)
    ensures BitOr(ShiftLeft(high, k), low) == ShiftLeft(high, k) + low
    decreases k
  {
    if k == 0 {
      OrZero(high);
    } else {
      OrIsSum(high, low / 2, k - 1);
    }
  }

  /** Zero bits on the right of both operands can be added before or after the or. */
  lemma {:induction false} OrShifted(x: int, y: int, k: nat)
    ensures BitOr(ShiftLeft(x, k), ShiftLeft(y, k)) == ShiftLeft(BitOr(x, y), k)
    decreases k
  {
    if k > 0 {
      OrShifted(x, y, k - 1);
    }
  }

  lemma {:induction false} ShiftTwice(x: int, j: nat, k: nat)
    ensures ShiftLeft(x, j + k) == ShiftLeft(ShiftLeft(x, j), k)
    decreases k
  {
    if k > 0 {
      ShiftTwice(x, j, k - 1);
      assert j + k - 1 == j + (k - 1);
    }
  }

  /** Masking with k ones takes the remainder modulo 2^k, for negative numbers too. */
  lemma {:induction false} AndMask(x: int, k: nat)
    ensures BitAnd(x, Pow2(k) - 1) == x % Pow2(k)
    decreases k
  {
    if k == 0 {
      AndZero(x);
    } else {
      var mask := Pow2(k) - 1;
      assert mask % 2 == 1 && mask / 2 == Pow2(k - 1) - 1;
      AndMask(x / 2, k - 1);
      RemainderByHalves(x, Pow2(k - 1));
    }
  }

  lemma {:induction false} AndZero(x: int)
    ensures BitAnd(x, 0) == 0
    decreases Magnitude(x)
  {
    if Magnitude(x) != 0 {
      AndZero(x / 2);
    }
  }

  lemma RemainderByHalves(x: int, p: int)
    requires p > 0
    ensures x % (2 * p) == x % 2 + 2 * ((x / 2) % p)
  {
    var q, r := (x / 2) / p, (x / 2) % p;
    assert x == 2 * (p * q + r) + x % 2 == (2 * p) * q + (2 * r + x % 2);
    RemainderIs(x, 2 * p, q, 2 * r + x % 2);
  }

  lemma RemainderIs(x: int, d: int, q: int, r: int)
    requires 0 <= r < d && x == d * q + r
    ensures x / d == q && x % d == r
  {
    // Both remainders lie in [0, d), so the quotients cannot differ.
    var e := x / d - q;
    assert d * e == r - x % d by {
      assert x == d * (x / d) + x % d;
      assert d * e == d * (x / d) - d * q;
    }
    if e != 0 {
      MultipleIsFar(d, e);
    }
  }

  lemma MultipleIsFar(d: int, e: int)
    requires d > 0 && e != 0
    ensures d * e >= d || d * e <= -d
  {
    if e >= 1 {
      assert d * (e - 1) >= 0;
    } else {
      assert d * (-e - 1) >= 0;
    }
  }
}
