/** Numbers written as digits, most significant first, and the size estimates of Base58. */
module Radix {

  import opened Arithmetic

  function Pow(b: nat, e: nat): nat {
    if e == 0 then 1 else b * Pow(b, e - 1)
  }

  lemma {:induction false} PowPositive(b: nat, e: nat)
    requires b > 0
    ensures Pow(b, e) > 0
  {
    if e > 0 { PowPositive(b, e - 1); }
  }

  lemma {:induction false} PowAdd(b: nat, x: nat, y: nat)
    ensures Pow(b, x + y) == Pow(b, x) * Pow(b, y)
    decreases x
  {
    if x > 0 {
      PowAdd(b, x - 1, y);
      Associate(b, Pow(b, x - 1), Pow(b, y));
    }
  }

  lemma {:induction false} PowTimes(b: nat, x: nat, y: nat)
    ensures Pow(b, x * y) == Pow(Pow(b, x), y)
    decreases y
  {
    if y > 0 {
      PowTimes(b, x, y - 1);
      assert x * y == x + x * (y - 1);
      PowAdd(b, x, x * (y - 1));
    }
  }

  lemma {:induction false} PowMonotone(b: nat, x: nat, y: nat)
    requires b > 0 && x <= y
    ensures Pow(b, x) <= Pow(b, y)
    decreases y
  {
    if x < y {
      PowMonotone(b, x, y - 1);
      MulMono(1, b, Pow(b, y - 1));
    }
  }

  lemma {:induction false} PowBaseMonotone(a: nat, b: nat, e: nat)
    requires a <= b
    ensures Pow(a, e) <= Pow(b, e)
  {
    if e > 0 {
      PowBaseMonotone(a, b, e - 1);
      MulMono(a, b, Pow(a, e - 1));
      MulMono(Pow(a, e - 1), Pow(b, e - 1), b);
    }
  }

  lemma {:induction false} PowBaseStrict(a: nat, b: nat, e: nat)
    requires a < b && e > 0
    ensures Pow(a, e) < Pow(b, e)
    decreases e
  {
    PowBaseMonotone(a, b, e - 1);
    PowPositive(b, e - 1);
    StrictProduct(a, b, Pow(a, e - 1), Pow(b, e - 1));
  }

  lemma StrictProduct(a: nat, b: nat, x: nat, y: nat)
    requires a < b && x <= y && y > 0
    ensures a * x < b * y
  {
    MulMono(x, y, a);
    MulMono(a + 1, b, y);
    Distribute(a, 1, y);
  }

  // ---------------------------------------------------------------- digits

  ghost predicate Digits(s: seq<nat>, base: nat) {
    forall i :: 0 <= i < |s| ==> s[i] < base
  }

  function Num(s: seq<nat>, base: nat): nat {
    if s == [] then 0 else Num(s[..|s| - 1], base) * base + s[|s| - 1]
  }

  lemma {:induction false} NumBound(s: seq<nat>, base: nat)
    requires Digits(s, base) && base > 0
    ensures Num(s, base) < Pow(base, |s|)
  {
    if s != [] {
      NumBound(s[..|s| - 1], base);
      MulMono(Num(s[..|s| - 1], base) + 1, Pow(base, |s| - 1), base);
      Distribute(Num(s[..|s| - 1], base), 1, base);
    }
  }

  lemma {:induction false} NumUpdate(s: seq<nat>, base: nat, j: nat, x: nat)
    requires j < |s|
    ensures Num(s[j := x], base) == Num(s, base) + (x - s[j]) * Pow(base, |s| - 1 - j)
  {
    var n := |s| - 1;
    if j == n {
      assert s[j := x][..n] == s[..n];
    } else {
      NumUpdate(s[..n], base, j, x);
      assert s[j := x][..n] == s[..n][j := x];
      UpdateArith(Num(s[..n], base), x - s[j], Pow(base, n - 1 - j), base);
    }
  }

  lemma UpdateArith(v: int, d: int, p: int, base: int)
    ensures (v + d * p) * base == v * base + d * (base * p)
  {
    Distribute(v, d * p, base);
    Associate(d, p, base);
  }

  /** The digit in front of a suffix. */
  lemma {:induction false} NumFront(s: seq<nat>, base: nat)
    requires s != []
    ensures Num(s, base) == s[0] * Pow(base, |s| - 1) + Num(s[1..], base)
    decreases |s|
  {
    var n := |s| - 1;
    if n > 0 {
      NumFront(s[..n], base);
      assert s[..n][1..] == s[1..][..n - 1];
      Distribute(s[0] * Pow(base, n - 1), Num(s[1..][..n - 1], base), base);
      Associate(s[0], Pow(base, n - 1), base);
    }
  }

  lemma {:induction false} NumSkipZeros(s: seq<nat>, base: nat, k: nat)
    requires k <= |s| && forall i :: 0 <= i < k ==> s[i] == 0
    ensures Num(s, base) == Num(s[k..], base)
    decreases k
  {
    if k == 0 {
      assert s[0..] == s;
    } else {
      NumFront(s, base);
      NumSkipZeros(s[1..], base, k - 1);
      assert s[1..][k - 1..] == s[k..];
    }
  }

  /** The digits of a number without leading zeros. */
  function Minimal(n: nat, base: nat): (s: seq<nat>)
    requires base >= 2
    ensures Digits(s, base)
    decreases n
  {
    if n == 0 then [] else (SmallerQuotient(n, base); Minimal(n / base, base) + [n % base])
  }

  lemma SmallerQuotient(n: nat, base: nat)
    requires n > 0 && base >= 2
    ensures 0 <= n / base < n
  {
    MulMono(2, base, n / base);
  }

  predicate NoLeadingZero(s: seq<nat>) {
    s == [] || s[0] != 0
  }

  lemma {:induction false} MinimalHolds(n: nat, base: nat)
    requires base >= 2
    ensures Num(Minimal(n, base), base) == n && NoLeadingZero(Minimal(n, base))
    decreases n
  {
    if n > 0 {
      SmallerQuotient(n, base);
      MinimalHolds(n / base, base);
      DivMod(n, base);
      var t := Minimal(n / base, base);
      assert Minimal(n, base)[..|t|] == t;
    }
  }

  lemma {:induction false} PositiveNum(s: seq<nat>, base: nat)
    requires s != [] && s[0] != 0 && base > 0
    ensures Num(s, base) > 0
  {
    NumFront(s, base);
    PowPositive(base, |s| - 1);
    MulMono(1, s[0], Pow(base, |s| - 1));
  }

  /** A number has only one row of digits without leading zeros. */
  lemma {:induction false} MinimalUnique(s: seq<nat>, base: nat)
    requires base >= 2 && Digits(s, base) && NoLeadingZero(s)
    ensures Minimal(Num(s, base), base) == s
    decreases |s|
  {
    if s != [] {
      var t, d := s[..|s| - 1], s[|s| - 1];
      PositiveNum(s, base);
      DivUnique(Num(s, base), base, Num(t, base), d);
      MinimalUnique(t, base);
      assert t + [d] == s;
    }
  }

  // ---------------------------------------------------------------- size estimates

  lemma PowSwap(a: nat, n: nat, q: nat)
    ensures Pow(Pow(a, n), q) == Pow(Pow(a, q), n)
  {
    PowTimes(a, n, q);
    PowTimes(a, q, n);
    Commute(n, q);
  }

  lemma PowPowMonotone(b: nat, p: nat, n: nat, s: nat, q: nat)
    requires b > 0 && p * n <= s * q
    ensures Pow(Pow(b, p), n) <= Pow(Pow(b, s), q)
  {
    PowTimes(b, p, n);
    PowTimes(b, s, q);
    MulMono(0, p, n);
    PowMonotone(b, p * n, s * q);
  }

  /** If a^q <= b^p then a number of n digits to base a needs no more than s digits to base b, once p * n <= s * q. */
  lemma EnoughDigits(a: nat, b: nat, p: nat, q: nat, n: nat, s: nat)
    requires b > 0 && q > 0
    requires Pow(a, q) <= Pow(b, p) && p * n <= s * q
    ensures Pow(a, n) <= Pow(b, s)
  {
    var x, y := Pow(a, n), Pow(b, s);
    PowSwap(a, n, q);
    PowBaseMonotone(Pow(a, q), Pow(b, p), n);
    PowPowMonotone(b, p, n, s, q);
    assert Pow(x, q) <= Pow(y, q);
    if x > y { PowBaseStrict(y, x, q); }
  }

  lemma Squared(b: nat, e: nat, v: nat)
    requires Pow(b, e) == v
    ensures Pow(b, 2 * e) == v * v
  {
    PowAdd(b, e, e);
  }

  lemma Powers58(b: nat)
    requires b == 58
    ensures Pow(b, 7) == 2207984167552 && Pow(b, 8) == 128063081718016 && Pow(b, 11) == 24986644000165537792
  {
    assert Pow(b, 1) == b;
    Squared(b, 1, 58);
    Squared(b, 2, 3364);
    Squared(b, 4, 11316496);
    PowAdd(b, 1, 2);
    PowAdd(b, 4, 3);
    PowAdd(b, 8, 3);
  }

  lemma Powers256(b: nat)
    requires b == 256
    ensures Pow(b, 8) == 18446744073709551616 && Pow(b, 52) == 169230328010303641331690318856389386196071598838855992136870091590247882556495704531248437872567112920983350278405979725889536
  {
    assert Pow(b, 1) == b;
    Squared(b, 1, 256);
    Squared(b, 2, 65536);
    Squared(b, 4, 4294967296);
    Squared(b, 8, 18446744073709551616);
    Squared(b, 16, 340282366920938463463374607431768211456);
    PowAdd(b, 32, 16);
    PowAdd(b, 48, 4);
  }

  lemma Power58To71(b: nat)
    requires b == 58
    ensures Pow(b, 71) == 159730386663078066345306447337161584696769904898410078913243029577507397293846405390982563136983769384625594118558891106107392
  {
    Powers58(b);
    Squared(b, 8, 128063081718016);
    Squared(b, 16, 16400152899115243850138976256);
    Squared(b, 32, 268965015114358137726910587140455987105619365599731777536);
    PowAdd(b, 64, 7);
  }

  /** 256^8 < 58^11 and 58^71 < 256^52. */
  lemma Constants(a: nat, b: nat)
    requires a == 58 && b == 256
    ensures Pow(b, 8) <= Pow(a, 11)
    ensures Pow(a, 71) <= Pow(b, 52)
  {
    Powers58(a);
    Power58To71(a);
    Powers256(b);
  }
}
