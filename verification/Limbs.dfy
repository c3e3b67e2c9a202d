/** Powers of two, bitwise operations on naturals, and the number that a row of 32-bit limbs stands for, least
    significant limb first. */
module Limbs {

  import opened Arithmetic

  const BASE := 0x1_0000_0000

  /** 2^256. */
  const MODULUS := 0x1_0000_0000_0000_0000_0000_0000_0000_0000_0000_0000_0000_0000_0000_0000_0000_0000

  type Limb = x: nat | x < BASE

  function Pow2(n: nat): (p: nat)
    ensures p > 0
  {
    if n == 0 then 1 else 2 * Pow2(n - 1)
  }

  lemma {:induction false} Pow2Add(a: nat, b: nat)
    ensures Pow2(a + b) == Pow2(a) * Pow2(b)
  {
    if a > 0 { Pow2Add(a - 1, b); }
  }

  lemma {:induction false} Pow2Monotone(a: nat, b: nat)
    requires a <= b
    ensures Pow2(a) <= Pow2(b)
    decreases b
  {
    if a < b { Pow2Monotone(a, b - 1); }
  }

  lemma Pow2Is32()
    ensures Pow2(32) == BASE
  {
    assert Pow2(8) == 256;
    Pow2Add(8, 8);
    Pow2Add(16, 16);
  }

  lemma Pow2Is64()
    ensures Pow2(64) == 0x1_0000_0000_0000_0000
  {
    Pow2Is32();
    Pow2Add(32, 32);
  }

  lemma SmallPowers()
    ensures Pow2(7) == 128 && Pow2(8) == 256 && Pow2(16) == 0x1_0000 && Pow2(23) == 0x80_0000 && Pow2(24) == 0x100_0000
  {
    Pow2Add(8, 8);
    Pow2Add(7, 16);
    Pow2Add(8, 16);
  }

  /** The weight of limb i. */
  function W(i: nat): (w: nat)
    ensures w > 0
  {
    if i == 0 then 1 else W(i - 1) * BASE
  }

  lemma {:induction false} WIsPow2(i: nat)
    ensures W(i) == Pow2(32 * i)
  {
    if i > 0 {
      WIsPow2(i - 1);
      Pow2Add(32 * (i - 1), 32);
      Pow2Is32();
    }
  }

  lemma {:induction false} WAdd(i: nat, j: nat)
    ensures W(i + j) == W(i) * W(j)
    decreases i
  {
    if i > 0 {
      WAdd(i - 1, j);
      assert (W(i - 1) * W(j)) * BASE == (W(i - 1) * BASE) * W(j);
    }
  }

  lemma WIs256()
    ensures W(8) == MODULUS
  {
    assert W(4) == 0x1_0000_0000_0000_0000_0000_0000_0000_0000;
    WAdd(4, 4);
  }

  /** Where a power of two lies by the modulus. */
  lemma Pow2ByModulus(n: nat)
    ensures n <= 256 ==> Pow2(n) <= MODULUS
    ensures n >= 256 ==> Pow2(n) >= MODULUS
  {
    WIs256();
    WIsPow2(8);
    if n <= 256 { Pow2Monotone(n, 256); } else { Pow2Monotone(256, n); }
  }

  // ---------------------------------------------------------------- bitwise operations

  function BitOr(x: nat, y: nat): nat {
    if x == 0 && y == 0 then 0
    else 2 * BitOr(x / 2, y / 2) + if x % 2 == 1 || y % 2 == 1 then 1 else 0
  }

  function BitAnd(x: nat, y: nat): nat {
    if x == 0 && y == 0 then 0
    else 2 * BitAnd(x / 2, y / 2) + if x % 2 == 1 && y % 2 == 1 then 1 else 0
  }

  /** Bits that do not overlap add up. */
  lemma {:induction false} OrIsSum(x: nat, y: nat, k: nat)
    requires x < Pow2(k) && y % Pow2(k) == 0
    ensures BitOr(x, y) == x + y
    decreases k
  {
    if k == 0 {
      OrZero(y);
    } else {
      var q := y / Pow2(k);
      assert y == 2 * (Pow2(k - 1) * q);
      assert y / 2 == Pow2(k - 1) * q;
      MultipleMod(q, Pow2(k - 1));
      OrIsSum(x / 2, y / 2, k - 1);
    }
  }

  /** Setting a bit that is clear adds its weight. */
  lemma {:induction false} OrClearBit(x: nat, b: nat)
    requires (x / Pow2(b)) % 2 == 0
    ensures BitOr(x, Pow2(b)) == x + Pow2(b)
  {
    if b == 0 {
      OrCommutes(x / 2, 0);
      OrZero(x / 2);
    } else {
      DivDiv(x, 2, Pow2(b - 1));
      OrClearBit(x / 2, b - 1);
    }
  }

  lemma DivDiv(x: nat, p: nat, q: nat)
    requires p > 0 && q > 0
    ensures p * q > 0 && x / (p * q) == (x / p) / q
  {
    var y := x / p;
    MulMono(1, q, p);
    assert x == y * p + x % p && y == (y / q) * q + y % q;
    assert (y / q) * (p * q) == ((y / q) * q) * p;
    Distribute((y / q) * q, y % q, p);
    MulMono(y % q + 1, q, p);
    MulMono(0, y % q, p);
    DivUnique(x, p * q, y / q, (y % q) * p + x % p);
  }

  lemma {:induction false} OrCommutes(x: nat, y: nat)
    ensures BitOr(x, y) == BitOr(y, x)
  {
    if x != 0 || y != 0 { OrCommutes(x / 2, y / 2); }
  }

  lemma {:induction false} OrZero(y: nat)
    ensures BitOr(0, y) == y
  {
    if y > 0 { OrZero(y / 2); }
  }

  // ---------------------------------------------------------------- the value of limbs

  function Val(s: seq<Limb>): nat {
    if s == [] then 0 else Val(s[..|s| - 1]) + s[|s| - 1] * W(|s| - 1)
  }

  lemma ValPrefix(s: seq<Limb>, i: nat)
    requires i < |s|
    ensures Val(s[..i + 1]) == Val(s[..i]) + s[i] * W(i)
  {
    assert s[..i + 1][..i] == s[..i];
  }

  lemma TopDigit(v: int, x: Limb, w: nat)
    requires v < w
    ensures v + x * w < w * BASE
  {
    MulMono(x, BASE - 1, w);
  }

  lemma {:induction false} ValBound(s: seq<Limb>)
    ensures Val(s) < W(|s|)
  {
    if s != [] {
      var n := |s| - 1;
      ValBound(s[..n]);
      TopDigit(Val(s[..n]), s[n], W(n));
    }
  }

  lemma {:induction false} ValUpdate(s: seq<Limb>, i: nat, x: Limb)
    requires i < |s|
    ensures Val(s[i := x]) == Val(s) + (x - s[i]) * W(i)
  {
    var n := |s| - 1;
    if i < n {
      ValUpdate(s[..n], i, x);
      assert s[i := x][..n] == s[..n][i := x];
    } else {
      assert s[i := x][..n] == s[..n];
      assert x * W(i) == s[i] * W(i) + (x - s[i]) * W(i);
    }
  }

  lemma ValAdd(s: seq<Limb>, i: nat, d: int)
    requires i < |s| && 0 <= s[i] + d < BASE
    ensures Val(s[i := s[i] + d]) == Val(s) + d * W(i)
  {
    ValUpdate(s, i, s[i] + d);
  }

  lemma {:induction false} ValSplit(s: seq<Limb>, i: nat)
    requires i <= |s|
    ensures Val(s) == Val(s[..i]) + Val(s[i..]) * W(i)
    decreases |s|
  {
    var n := |s| - 1;
    if i == |s| {
      assert s[..i] == s && s[i..] == [];
    } else {
      ValSplit(s[..n], i);
      assert s[..n][..i] == s[..i] && s[..n][i..] == s[i..][..n - i] && s[i..][n - i] == s[n];
      WAdd(n - i, i);
      MoveFactor(Val(s[i..][..n - i]), s[n], W(n - i), W(i));
    }
  }

  lemma MoveFactor(v: int, x: int, u: int, w: int)
    ensures (v + x * u) * w == v * w + x * (u * w)
  {
    assert (x * u) * w == x * (u * w);
  }

  lemma {:induction false} ValZeros(s: seq<Limb>)
    requires forall i :: 0 <= i < |s| ==> s[i] == 0
    ensures Val(s) == 0
  {
    if s != [] { ValZeros(s[..|s| - 1]); }
  }

  /** The larger limb at the highest difference decides. */
  lemma ValCompare(s: seq<Limb>, t: seq<Limb>, i: nat)
    requires |s| == |t| && i < |s| && s[i + 1..] == t[i + 1..] && s[i] < t[i]
    ensures Val(s) < Val(t)
  {
    ValSplit(s, i + 1);
    ValSplit(t, i + 1);
    ValPrefix(s, i);
    ValPrefix(t, i);
    ValBound(s[..i]);
    assert Val(s[..i + 1]) < Val(t[..i + 1]) by { LowerDigit(Val(s[..i]), s[i], Val(t[..i]), t[i], W(i)); }
    var w := W(i + 1);
    assert Val(s[i + 1..]) * w == Val(t[i + 1..]) * w;
  }

  lemma LowerDigit(v: int, x: int, v': nat, y: int, w: nat)
    requires v < w && x < y
    ensures v + x * w < v' + y * w
  {
    MulMono(x + 1, y, w);
  }

  /** Adding d at limb i: the low 32 bits stay, the rest is carried. */
  lemma StoreAndCarry(s: seq<Limb>, i: nat, d: int)
    requires i < |s| && s[i] + d >= 0
    ensures Val(s[i := (s[i] + d) % BASE]) + ((s[i] + d) / BASE) * W(i + 1) == Val(s) + d * W(i)
  {
    var n := s[i] + d;
    ValUpdate(s, i, n % BASE);
    CarryArith(W(i), s[i], n, n % BASE, n / BASE);
  }

  lemma CarryArith(w: nat, x: int, n: int, lo: int, hi: int)
    requires n == lo + hi * BASE
    ensures (lo - x) * w + hi * (w * BASE) == (n - x) * w
  {
    assert (hi * BASE) * w == hi * (w * BASE);
    Distribute(lo - x, hi * BASE, w);
  }

  /** A limb y and a carry added at limb i. */
  lemma AddLimb(s: seq<Limb>, i: nat, carry: nat, y: nat)
    requires i < |s|
    ensures
      var n := s[i] + (carry + y);
      Val(s[i := n % BASE]) + (n / BASE) * W(i + 1) == Val(s) + carry * W(i) + y * W(i)
  {
    StoreAndCarry(s, i, carry + y);
    Distribute(carry, y, W(i));
  }

  /** The same with the limb of a second number, whose low part then grows by one limb. */
  lemma AddLimbOf(s: seq<Limb>, b: seq<Limb>, i: nat, carry: nat)
    requires i < |s| && i < |b|
    ensures
      var n := s[i] + (carry + b[i]);
      Val(s[i := n % BASE]) + (n / BASE) * W(i + 1) + Val(b[..i]) == Val(s) + carry * W(i) + Val(b[..i + 1])
  {
    AddLimb(s, i, carry, b[i]);
    ValPrefix(b, i);
  }

  /** A limb shifted by s bits spreads over two limbs. */
  lemma ShiftSplit(a: Limb, s: nat)
    requires s < 32
    ensures a * Pow2(s) == (a * Pow2(s)) % BASE + (a / Pow2(32 - s)) * BASE
    ensures (a * Pow2(s)) % BASE % Pow2(s) == 0
    ensures a / Pow2(32 - s) < Pow2(s)
    ensures s == 0 ==> a / Pow2(32 - s) == 0
  {
    Pow2Add(s, 32 - s);
    Pow2Is32();
    SpreadArith(a, Pow2(s), Pow2(32 - s));
  }

  lemma SpreadArith(a: Limb, p: nat, q: nat)
    requires p > 0 && q > 0 && p * q == BASE
    ensures a * p == (a * p) % BASE + (a / q) * BASE
    ensures (a * p) % BASE % p == 0
    ensures a / q < p
    ensures p == 1 ==> a / q == 0
  {
    var hi, lo := a / q, a % q;
    assert a == hi * q + lo;
    assert a * p == hi * BASE + lo * p by { assert (hi * q) * p == hi * (p * q); }
    MulMono(lo, q - 1, p);
    DivUnique(a * p, BASE, hi, lo * p);
    MultipleMod(lo, p);
    if hi >= p { MulMono(p, hi, q); }
  }

  lemma Product(x: Limb, y: Limb)
    ensures 0 <= x * y <= 0xFFFF_FFFE_0000_0001
  {
    MulMono(0, x, y);
    MulMono(x, 0xFFFF_FFFF, y);
  }

}
