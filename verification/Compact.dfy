/** The compact floating format of targets and the work of a block (src/arith_uint256.cpp, src/chain.cpp): one byte of
    exponent to base 256, a sign bit, 23 bits of mantissa. */
module Compact {
  import opened Arithmetic
  import opened Limbs
  import opened ArithUint256

  const SIGN := 0x80_0000
  const EXPONENT := 0x100_0000

  // ---------------------------------------------------------------- the format as numbers

  function BitLen(v: nat): nat {
    if v == 0 then 0 else 1 + BitLen(v / 2)
  }

  lemma {:induction false} BitLenBounds(v: nat)
    requires v > 0
    ensures Pow2(BitLen(v) - 1) <= v < Pow2(BitLen(v))
  {
    if v > 1 { BitLenBounds(v / 2); }
  }

  lemma BitLenUnique(v: nat, n: nat)
    requires v > 0 && n > 0 && Pow2(n - 1) <= v < Pow2(n)
    ensures n == BitLen(v)
  {
    BitLenBounds(v);
    if n < BitLen(v) { Pow2Monotone(n, BitLen(v) - 1); }
    if n > BitLen(v) { Pow2Monotone(BitLen(v), n - 1); }
  }

  lemma {:induction false} BitLenMonotone(u: nat, v: nat)
    requires u <= v
    ensures BitLen(u) <= BitLen(v)
  {
    if u > 0 { BitLenMonotone(u / 2, v / 2); }
  }

  function Times(x: nat, y: nat): nat {
    MulMono(0, x, y);
    x * y
  }

  function Over(x: nat, y: nat): nat
    requires y > 0
  {
    x / y
  }

  /** The exponent: the least number of bytes that leaves the sign bit of the leading byte free. */
  function Size(v: nat): nat {
    if v == 0 then 0 else BitLen(v) / 8 + 1
  }

  function Unit(size: nat): (u: nat)
    ensures u > 0
  {
    if size <= 3 then 1 else Pow2(8 * (size - 3))
  }

  function Mantissa(v: nat, size: nat): nat {
    if size <= 3 then Times(v, Pow2(8 * (3 - size))) else Over(v, Pow2(8 * (size - 3)))
  }

  function Encode(v: nat): nat {
    Size(v) * EXPONENT + Mantissa(v, Size(v))
  }

  /** The number a compact word denotes, sign aside and before it is cut to 256 bits. */
  function Decode(c: nat): nat {
    var size, word := c / EXPONENT, c % SIGN;
    if size <= 3 then Over(word, Pow2(8 * (3 - size))) else Times(word, Pow2(8 * (size - 3)))
  }

  predicate SignSet(c: nat) {
    (c / SIGN) % 2 == 1
  }

  // ---------------------------------------------------------------- decoding

  method SetCompact(target: Uint256, c: Limb) returns (negative: bool, overflow: bool)
    requires target.Valid()
    modifies target.pn
    ensures target.Value() == Decode(c) % MODULUS
    ensures overflow <==> Decode(c) >= MODULUS
    ensures negative <==> Decode(c) != 0 && SignSet(c)
  {
    var size, word := c / EXPONENT, c % SIGN;
    if size <= 3 {
      SmallWord(word, Pow2(8 * (3 - size)));
      word := word / Pow2(8 * (3 - size));
      target.Assign(word);
    } else {
      target.Assign(word);
      target.ShiftLeft(8 * (size - 3));
      OverflowExact(word, size);
    }
    negative := word != 0 && (c / SIGN) % 2 == 1;
    overflow := word != 0 && (size > 34 || (word > 0xff && size > 33) || (word > 0xffff && size > 32));
  }

  /** A word shifted down stays small. */
  lemma SmallWord(word: nat, p: nat)
    requires p > 0 && word < SIGN
    ensures word / p < SIGN && word / p < MODULUS && (word / p) % MODULUS == word / p
  {
    MulMono(1, p, word / p);
    SmallPowers();
    Pow2Monotone(23, 256);
    SmallMod(word / p, MODULUS);
  }

  /** The three size tests say exactly when the shifted word needs more than 256 bits. */
  lemma OverflowExact(word: nat, size: nat)
    requires word < SIGN && size > 3
    ensures Times(word, Pow2(8 * (size - 3))) >= MODULUS
       <==> word != 0 && (size > 34 || (word > 0xff && size > 33) || (word > 0xffff && size > 32))
    ensures Times(word, Pow2(8 * (size - 3))) == 0 <==> word == 0
  {
    var e := 8 * (size - 3);
    SmallPowers();
    MulMono(1, Pow2(e), word);
    if size <= 32 {
      OverflowFrom(word, e, 24);
    } else if size == 33 {
      OverflowFrom(word, e, 16);
    } else if size == 34 {
      OverflowFrom(word, e, 8);
    } else {
      Pow2ByModulus(e);
      if word > 0 { MulMono(1, word, Pow2(e)); }
    }
  }

  /** Shifted by e bits, a word needs 256 - e bits to reach 2^256. */
  lemma OverflowFrom(word: nat, e: nat, k: nat)
    requires e + k <= 256
    ensures word < Pow2(k) ==> Times(word, Pow2(e)) < MODULUS
    ensures e + k == 256 && word >= Pow2(k) ==> Times(word, Pow2(e)) >= MODULUS
  {
    Pow2Add(k, e);
    Pow2ByModulus(k + e);
    ScaleUp(word, Pow2(k), Pow2(e));
  }

  // ---------------------------------------------------------------- encoding

  /** The first cut of `GetCompact`: the leading three bytes, with room for neither sign nor error. */
  method LeadingBytes(x: Uint256) returns (size: nat, c: nat)
    requires x.Valid()
    ensures size == (BitLen(x.Value()) + 7) / 8 <= 32
    ensures c == Mantissa(x.Value(), size) && c < EXPONENT
  {
    var bits := x.Bits();
    if bits > 0 { BitLenUnique(x.Value(), bits); }
    size := (bits + 7) / 8;
    SmallPowers();
    if size <= 3 {
      var low := x.GetLow64();
      SmallShift(x.Value(), bits, size);
      c := (low * Pow2(8 * (3 - size))) % BASE;
    } else {
      var bn := new Uint256.Copy(x);
      bn.ShiftRight(8 * (size - 3));
      LargeShift(x.Value(), bits, size);
      var low := bn.GetLow64();
      c := low % BASE;
    }
  }

  method GetCompact(x: Uint256, negative: bool) returns (c: nat)
    requires x.Valid()
    ensures c == Encode(x.Value()) + if negative && Encode(x.Value()) % SIGN != 0 then SIGN else 0
    ensures c < BASE
  {
    var size, m := LeadingBytes(x);
    FirstCut(x.Value(), size, m);
    if SignSet(m) {
      m := m / 256;
      size := size + 1;
    }
    assert m < SIGN && size < 256;
    Assembled(x.Value(), size, m);
    c := BitOr(m, size * EXPONENT);
    if negative && c % SIGN != 0 {
      c := BitOr(c, SIGN);
    }
  }

  /** Exponent and mantissa joined are the encoding, and its sign bit is free. */
  lemma Assembled(v: nat, size: nat, m: nat)
    requires size == Size(v) && m == Mantissa(v, size) && m < SIGN && size < 256
    ensures BitOr(m, size * EXPONENT) == Encode(v) && BitOr(Encode(v), SIGN) == Encode(v) + SIGN
    ensures Encode(v) + SIGN < BASE
  {
    JoinSize(size, m);
    EncodedParts(size, m);
    SignBit(Encode(v));
  }

  lemma JoinSize(size: nat, m: nat)
    requires m < SIGN
    ensures BitOr(m, size * EXPONENT) == size * EXPONENT + m
  {
    SmallPowers();
    MultipleMod(size, EXPONENT);
    OrIsSum(m, size * EXPONENT, 24);
  }

  /** Up to three bytes: nothing is lost by shifting up, within 24 bits. */
  lemma SmallShift(v: nat, bits: nat, size: nat)
    requires bits == BitLen(v) && size == (bits + 7) / 8 <= 3
    ensures ((v % U64) * Pow2(8 * (3 - size))) % BASE == Mantissa(v, size) < EXPONENT
  {
    BelowBytes(v, size);
    UpToThree(size);
    SmallShiftArith(v, Pow2(8 * size), Pow2(8 * (3 - size)));
  }

  lemma UpToThree(size: nat)
    requires size <= 3
    ensures Pow2(8 * size) <= EXPONENT && Pow2(8 * size) * Pow2(8 * (3 - size)) == EXPONENT
  {
    SmallPowers();
    Pow2Monotone(8 * size, 24);
    Pow2Add(8 * size, 8 * (3 - size));
    assert 8 * size + 8 * (3 - size) == 24;
  }

  lemma BelowBytes(v: nat, size: nat)
    requires BitLen(v) <= 8 * size
    ensures v < Pow2(8 * size)
  {
    if v > 0 {
      BitLenBounds(v);
      Pow2Monotone(BitLen(v), 8 * size);
    }
  }

  lemma SmallShiftArith(v: nat, t: nat, p: nat)
    requires v < t <= EXPONENT && p > 0 && t * p == EXPONENT
    ensures ((v % U64) * p) % BASE == Times(v, p) < EXPONENT
  {
    SmallMod(v, U64);
    ScaleUp(v, t, p);
    SmallMod(Times(v, p), BASE);
  }

  lemma LargeShift(v: nat, bits: nat, size: nat)
    requires bits == BitLen(v) && size == (bits + 7) / 8 > 3
    ensures ((v / Pow2(8 * (size - 3))) % U64) % BASE == Mantissa(v, size) < EXPONENT
  {
    SmallPowers();
    BitLenBounds(v);
    Pow2Monotone(bits, 8 * size);
    Pow2Add(8 * (size - 3), 24);
    HighPartArith(v, Pow2(8 * (size - 3)), EXPONENT);
    SmallMod(Over(v, Pow2(8 * (size - 3))), U64);
    SmallMod(Over(v, Pow2(8 * (size - 3))), BASE);
  }

  /** The leading byte is full exactly when its top bit is set. */
  lemma TopBitSet(v: nat, bits: nat, size: nat)
    requires bits == BitLen(v) && size == (bits + 7) / 8 && size > 0
    ensures bits == 8 * size <==> v >= Pow2(8 * size - 1)
  {
    BitLenBounds(v);
    if bits < 8 * size { Pow2Monotone(bits, 8 * size - 1); }
  }

  /** What the first cut holds, and that moving one byte down when its sign bit is set gives the mantissa. */
  lemma FirstCut(v: nat, size: nat, c: nat)
    requires size == (BitLen(v) + 7) / 8 && c == Mantissa(v, size) && c < EXPONENT
    ensures !SignSet(c) ==> size == Size(v) && c < SIGN
    ensures SignSet(c) ==> size + 1 == Size(v) && c / 256 == Mantissa(v, size + 1) && c / 256 < SIGN
  {
    SmallPowers();
    HighestBit(c, SIGN);
    if size > 0 {
      TopBitSet(v, BitLen(v), size);
      CutReachesSign(v, size, c);
      ByteDown(v, size);
    }
  }

  lemma CutReachesSign(v: nat, size: nat, c: nat)
    requires size > 0 && c == Mantissa(v, size)
    ensures c >= SIGN <==> v >= Pow2(8 * size - 1)
  {
    SmallPowers();
    if size <= 3 {
      Pow2Add(8 * size - 1, 8 * (3 - size));
      assert 8 * size - 1 + 8 * (3 - size) == 23;
      ScaleUp(v, Pow2(8 * size - 1), Pow2(8 * (3 - size)));
    } else {
      Pow2Add(23, 8 * (size - 3));
      ScaleDown(v, SIGN, Pow2(8 * (size - 3)));
    }
  }

  lemma ScaleUp(v: int, t: int, p: nat)
    requires p > 0
    ensures v * p >= t * p <==> v >= t
  {
    if v < t { MulMono(v + 1, t, p); } else { MulMono(t, v, p); }
  }

  lemma ScaleDown(v: nat, t: nat, q: nat)
    requires q > 0
    ensures v / q >= t <==> v >= t * q
  {
    if v / q >= t { MulMono(t, v / q, q); } else { MulMono(v / q + 1, t, q); }
  }

  lemma ByteDown(v: nat, size: nat)
    ensures Mantissa(v, size) / 256 == Mantissa(v, size + 1)
  {
    SmallPowers();
    if size < 3 {
      Pow2Add(8, 8 * (2 - size));
      assert 8 + 8 * (2 - size) == 8 * (3 - size);
      ByteDownArith(v, Pow2(8 * (2 - size)));
    } else if size > 3 {
      Pow2Add(8 * (size - 3), 8);
      DivDiv(v, Pow2(8 * (size - 3)), 256);
    }
  }

  lemma ByteDownArith(v: nat, p: nat)
    ensures (v * (256 * p)) / 256 == v * p
  {
    assert v * (256 * p) == (v * p) * 256;
  }

  lemma EncodedParts(size: nat, m: nat)
    requires m < SIGN
    ensures
      var c := size * EXPONENT + m;
      c / EXPONENT == size && c % EXPONENT == m && c % SIGN == m && !SignSet(c)
  {
    var c := size * EXPONENT + m;
    DivUnique(c, EXPONENT, size, m);
    DivUnique(c, SIGN, 2 * size, m);
  }

  /** Encoding fits: the mantissa leaves the sign bit free. */
  lemma MantissaFits(v: nat)
    ensures Mantissa(v, Size(v)) < SIGN
  {
    if v > 0 {
      var z := Size(v);
      BitLenBounds(v);
      Pow2Monotone(BitLen(v), 8 * z - 1);
      CutReachesSign(v, z, Mantissa(v, z));
    }
  }

  // ---------------------------------------------------------------- encoding and decoding

  /** The exponent is the least: the mantissa fills its three bytes but for the sign bit. */
  lemma MantissaFull(v: nat)
    requires v > 0
    ensures 0x8000 <= Mantissa(v, Size(v)) < SIGN
  {
    MantissaFits(v);
    MantissaReaches(v, Size(v));
  }

  lemma MantissaReaches(v: nat, size: nat)
    requires v > 0 && size == Size(v)
    ensures Mantissa(v, size) >= 0x8000
  {
    BitLenBounds(v);
    Pow2Is15();
    if size <= 3 {
      assert BitLen(v) - 1 >= 8 * size - 9;
      ReachesUp(v, BitLen(v) - 1, 8 * (3 - size));
    } else {
      ReachesDown(v, BitLen(v) - 1, 8 * (size - 3));
    }
  }

  lemma Pow2Is15()
    ensures Pow2(15) == 0x8000
  {
    SmallPowers();
    Pow2Add(7, 8);
  }

  lemma ReachesUp(v: nat, n: nat, e: nat)
    requires v >= Pow2(n) && n + e >= 15
    ensures Times(v, Pow2(e)) >= Pow2(15)
  {
    Pow2Add(n, e);
    Pow2Monotone(15, n + e);
    MulMono(Pow2(n), v, Pow2(e));
  }

  lemma ReachesDown(v: nat, n: nat, e: nat)
    requires v >= Pow2(n) && n >= 15 + e
    ensures Over(v, Pow2(e)) >= Pow2(15)
  {
    Pow2Add(15, e);
    Pow2Monotone(15 + e, n);
    ScaleDown(v, Pow2(15), Pow2(e));
  }

  /** Decoding an encoding gives the number with the low bytes cleared: at most x, off by less than one unit. */
  lemma RoundsDown(v: nat)
    ensures Decode(Encode(v)) == (v / Unit(Size(v))) * Unit(Size(v))
    ensures Decode(Encode(v)) <= v < Decode(Encode(v)) + Unit(Size(v))
  {
    var z := Size(v);
    MantissaFits(v);
    EncodedParts(z, Mantissa(v, z));
    if z <= 3 { DownAgain(v, Pow2(8 * (3 - z))); } else { DivMod(v, Unit(z)); }
  }

  lemma DownAgain(v: nat, p: nat)
    requires p > 0
    ensures Over(Times(v, p), p) == v
  {
    DivUnique(v * p, p, v, 0);
  }

  /** The leading bits survive. */
  lemma KeepsLength(v: nat)
    requires v > 0
    ensures Decode(Encode(v)) >= Pow2(BitLen(v) - 1) && BitLen(Decode(Encode(v))) == BitLen(v)
  {
    RoundsDown(v);
    BitLenBounds(v);
    var d := Decode(Encode(v));
    if Size(v) > 3 {
      var e := 8 * (Size(v) - 3);
      Pow2Add(BitLen(v) - 1 - e, e);
      ScaleDown(v, Pow2(BitLen(v) - 1 - e), Pow2(e));
      MulMono(Pow2(BitLen(v) - 1 - e), v / Pow2(e), Pow2(e));
    }
    BitLenUnique(d, BitLen(v));
  }

  /** Encoding again changes nothing. */
  lemma EncodingStable(v: nat)
    ensures Encode(Decode(Encode(v))) == Encode(v)
  {
    RoundsDown(v);
    if v > 0 {
      KeepsLength(v);
      var u := Unit(Size(v));
      DivUnique((v / u) * u, u, v / u, 0);
    }
  }

  lemma FloorMonotone(u: nat, v: nat, w: nat)
    requires u <= v && w > 0
    ensures (u / w) * w <= (v / w) * w
  {
    ScaleDown(v, u / w, w);
    MulMono(u / w, v / w, w);
  }

  /** Rounding through the compact form keeps the order. */
  lemma RoundingMonotone(u: nat, v: nat)
    requires u <= v
    ensures Decode(Encode(u)) <= Decode(Encode(v))
  {
    RoundsDown(u);
    RoundsDown(v);
    BitLenMonotone(u, v);
    if u > 0 {
      if Size(u) == Size(v) {
        FloorMonotone(u, v, Unit(Size(u)));
      } else {
        BitLenBounds(u);
        KeepsLength(v);
        Pow2Monotone(BitLen(u), BitLen(v) - 1);
      }
    }
  }

  // ---------------------------------------------------------------- block proof

  /** No compact word decodes to all ones. */
  lemma NotAllOnes(c: Limb)
    requires Decode(c) < MODULUS
    ensures Decode(c) + 1 < MODULUS
  {
    var size, word := c / EXPONENT, c % SIGN;
    if size <= 3 {
      SmallWord(word, Pow2(8 * (3 - size)));
    } else {
      EvenTimes(word, Pow2(8 * (size - 3) - 1));
    }
  }

  lemma EvenTimes(word: nat, p: nat)
    ensures Times(word, 2 * p) == 2 * Times(word, p)
  {
  }

  /** `GetBlockProof`: floor(2^256 / (target + 1)), computed without ever holding 2^256; zero for a target that is
      negative, overflows or is zero. */
  method GetBlockProof(nBits: Limb) returns (proof: Uint256)
    ensures proof.Valid() && fresh(proof) && fresh(proof.pn)
    ensures proof.Value() ==
      if Decode(nBits) == 0 || SignSet(nBits) || Decode(nBits) >= MODULUS then 0
      else MODULUS / (Decode(nBits) + 1)
  {
    var target := new Uint256(0);
    var negative, overflow := SetCompact(target, nBits);
    var zero := target.EqualTo(0);
    if !overflow { SmallMod(Decode(nBits), MODULUS); }
    if negative || overflow || zero {
      proof := new Uint256(0);
      return;
    }
    NotAllOnes(nBits);
    proof := WorkOf(target);
  }

  /** `(~bnTarget / (bnTarget + 1)) + 1`. */
  method WorkOf(target: Uint256) returns (proof: Uint256)
    requires target.Valid() && 0 < target.Value() && target.Value() + 1 < MODULUS
    ensures proof.Valid() && fresh(proof) && fresh(proof.pn)
    ensures proof.Value() == MODULUS / (target.Value() + 1)
  {
    proof := target.Complement();
    var divisor := PlusOne(target);
    var ok := proof.DivAssign(divisor);
    ProofArith(target.Value(), MODULUS);
    proof := PlusOne(proof);
  }

  /** `x + 1`: a copy, then `+=`. */
  method PlusOne(x: Uint256) returns (r: Uint256)
    requires x.Valid() && x.Value() + 1 < MODULUS
    ensures r.Valid() && fresh(r) && fresh(r.pn) && r.Value() == x.Value() + 1
  {
    var one := new Uint256(1);
    r := new Uint256.Copy(x);
    r.AddAssign(one);
    SmallMod(x.Value() + 1, MODULUS);
  }

  lemma ProofArith(t: nat, m: nat)
    requires 1 <= t && t + 1 < m
    ensures (m - 1 - t) / (t + 1) + 1 == m / (t + 1)
    ensures m / (t + 1) < m
  {
    var q := m / (t + 1);
    assert m == q * (t + 1) + m % (t + 1);
    Distribute(q, -1, t + 1);
    DivUnique(m - 1 - t, t + 1, q - 1, m % (t + 1));
    MulMono(2, t + 1, q);
  }

  /** The sign bit of an encoding is free. */
  lemma SignBit(c: nat)
    requires !SignSet(c)
    ensures BitOr(c, SIGN) == c + SIGN
  {
    SmallPowers();
    OrClearBit(c, 23);
  }
}
