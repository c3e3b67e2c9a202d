/** 256-bit unsigned integers as eight 32-bit limbs updated in place (src/arith_uint256.h, src/arith_uint256.cpp).
    Every operation is proved against the number the limbs stand for. 64-bit intermediates are asserted to fit. */
module ArithUint256 {
  import opened Arithmetic
  import opened Limbs

  const WIDTH := 8
  const U64 := 0x1_0000_0000_0000_0000

  class Uint256 {
    const pn: array<Limb>

    ghost predicate Valid() {
      pn.Length == WIDTH
    }

    ghost function Value(): nat
      reads pn
    {
      Val(pn[..])
    }

    /** From a 64-bit number. */
    constructor (b: nat)
      requires b < U64
      ensures Valid() && fresh(pn) && Value() == b
    {
      pn := new Limb[WIDTH];
      new;
      pn[0] := b % BASE;
      pn[1] := b / BASE;
      for i := 2 to WIDTH
        invariant Valid() && fresh(pn) && pn[0] == b % BASE && pn[1] == b / BASE
        invariant forall j :: 2 <= j < i ==> pn[j] == 0
      {
        pn[i] := 0;
      }
      LowLimbs(pn[..]);
    }

    constructor Copy(b: Uint256)
      requires b.Valid()
      ensures Valid() && fresh(pn) && pn[..] == b.pn[..]
    {
      pn := new Limb[WIDTH];
      new;
      for i := 0 to WIDTH
        invariant forall j :: 0 <= j < i ==> pn[j] == b.pn[j]
      {
        pn[i] := b.pn[i];
      }
    }

    /** `*this = 0`. */
    method Clear()
      requires Valid()
      modifies pn
      ensures Value() == 0 && forall i :: 0 <= i < WIDTH ==> pn[i] == 0
    {
      for i := 0 to WIDTH
        invariant forall j :: 0 <= j < i ==> pn[j] == 0
      {
        pn[i] := 0;
      }
      ValZeros(pn[..]);
    }

    /** Assignment from a 64-bit number. */
    method Assign(b: nat)
      requires Valid() && b < U64
      modifies pn
      ensures Value() == b
    {
      Clear();
      pn[0] := b % BASE;
      pn[1] := b / BASE;
      LowLimbs(pn[..]);
    }

    method EqualTo(b: nat) returns (r: bool)
      requires Valid() && b < U64
      ensures r <==> Value() == b
    {
      var i := WIDTH - 1;
      while i >= 2
        invariant 1 <= i < WIDTH
        invariant forall j :: i < j < WIDTH ==> pn[j] == 0
      {
        if pn[i] != 0 {
          NotLow(pn[..], i);
          return false;
        }
        i := i - 1;
      }
      LowLimbs(pn[..]);
      if pn[1] != b / BASE {
        return false;
      }
      if pn[0] != b % BASE {
        return false;
      }
      return true;
    }

    method GetLow64() returns (r: nat)
      requires Valid()
      ensures r == Value() % U64
    {
      r := pn[0] + pn[1] * BASE;
      ValSplit(pn[..], 2);
      assert pn[..][..2] == [pn[0], pn[1]];
      LowTwo(pn[0], pn[1]);
      DivUnique(Value(), U64, Val(pn[..][2..]), r);
    }

    // -------------------------------------------------------------- addition and subtraction

    method AddAssign(b: Uint256)
      requires Valid() && b.Valid()
      modifies pn
      ensures Value() == (old(Value()) + old(b.Value())) % MODULUS
    {
      ghost var a0, b0 := pn[..], b.pn[..];
      var carry := 0;
      for i := 0 to WIDTH
        invariant 0 <= carry <= 1
        invariant forall j :: i <= j < WIDTH ==> pn[j] == a0[j] && b.pn[j] == b0[j]
        invariant Val(pn[..]) + carry * W(i) == Val(a0) + Val(b0[..i])
      {
        ghost var before := pn[..];
        var n := carry + pn[i] + b.pn[i];
        assert n < U64;
        AddLimbOf(before, b0, i, carry);
        pn[i] := n % BASE;
        assert pn[..] == before[i := pn[i]];
        carry := n / BASE;
      }
      assert b0[..8] == b0;
      Reduces(pn[..], Val(a0) + Val(b0), carry);
    }

    /** `~`. */
    method Complement() returns (r: Uint256)
      requires Valid()
      ensures r.Valid() && fresh(r) && fresh(r.pn) && r.Value() == MODULUS - 1 - Value()
    {
      r := new Uint256(0);
      for i := 0 to WIDTH
        invariant forall j :: 0 <= j < i ==> r.pn[j] == BASE - 1 - pn[j]
      {
        r.pn[i] := BASE - 1 - pn[i];
      }
      ComplementValue(pn[..], r.pn[..]);
      WIs256();
    }

    /** `++pn[i]`, which wraps to zero. */
    method IncrementLimb(i: nat)
      requires Valid() && i < WIDTH
      modifies pn
      ensures Value() + (if pn[i] == 0 then W(i + 1) else 0) == old(Value()) + W(i)
    {
      ghost var before := pn[..];
      StepUp(before, i);
      pn[i] := (pn[i] + 1) % BASE;
      assert pn[..] == before[i := pn[i]];
    }

    /** `--pn[i]`, which wraps to the greatest limb. */
    method DecrementLimb(i: nat)
      requires Valid() && i < WIDTH
      modifies pn
      ensures Value() + W(i) == old(Value()) + if pn[i] == BASE - 1 then W(i + 1) else 0
    {
      ghost var before := pn[..];
      StepDown(before, i);
      pn[i] := if pn[i] == 0 then BASE - 1 else pn[i] - 1;
      assert pn[..] == before[i := pn[i]];
    }

    /** `++`. */
    method Increment()
      requires Valid()
      modifies pn
      ensures Value() == (old(Value()) + 1) % MODULUS
    {
      ghost var v0 := Value();
      var i := 0;
      IncrementLimb(0);
      while pn[i] == 0 && i < WIDTH - 1
        invariant 0 <= i < WIDTH
        invariant Value() + (if pn[i] == 0 then W(i + 1) else 0) == v0 + 1
        decreases WIDTH - i
      {
        i := i + 1;
        IncrementLimb(i);
      }
      Reduces(pn[..], v0 + 1, if pn[i] == 0 then 1 else 0);
    }

    /** `--`. */
    method Decrement()
      requires Valid()
      modifies pn
      ensures Value() == (old(Value()) - 1) % MODULUS
    {
      ghost var v0 := Value();
      var i := 0;
      DecrementLimb(0);
      while pn[i] == BASE - 1 && i < WIDTH - 1
        invariant 0 <= i < WIDTH
        invariant Value() + 1 == v0 + if pn[i] == BASE - 1 then W(i + 1) else 0
        decreases WIDTH - i
      {
        i := i + 1;
        DecrementLimb(i);
      }
      Reduces(pn[..], v0 - 1, if pn[i] == BASE - 1 then -1 else 0);
    }

    /** Unary minus: the complement plus one. */
    method Negate() returns (r: Uint256)
      requires Valid()
      ensures r.Valid() && fresh(r) && fresh(r.pn) && r.Value() == (MODULUS - Value()) % MODULUS
    {
      r := Complement();
      r.Increment();
    }

    method SubAssign(b: Uint256)
      requires Valid() && b.Valid()
      modifies pn
      ensures Value() == (old(Value()) - old(b.Value())) % MODULUS
    {
      ghost var v, w := Value(), b.Value();
      var m := b.Negate();
      AddAssign(m);
      SubArith(v, w, MODULUS);
    }

    // -------------------------------------------------------------- multiplication

    /** `*=` by a 32-bit number. */
    method MulAssign32(b32: Limb)
      requires Valid()
      modifies pn
      ensures Value() == (old(Value()) * b32) % MODULUS
    {
      ghost var a0 := pn[..];
      var carry := 0;
      for i := 0 to WIDTH
        invariant 0 <= carry < BASE && Scaled(pn[..], a0, i, carry, b32)
      {
        ghost var before := pn[..];
        Product(b32, pn[i]);
        var n := carry + b32 * pn[i];
        assert n < U64;
        ScaledStep(before, a0, i, carry, b32);
        pn[i] := n % BASE;
        assert pn[..] == before[i := pn[i]];
        carry := n / BASE;
      }
      ScaledAll(pn[..], a0, carry, b32);
    }

    /** Schoolbook `*=`. The receiver is zeroed before the argument is read, so a number times itself comes out zero. */
    method MulAssign(b: Uint256)
      requires Valid() && b.Valid()
      modifies pn
      ensures Value() == if b.pn == pn then 0 else (old(Value()) * old(b.Value())) % MODULUS
    {
      var a := new Uint256.Copy(this);
      ghost var a0, b0 := a.pn[..], b.pn[..];
      Clear();
      ghost var q := 0;
      for j := 0 to WIDTH
        invariant a.pn[..] == a0
        invariant if b.pn == pn then Zero(pn[..]) else b.pn[..] == b0 && Val(pn[..]) + q * W(8) == Val(a0[..j]) * Val(b0)
      {
        ghost var start := Val(pn[..]);
        ghost var carry := AddRow(a.pn[j], b, j);
        if b.pn != pn {
          q := RowDone(a0, b0, j, start, Val(pn[..]), q, carry);
        }
      }
      if b.pn == pn {
        ValZeros(pn[..]);
      } else {
        assert a0[..8] == a0;
        Reduces(pn[..], Val(a0) * Val(b0), q);
      }
    }

    /** The inner loop of `*=`: one row, a single limb times the argument, added at limb j. */
    method AddRow(x: Limb, b: Uint256, j: nat) returns (ghost carryOut: nat)
      requires Valid() && b.Valid() && j < WIDTH && (b.pn == pn ==> Zero(pn[..]))
      modifies pn
      ensures
        if b.pn == pn then Zero(pn[..])
        else Val(pn[..]) + carryOut * W(8) == old(Val(pn[..])) + (x * Val(b.pn[..8 - j])) * W(j)
    {
      ghost var v0 := Val(pn[..]);
      var carry := 0;
      var i := 0;
      while i + j < WIDTH
        invariant 0 <= i && i + j <= WIDTH
        invariant 0 <= carry < BASE
        invariant if b.pn == pn then Zero(pn[..]) && carry == 0
                  else Val(pn[..]) + carry * W(i + j) == v0 + (x * Val(b.pn[..i])) * W(j)
      {
        ghost var before := pn[..];
        Product(x, b.pn[i]);
        var n := carry + pn[i + j] + x * b.pn[i];
        assert n < U64;
        if b.pn != pn {
          AddLimb(before, i + j, carry, x * b.pn[i]);
          RowLimb(b.pn[..], x, i, j);
          assert b.pn[..][..i] == b.pn[..i] && b.pn[..][..i + 1] == b.pn[..i + 1];
        } else {
          assert before[i] == 0 && before[i + j] == 0;
          assert n == 0;
        }
        pn[i + j] := n % BASE;
        assert pn[..] == before[i + j := pn[i + j]];
        carry := n / BASE;
        i := i + 1;
      }
      carryOut := carry;
    }

    // -------------------------------------------------------------- shifts

    /** `pn[j] |= y` where the bits do not overlap: the limb holds the low s bits only, y none of them. */
    method OrLimb(j: nat, y: Limb, ghost s: nat)
      requires Valid() && j < WIDTH && s <= 32 && pn[j] < Pow2(s) && LowClear(y, s)
      modifies pn
      ensures pn[j] == old(pn[j]) + y
      ensures forall i :: 0 <= i < WIDTH && i != j ==> pn[i] == old(pn[i])
    {
      OrIsSum(pn[j], y, s);
      OrFits(pn[j], y, s);
      pn[j] := BitOr(pn[j], y);
    }

    /** One limb of `<<=`: its low part at limb `at`, its high part one limb up, whatever still fits. */
    method PlaceLeft(x: Limb, at: nat, s: nat) returns (ghost dropped: int)
      requires Valid() && s < 32
      requires at < WIDTH ==> pn[at] < Pow2(s)
      requires forall j :: at < j < WIDTH ==> pn[j] == 0
      modifies pn
      ensures Value() + dropped * W(WIDTH) == old(Value()) + (x * Pow2(s)) * W(at)
      ensures at + 1 < WIDTH ==> pn[at + 1] < Pow2(s)
      ensures forall j :: at + 1 < j < WIDTH ==> pn[j] == 0
    {
      ghost var before := pn[..];
      ShiftSplit(x, s);
      var lo, hi := (x * Pow2(s)) % BASE, x / Pow2(32 - s);
      if at + 1 < WIDTH && s != 0 {
        OrLimb(at + 1, hi, 0);
      }
      if at < WIDTH {
        OrLimb(at, lo, s);
      }
      assert pn[..] == PlacedLeft(before, lo, hi, at);
      dropped := PlacedLeftValue(before, lo, hi, at);
    }

    method ShiftLeft(shift: nat)
      requires Valid()
      modifies pn
      ensures Value() == (old(Value()) * Pow2(shift)) % MODULUS
    {
      var a := new Uint256.Copy(this);
      ghost var a0 := a.pn[..];
      Clear();
      var k, s := shift / 32, shift % 32;
      ghost var q := 0;
      for i := 0 to WIDTH
        invariant a.pn[..] == a0
        invariant i + k < WIDTH ==> pn[i + k] < Pow2(s)
        invariant forall j :: i + k < j < WIDTH ==> pn[j] == 0
        invariant Value() + q * W(WIDTH) == Val(a0[..i]) * (W(k) * Pow2(s))
      {
        ghost var before := Value();
        ghost var dropped := PlaceLeft(a.pn[i], i + k, s);
        ShiftedPrefix(a0, i, k, Pow2(s));
        Dropped(Value(), before, q, dropped, W(WIDTH));
        q := q + dropped;
      }
      assert a0[..8] == a0;
      WIsPow2(k);
      Pow2Add(32 * k, s);
      Reduces(pn[..], Val(a0) * Pow2(shift), q);
    }

    /** A limb of `>>=` that falls inside: its low part at limb `at`, its high part one limb up. */
    method PlaceAcross(x: Limb, at: nat, s: nat)
      requires Valid() && s < 32 && at + 1 < WIDTH && pn[at] < Pow2(32 - s) && pn[at + 1] == 0
      modifies pn
      ensures Value() == old(Value()) + (x * Pow2(32 - s)) * W(at)
      ensures pn[at + 1] == x / Pow2(s)
      ensures forall j :: 0 <= j < WIDTH && j != at && j != at + 1 ==> pn[j] == old(pn[j])
    {
      RightSplit(x, s);
      PlaceTwo((x * Pow2(32 - s)) % BASE, x / Pow2(s), at, s);
    }

    method PlaceTwo(lo: Limb, hi: Limb, at: nat, s: nat)
      requires Valid() && s < 32 && at + 1 < WIDTH && pn[at] < Pow2(32 - s) && pn[at + 1] == 0
      requires LowClear(lo, 32 - s) && (s == 0 ==> lo == 0)
      modifies pn
      ensures Value() == old(Value()) + (lo + hi * BASE) * W(at)
      ensures pn[at + 1] == hi
      ensures forall j :: 0 <= j < WIDTH && j != at && j != at + 1 ==> pn[j] == old(pn[j])
    {
      ghost var before := pn[..];
      if s != 0 {
        OrLimb(at, lo, 32 - s);
      }
      OrLimb(at + 1, hi, 0);
      assert pn[..] == PlacedRight(before, lo, hi, at);
      PlacedRightValue(before, lo, hi, at);
    }

    /** One limb of `>>=`, k limbs and s bits down. */
    method PlaceRight(x: Limb, i: nat, k: nat, s: nat)
      requires Valid() && s < 32 && i < WIDTH
      requires i > k ==> pn[i - k - 1] < Pow2(32 - s)
      requires forall j :: 0 <= j < WIDTH && i - k <= j ==> pn[j] == 0
      modifies pn
      ensures i < k ==> Value() == old(Value())
      ensures i == k ==> Value() == old(Value()) + x / Pow2(s)
      ensures i > k ==> Value() == old(Value()) + (x * Pow2(32 - s)) * W(i - k - 1)
      ensures i >= k ==> pn[i - k] < Pow2(32 - s)
      ensures forall j :: 0 <= j < WIDTH && i + 1 - k <= j ==> pn[j] == 0
    {
      HighPart(x, s);
      if i > k {
        PlaceAcross(x, i - k - 1, s);
      } else if i == k {
        ghost var before := pn[..];
        OrLimb(0, x / Pow2(s), 0);
        assert pn[..] == before[0 := before[0] + x / Pow2(s)];
        ValAdd(before, 0, x / Pow2(s));
      }
    }

    method ShiftRight(shift: nat)
      requires Valid()
      modifies pn
      ensures Value() == old(Value()) / Pow2(shift)
    {
      var a := new Uint256.Copy(this);
      ghost var a0 := a.pn[..];
      Clear();
      var k, s := shift / 32, shift % 32;
      ghost var r: nat := 0;
      ghost var p := W(k) * Pow2(s);
      for i := 0 to WIDTH
        invariant a.pn[..] == a0
        invariant i > k ==> pn[i - k - 1] < Pow2(32 - s)
        invariant forall j :: 0 <= j < WIDTH && i - k <= j ==> pn[j] == 0
        invariant Value() * p + r == Val(a0[..i])
        invariant if i <= k then Value() == 0 else r < p
      {
        ghost var before := Value();
        PlaceRight(a.pn[i], i, k, s);
        r := Remainder(a0, i, k, s, before, Value(), r);
      }
      assert a0[..8] == a0;
      WIsPow2(k);
      Pow2Add(32 * k, s);
      ShiftedOut(a0, k, s, r);
      DivUnique(Val(a0), Pow2(shift), Value(), r);
    }

    // -------------------------------------------------------------- division

    /** `pn[pos / 32] |= 1 << (pos & 31)` where the limb is still zero up to that bit. */
    method SetBit(pos: nat)
      requires Valid() && pos < 256 && LowClear(pn[pos / 32], pos % 32 + 1)
      modifies pn
      ensures Value() == old(Value()) + Pow2(pos)
      ensures forall j :: 0 <= j < WIDTH && j != pos / 32 ==> pn[j] == old(pn[j])
      ensures LowClear(pn[pos / 32], pos % 32)
    {
      ghost var before := pn[..];
      var k, b := pos / 32, pos % 32;
      OrCommutes(pn[k], Pow2(b));
      OrIsSum(Pow2(b), pn[k], b + 1);
      RoomForBit(pn[k], b);
      pn[k] := BitOr(pn[k], Pow2(b));
      assert pn[..] == before[k := before[k] + Pow2(b)];
      ValAdd(before, k, Pow2(b));
      BitWeight(k, b);
    }

    /** One round of `/=`: subtract the aligned divisor if it fits and set the quotient bit. */
    method DivideBit(num: Uint256, div: Uint256, shift: nat, ghost d: nat)
      requires Valid() && num.Valid() && div.Valid() && shift < 256
      requires num.pn != div.pn && pn != num.pn && pn != div.pn
      requires num.Value() < d * Pow2(shift + 1) && div.Value() == d * Pow2(shift)
      requires LowClear(pn[shift / 32], shift % 32 + 1)
      modifies pn, num.pn
      ensures Value() * d + num.Value() == old(Value() * d + num.Value())
      ensures num.Value() < d * Pow2(shift)
      ensures forall j :: 0 <= j < WIDTH && j != shift / 32 ==> pn[j] == old(pn[j])
      ensures LowClear(pn[shift / 32], shift % 32)
    {
      var c := num.CompareTo(div);
      DoublePow(d, shift);
      if c >= 0 {
        SubtractOnce(num.pn[..], div.pn[..]);
        DivideArith(Value(), Pow2(shift), d, num.Value());
        num.SubAssign(div);
        SetBit(shift);
      } else {
        RoomForBit(pn[shift / 32], shift % 32);
      }
    }

    /** `/=`: false, with the receiver zeroed, for a zero divisor; else the exact quotient. */
    method DivAssign(b: Uint256) returns (ok: bool)
      requires Valid() && b.Valid()
      modifies pn
      ensures ok <==> old(b.Value()) != 0
      ensures !ok ==> Value() == 0
      ensures ok ==> Value() == old(Value()) / old(b.Value())
    {
      ghost var n, d := Value(), b.Value();
      var div := new Uint256.Copy(b);
      var num := new Uint256.Copy(this);
      Clear();
      var numBits := num.Bits();
      var divBits := div.Bits();
      if divBits == 0 {
        return false;
      }
      if divBits > numBits {
        BitsBelow(n, numBits, d, divBits);
        DivUnique(n, d, 0, n);
        return true;
      }
      var shift: int := numBits - divBits;
      ShiftFits(d, divBits, n, numBits, shift);
      div.ShiftLeft(shift);
      DivideFrom(num, div, shift, d, n);
      DivUnique(n, d, Value(), num.Value());
      return true;
    }

    /** The loop of `/=`, from the highest quotient bit down to bit zero. */
    method DivideFrom(num: Uint256, div: Uint256, top: nat, ghost d: nat, ghost n: nat)
      requires Valid() && num.Valid() && div.Valid() && top < 256
      requires num.pn != div.pn && pn != num.pn && pn != div.pn
      requires forall j :: 0 <= j < WIDTH ==> pn[j] == 0
      requires num.Value() == n < d * Pow2(top + 1) && div.Value() == d * Pow2(top)
      modifies pn, num.pn, div.pn
      ensures Value() * d + num.Value() == n && num.Value() < d
    {
      var shift: int := top;
      ValZeros(pn[..]);
      ZeroClear(shift % 32 + 1);
      while shift >= 0
        invariant -1 <= shift < 256
        invariant Value() * d + num.Value() == n
        invariant num.Value() < d * Pow2(shift + 1)
        invariant shift >= 0 ==> div.Value() == d * Pow2(shift) && LowClear(pn[shift / 32], shift % 32 + 1)
        invariant forall j :: 0 <= j < WIDTH && 32 * j + 31 < shift ==> pn[j] == 0
      {
        DivideBit(num, div, shift, d);
        DoublePow(d, shift);
        NextBitClear(pn[..], shift);
        div.ShiftRight(1);
        shift := shift - 1;
      }
    }

    // -------------------------------------------------------------- comparison and length

    method CompareTo(b: Uint256) returns (r: int)
      requires Valid() && b.Valid()
      ensures r == if Value() < b.Value() then -1 else if Value() > b.Value() then 1 else 0
    {
      var i := WIDTH - 1;
      while i >= 0
        invariant -1 <= i < WIDTH
        invariant pn[..][i + 1..] == b.pn[..][i + 1..]
      {
        if pn[i] < b.pn[i] {
          ValCompare(pn[..], b.pn[..], i);
          return -1;
        }
        if pn[i] > b.pn[i] {
          ValCompare(b.pn[..], pn[..], i);
          return 1;
        }
        assert pn[..][i..] == [pn[i]] + pn[..][i + 1..] && b.pn[..][i..] == [b.pn[i]] + b.pn[..][i + 1..];
        i := i - 1;
      }
      assert pn[..] == b.pn[..];
      return 0;
    }

    /** The position of the highest set bit plus one, or zero. */
    method Bits() returns (r: nat)
      requires Valid()
      ensures r <= 256
      ensures r == 0 <==> Value() == 0
      ensures r > 0 ==> Pow2(r - 1) <= Value() < Pow2(r)
    {
      var pos := WIDTH - 1;
      while pos >= 0
        invariant -1 <= pos < WIDTH
        invariant forall i :: pos < i < WIDTH ==> pn[i] == 0
      {
        if pn[pos] != 0 {
          var bit := TopBit(pn[pos]);
          r := 32 * pos + bit + 1;
          LengthFromTop(pn[..], pos, bit);
          return;
        }
        pos := pos - 1;
      }
      ValZeros(pn[..]);
      return 0;
    }
  }

  ghost predicate Zero(s: seq<Limb>) {
    forall i :: 0 <= i < |s| ==> s[i] == 0
  }

  /** The low b bits are zero. */
  predicate LowClear(y: nat, b: nat) {
    y % Pow2(b) == 0
  }

  lemma ZeroClear(b: nat)
    ensures LowClear(0, b)
  {
    DivUnique(0, Pow2(b), 0, 0);
  }

  predicate BitSet(x: nat, bit: nat) {
    (x / Pow2(bit)) % 2 == 1
  }

  /** The inner loop of `bits`. */
  method TopBit(x: Limb) returns (bit: nat)
    requires x != 0
    ensures bit < 32 && Pow2(bit) <= x < Pow2(bit + 1)
  {
    bit := 31;
    assert x < Pow2(32) by { Pow2Is32(); }
    while bit > 0
      invariant 0 <= bit < 32 && x < Pow2(bit + 1)
    {
      HighestBit(x, Pow2(bit));
      if BitSet(x, bit) {
        return;
      }
      bit := bit - 1;
    }
  }

  // ---------------------------------------------------------------- arithmetic behind the loops

  lemma HighestBit(x: nat, p: nat)
    requires p > 0 && x < 2 * p
    ensures (x / p) % 2 == 1 <==> p <= x
  {
    if x >= p { DivUnique(x, p, 1, x - p); } else { DivUnique(x, p, 0, x); }
  }

  lemma LowTwo(x: Limb, y: Limb)
    ensures Val([x, y]) == x + y * BASE
  {
    Pow2Is32();
    assert [x, y][..1] == [x] && [x][..0] == [];
    assert Val([x]) == x * Pow2(0);
    assert Val([x, y]) == Val([x]) + y * Pow2(32);
  }

  lemma NotLow(s: seq<Limb>, i: nat)
    requires |s| == WIDTH && 2 <= i < WIDTH && s[i] != 0
    ensures Val(s) >= U64
  {
    ValUpdate(s, i, 0);
    WAdd(i - 2, 2);
    assert W(2) == U64;
    MulMono(1, W(i - 2), U64);
    MulMono(1, s[i], W(i));
  }

  lemma LowLimbs(s: seq<Limb>)
    requires |s| == WIDTH && forall i :: 2 <= i < WIDTH ==> s[i] == 0
    ensures Val(s) == s[0] + s[1] * BASE
  {
    ValSplit(s, 2);
    assert s[..2] == [s[0], s[1]];
    LowTwo(s[0], s[1]);
    ValZeros(s[2..]);
  }

  lemma {:induction false} ComplementValue(s: seq<Limb>, t: seq<Limb>)
    requires |s| == |t| && forall i :: 0 <= i < |s| ==> t[i] == BASE - 1 - s[i]
    ensures Val(s) + Val(t) == W(|s|) - 1
  {
    if s != [] {
      var n := |s| - 1;
      ComplementValue(s[..n], t[..n]);
      Distribute(s[n], t[n], W(n));
    }
  }

  /** Eight limbs hold a number modulo 2^256. */
  lemma Reduces(s: seq<Limb>, x: int, q: int)
    requires |s| == WIDTH && Val(s) + q * W(WIDTH) == x
    ensures Val(s) == x % MODULUS
  {
    ValBound(s);
    WIs256();
    DivUnique(x, MODULUS, q, Val(s));
  }

  lemma StepUp(s: seq<Limb>, i: nat)
    requires i < |s|
    ensures
      var y := (s[i] + 1) % BASE;
      Val(s[i := y]) + (if y == 0 then W(i + 1) else 0) == Val(s) + W(i)
  {
    StoreAndCarry(s, i, 1);
  }

  lemma StepDown(s: seq<Limb>, i: nat)
    requires i < |s|
    ensures
      var y := if s[i] == 0 then BASE - 1 else s[i] - 1;
      Val(s[i := y]) + W(i) == Val(s) + if y == BASE - 1 then W(i + 1) else 0
  {
    ValUpdate(s, i, if s[i] == 0 then BASE - 1 else s[i] - 1);
  }

  lemma SubArith(v: int, w: int, m: nat)
    requires m > 0
    ensures (v + (m - w) % m) % m == (v - w) % m
  {
    var q, r := (v - w) / m, (v - w) % m;
    var p := (m - w) / m;
    assert v - w == q * m + r;
    assert m - w == p * m + (m - w) % m;
    var k := q + 1 - p;
    assert k * m == q * m + m - p * m;
    DivUnique(v + (m - w) % m, m, k, r);
  }

  /** Limb i of a product with a 32-bit number. */
  lemma MulLimb(s: seq<Limb>, a0: seq<Limb>, i: nat, carry: nat, b: nat)
    requires i < |s| == |a0| && s[i] == a0[i]
    ensures
      var n := carry + b * s[i];
      Val(s[i := n % BASE]) + (n / BASE) * W(i + 1) + Val(a0[..i + 1])
        == Val(s) + carry * W(i) + Val(a0[..i]) + (b * Val(a0[..i + 1]) - b * Val(a0[..i]))
  {
    var x, w := s[i], W(i);
    StoreAndCarry(s, i, carry + b * x - x);
    ValPrefix(a0, i);
    MulArith(carry, b, x, w, Val(a0[..i]));
  }

  /** With i limbs multiplied by b: the rest untouched, and what the limbs and the carry stand for. */
  ghost predicate Scaled(s: seq<Limb>, a0: seq<Limb>, i: nat, carry: nat, b: nat) {
    && i <= |s| == |a0| && (forall j :: i <= j < |s| ==> s[j] == a0[j])
    && Val(s) + carry * W(i) + Val(a0[..i]) == Val(a0) + b * Val(a0[..i])
  }

  lemma ScaledStep(s: seq<Limb>, a0: seq<Limb>, i: nat, carry: nat, b: Limb)
    requires i < |s| && Scaled(s, a0, i, carry, b)
    ensures
      var n := carry + b * s[i];
      n >= 0 && n / BASE >= 0 && Scaled(s[i := n % BASE], a0, i + 1, n / BASE, b)
  {
    Product(b, s[i]);
    MulLimb(s, a0, i, carry, b);
  }

  lemma ScaledAll(s: seq<Limb>, a0: seq<Limb>, carry: nat, b: nat)
    requires |s| == WIDTH && Scaled(s, a0, WIDTH, carry, b)
    ensures Val(s) == (Val(a0) * b) % MODULUS
  {
    assert a0[..WIDTH] == a0;
    Commute(b, Val(a0));
    Reduces(s, Val(a0) * b, carry);
  }

  lemma MulArith(carry: int, b: int, x: int, w: int, v: int)
    ensures (carry + b * x - x) * w + x * w == carry * w + (b * (v + x * w) - b * v)
  {
    assert (carry + b * x - x) * w == carry * w + (b * x) * w - x * w;
    assert (b * x) * w == b * (x * w);
  }

  /** Limb i of a row x * b placed at limb j. */
  lemma RowLimb(b: seq<Limb>, x: nat, i: nat, j: nat)
    requires i < |b|
    ensures (x * Val(b[..i + 1])) * W(j) == (x * Val(b[..i])) * W(j) + (x * b[i]) * W(i + j)
  {
    ValPrefix(b, i);
    WAdd(i, j);
    RowLimbArith(x, b[i], Val(b[..i]), W(i), W(j));
  }

  lemma RowLimbArith(x: int, y: int, v: int, u: int, w: int)
    ensures (x * (v + y * u)) * w == (x * v) * w + (x * y) * (u * w)
  {
    assert x * (v + y * u) == x * v + x * (y * u);
    assert (x * (y * u)) * w == (x * y) * (u * w);
  }

  /** After a row: what falls off the top is a multiple of 2^256. */
  lemma RowDone(a: seq<Limb>, b: seq<Limb>, j: nat, start: nat, now: nat, q: int, carry: nat) returns (q': int)
    requires j < |a| == |b|
    requires start + q * W(|b|) == Val(a[..j]) * Val(b)
    requires now + carry * W(|b|) == start + (a[j] * Val(b[..|b| - j])) * W(j)
    ensures now + q' * W(|b|) == Val(a[..j + 1]) * Val(b)
  {
    var k := |b| - j;
    ValSplit(b, k);
    ValPrefix(a, j);
    WAdd(k, j);
    q' := q + carry + a[j] * Val(b[k..]);
    RowDoneArith(Val(a[..j]), Val(a[..j + 1]), Val(b), a[j], W(j), Val(b[..k]), Val(b[k..]), W(k),
                 start, now, q, carry, W(|b|));
  }

  lemma RowDoneArith(a: int, a': int, b: int, x: int, w: int, lo: int, hi: int, u: int,
                     start: int, now: int, q: int, carry: int, m: int)
    requires u * w == m && b == lo + hi * u && a' == a + x * w
    requires start + q * m == a * b
    requires now + carry * m == start + (x * lo) * w
    ensures now + (q + carry + x * hi) * m == a' * b
  {
    Distribute(a, x * w, b);
    RowLimbArith(x, hi, lo, u, w);
    assert (x * w) * b == (x * b) * w;
    Distribute(q + carry, x * hi, m);
    Distribute(q, carry, m);
  }

  lemma OrFits(x: nat, y: Limb, s: nat)
    requires s <= 32 && x < Pow2(s) && y % Pow2(s) == 0
    ensures x + y < BASE
  {
    Pow2Add(s, 32 - s);
    Pow2Is32();
    FitsArith(x, y, Pow2(s), Pow2(32 - s));
  }

  lemma FitsArith(x: nat, y: nat, p: nat, q: nat)
    requires p > 0 && x < p && y % p == 0 && y < p * q
    ensures x + y < p * q
  {
    var m := y / p;
    assert y == m * p;
    if m >= q { MulMono(q, m, p); }
    MulMono(m + 1, q, p);
  }

  lemma RoomForBit(y: Limb, b: nat)
    requires b < 32 && LowClear(y, b + 1)
    ensures y + Pow2(b) < BASE && LowClear(y + Pow2(b), b) && LowClear(y, b)
  {
    OrFits(Pow2(b), y, b + 1);
    RoomArith(y, Pow2(b));
  }

  lemma RoomArith(y: nat, p: nat)
    requires p > 0 && y % (2 * p) == 0
    ensures (y + p) % p == 0 && y % p == 0
  {
    var m := y / (2 * p);
    assert y == m * (2 * p);
    DivUnique(y, p, 2 * m, 0);
    DivUnique(y + p, p, 2 * m + 1, 0);
  }

  lemma BitWeight(k: nat, b: nat)
    ensures Pow2(b) * W(k) == Pow2(32 * k + b)
  {
    WIsPow2(k);
    Pow2Add(32 * k, b);
  }

  /** The limb of the next lower bit is clear up to that bit. */
  lemma NextBitClear(s: seq<Limb>, shift: nat)
    requires |s| == WIDTH && shift < 256 && LowClear(s[shift / 32], shift % 32)
    requires forall j :: 0 <= j < WIDTH && 32 * j + 31 < shift ==> s[j] == 0
    ensures shift > 0 ==> LowClear(s[(shift - 1) / 32], (shift - 1) % 32 + 1)
  {
    if shift > 0 {
      if shift % 32 > 0 {
        assert (shift - 1) / 32 == shift / 32 && (shift - 1) % 32 + 1 == shift % 32;
      } else {
        ZeroClear(32);
        assert s[(shift - 1) / 32] == 0;
      }
    }
  }

  function PlacedLeft(t: seq<Limb>, lo: Limb, hi: Limb, at: nat): (r: seq<Limb>)
    requires |t| == WIDTH && (at < WIDTH ==> t[at] + lo < BASE) && (at + 1 < WIDTH ==> t[at + 1] + hi < BASE)
  {
    var u := if at + 1 < WIDTH then t[at + 1 := t[at + 1] + hi] else t;
    if at < WIDTH then u[at := u[at] + lo] else u
  }

  /** What PlaceLeft leaves out is a multiple of 2^256. */
  lemma PlacedLeftValue(t: seq<Limb>, lo: Limb, hi: Limb, at: nat) returns (dropped: int)
    requires |t| == WIDTH && (at < WIDTH ==> t[at] + lo < BASE) && (at + 1 < WIDTH ==> t[at + 1] + hi < BASE)
    ensures Val(PlacedLeft(t, lo, hi, at)) + dropped * W(WIDTH) == Val(t) + (lo + hi * BASE) * W(at)
  {
    CarryArith(W(at), 0, lo + hi * BASE, lo, hi);
    if at + 1 < WIDTH {
      dropped := 0;
      ValAdd(t, at + 1, hi);
      ValAdd(t[at + 1 := t[at + 1] + hi], at, lo);
    } else if at < WIDTH {
      dropped := hi;
      ValAdd(t, at, lo);
    } else {
      dropped := Beyond(lo + hi * BASE, at);
    }
  }

  lemma Dropped(now: int, before: int, q: int, dropped: int, m: int)
    ensures now + (q + dropped) * m == (now + dropped * m) + q * m
  {
    Distribute(q, dropped, m);
  }

  lemma Beyond(v: int, at: nat) returns (dropped: int)
    requires at >= WIDTH
    ensures dropped * W(WIDTH) == v * W(at)
  {
    WAdd(at - WIDTH, WIDTH);
    dropped := v * W(at - WIDTH);
    Associate(v, W(at - WIDTH), W(WIDTH));
  }

  function PlacedRight(t: seq<Limb>, lo: Limb, hi: Limb, at: nat): (r: seq<Limb>)
    requires |t| == WIDTH && at + 1 < WIDTH && t[at] + lo < BASE && t[at + 1] + hi < BASE
  {
    t[at := t[at] + lo][at + 1 := t[at + 1] + hi]
  }

  lemma PlacedRightValue(t: seq<Limb>, lo: Limb, hi: Limb, at: nat)
    requires |t| == WIDTH && at + 1 < WIDTH && t[at] + lo < BASE && t[at + 1] + hi < BASE
    ensures Val(PlacedRight(t, lo, hi, at)) == Val(t) + (lo + hi * BASE) * W(at)
  {
    CarryArith(W(at), 0, lo + hi * BASE, lo, hi);
    ValAdd(t, at, lo);
    ValAdd(t[at := t[at] + lo], at + 1, hi);
  }

  /** A limb shifted right by s bits: what drops into the limb below, and what stays. */
  lemma RightSplit(x: Limb, s: nat)
    requires s < 32
    ensures x * Pow2(32 - s) == (x * Pow2(32 - s)) % BASE + (x / Pow2(s)) * BASE
    ensures (x * Pow2(32 - s)) % BASE % Pow2(32 - s) == 0
    ensures s == 0 ==> (x * Pow2(32 - s)) % BASE == 0
  {
    Pow2Add(32 - s, s);
    Pow2Is32();
    SpreadArith(x, Pow2(32 - s), Pow2(s));
    if s == 0 { MultipleMod(x, BASE); }
  }

  lemma ShiftedPrefix(a: seq<Limb>, i: nat, k: nat, p: nat)
    requires i < |a|
    ensures Val(a[..i + 1]) * (W(k) * p) == Val(a[..i]) * (W(k) * p) + (a[i] * p) * W(i + k)
  {
    ValPrefix(a, i);
    WAdd(i, k);
    ShiftedArith(Val(a[..i]), a[i], W(i), W(k), p);
  }

  lemma ShiftedArith(v: int, x: int, w: int, u: int, p: int)
    ensures (v + x * w) * (u * p) == v * (u * p) + (x * p) * (w * u)
  {
    Distribute(v, x * w, u * p);
    assert (x * w) * (u * p) == (x * p) * (w * u);
  }

  lemma HighPart(x: Limb, s: nat)
    requires s < 32
    ensures x / Pow2(s) < Pow2(32 - s)
  {
    Pow2Add(s, 32 - s);
    Pow2Is32();
    HighPartArith(x, Pow2(s), Pow2(32 - s));
  }

  lemma HighPartArith(x: nat, p: nat, q: nat)
    requires p > 0 && x < p * q
    ensures x / p < q
  {
    if x / p >= q { MulMono(q, x / p, p); }
  }

  /** The remainder after limb i of `>>=`: the low limbs, then the low bits of limb k, then unchanged. */
  lemma Remainder(a: seq<Limb>, i: nat, k: nat, s: nat, before: nat, after: nat, r: nat) returns (r': nat)
    requires i < |a| && s < 32
    requires before * (W(k) * Pow2(s)) + r == Val(a[..i])
    requires if i <= k then before == 0 else r < W(k) * Pow2(s)
    requires i < k ==> after == before
    requires i == k ==> after == before + a[i] / Pow2(s)
    requires i > k ==> after == before + (a[i] * Pow2(32 - s)) * W(i - k - 1)
    ensures after * (W(k) * Pow2(s)) + r' == Val(a[..i + 1])
    ensures if i + 1 <= k then after == 0 else r' < W(k) * Pow2(s)
  {
    ValPrefix(a, i);
    if i < k {
      r' := Val(a[..i + 1]);
    } else if i == k {
      ValBound(a[..i]);
      r' := LowBits(a[i], Pow2(s), W(k), r);
    } else {
      r' := r;
      Inside(before, a[i], i, k, s);
    }
  }

  lemma LowBits(x: nat, p: nat, w: nat, r: nat) returns (r': nat)
    requires p > 0 && r < w
    ensures (x / p) * (w * p) + r' == r + x * w && r' < w * p
  {
    r' := r + (x % p) * w;
    SplitAt(x, p, w, r);
  }

  lemma Inside(before: nat, x: Limb, i: nat, k: nat, s: nat)
    requires k < i && s < 32
    ensures (before + (x * Pow2(32 - s)) * W(i - k - 1)) * (W(k) * Pow2(s)) == before * (W(k) * Pow2(s)) + x * W(i)
  {
    Pow2Add(32 - s, s);
    Pow2Is32();
    WAdd(i - k - 1, k);
    Regroup(before, x, Pow2(32 - s), W(i - k - 1), W(k), Pow2(s), W(i - 1));
  }

  lemma SplitAt(x: nat, p: nat, w: nat, r: nat)
    requires p > 0 && r < w
    ensures (x / p) * (w * p) + (r + (x % p) * w) == r + x * w
    ensures r + (x % p) * w < w * p
  {
    assert x * w == ((x / p) * p + x % p) * w;
    Distribute((x / p) * p, x % p, w);
    assert ((x / p) * p) * w == (x / p) * (w * p);
    MulMono(x % p + 1, p, w);
  }

  lemma Regroup(v: int, x: int, q: int, u: int, w: int, p: int, z: int)
    requires q * p == BASE && u * w == z
    ensures (v + (x * q) * u) * (w * p) == v * (w * p) + x * (z * BASE)
  {
    Distribute(v, (x * q) * u, w * p);
    assert ((x * q) * u) * (w * p) == x * ((u * w) * (q * p));
  }

  lemma ShiftedOut(a: seq<Limb>, k: nat, s: nat, r: nat)
    requires |a| == WIDTH && s < 32
    requires WIDTH <= k ==> r == Val(a)
    requires WIDTH > k ==> r < W(k) * Pow2(s)
    ensures r < W(k) * Pow2(s)
  {
    if WIDTH <= k {
      ValBound(a);
      WAdd(k - WIDTH, WIDTH);
      MulMono(1, W(k - WIDTH), W(WIDTH));
      MulMono(1, Pow2(s), W(k));
    }
  }

  lemma BitsBelow(n: nat, nb: nat, d: nat, db: nat)
    requires nb < db && (nb == 0 ==> n == 0) && (nb > 0 ==> n < Pow2(nb)) && Pow2(db - 1) <= d
    ensures n < d
  {
    Pow2Monotone(nb, db - 1);
  }

  /** Aligning the divisor with the numerator loses no bit, and the numerator is below twice the aligned divisor. */
  lemma ShiftFits(d: nat, db: nat, n: nat, nb: nat, shift: nat)
    requires 0 < db <= nb <= 256 && shift == nb - db
    requires Pow2(db - 1) <= d < Pow2(db) && n < Pow2(nb)
    ensures (d * Pow2(shift)) % MODULUS == d * Pow2(shift)
    ensures n < d * Pow2(shift + 1)
  {
    Pow2Add(db, shift);
    Pow2Add(db - 1, shift + 1);
    Pow2ByModulus(nb);
    ShiftFitsArith(d, Pow2(db), Pow2(db - 1), Pow2(shift), Pow2(shift + 1), n, Pow2(nb), MODULUS);
  }

  lemma ShiftFitsArith(d: nat, hi: nat, lo: nat, p: nat, p2: nat, n: nat, t: nat, m: nat)
    requires lo <= d < hi && p > 0 && hi * p == t && lo * p2 == t && n < t <= m
    ensures (d * p) % m == d * p && n < d * p2
  {
    MulMono(d + 1, hi, p);
    MulMono(lo, d, p2);
    MulMono(0, d, p);
    DivUnique(d * p, m, 0, d * p);
  }

  lemma DivideArith(v: int, p: int, d: int, num: int)
    ensures (v + p) * d + (num - d * p) == v * d + num
  {
    Distribute(v, p, d);
  }

  lemma SubtractOnce(s: seq<Limb>, t: seq<Limb>)
    requires |s| == |t| == WIDTH && Val(s) >= Val(t)
    ensures (Val(s) - Val(t)) % MODULUS == Val(s) - Val(t)
  {
    ValBound(s);
    WIs256();
    SmallMod(Val(s) - Val(t), MODULUS);
  }

  lemma DoublePow(d: nat, shift: nat)
    ensures d * Pow2(shift + 1) == 2 * (d * Pow2(shift))
    ensures shift > 0 ==> (d * Pow2(shift)) / Pow2(1) == d * Pow2(shift - 1)
  {
    if shift > 0 {
      assert d * Pow2(shift) == 2 * (d * Pow2(shift - 1));
      DivUnique(d * Pow2(shift), 2, d * Pow2(shift - 1), 0);
    }
  }

  lemma LengthFromTop(s: seq<Limb>, pos: nat, bit: nat)
    requires pos < |s| && (forall i :: pos < i < |s| ==> s[i] == 0)
    requires Pow2(bit) <= s[pos] < Pow2(bit + 1)
    ensures Pow2(32 * pos + bit) <= Val(s) < Pow2(32 * pos + bit + 1)
  {
    TopLimb(s, pos);
    ValBound(s[..pos]);
    WIsPow2(pos);
    Pow2Add(32 * pos, bit);
    Pow2Add(32 * pos, bit + 1);
    TopArith(Val(s[..pos]), s[pos], W(pos), Pow2(bit), Pow2(bit + 1));
    assert 32 * pos + (bit + 1) == 32 * pos + bit + 1;
  }

  lemma TopLimb(s: seq<Limb>, pos: nat)
    requires pos < |s| && forall i :: pos < i < |s| ==> s[i] == 0
    ensures Val(s) == Val(s[..pos]) + s[pos] * W(pos)
  {
    ValSplit(s, pos + 1);
    ValZeros(s[pos + 1..]);
    ValPrefix(s, pos);
    NoneAbove(Val(s), Val(s[..pos + 1]), Val(s[pos + 1..]), W(pos + 1));
  }

  lemma NoneAbove(v: int, low: int, high: int, w: int)
    requires v == low + high * w && high == 0
    ensures v == low
  {
  }

  lemma TopArith(v: nat, x: int, w: nat, p: nat, p': nat)
    requires v < w && p <= x < p'
    ensures w * p <= v + x * w < w * p'
  {
    MulMono(p, x, w);
    MulMono(x + 1, p', w);
  }
}
