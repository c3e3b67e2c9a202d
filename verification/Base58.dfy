/** Base58 (src/base58.cpp): radix conversion in fixed buffers. The methods keep the source's in-place loops; the
    functions say what they compute. */
module Base58 {
  import opened Options
  import opened Text
  import opened Arithmetic
  import opened Radix

  predicate AllBytes(s: seq<nat>) {
    forall i :: 0 <= i < |s| ==> s[i] < 256
  }

  // ---------------------------------------------------------------- alphabet and white space

  /** The 58 digits in order: the look-alikes zero, capital i, capital o and small L are left out. */
  const ALPHABET := "123456789" + "ABCDEFGH" + "JKLMN" + "PQRSTUVWXYZ" + "abcdefghijk" + "mnopqrstuvwxyz"

  /** The alphabet as ranges, and `strchr` in it. */
  function Symbol(d: nat): char
    requires d < 58
  {
    if d < 9 then ('1' as int + d) as char
    else if d < 17 then ('A' as int + (d - 9)) as char
    else if d < 22 then ('J' as int + (d - 17)) as char
    else if d < 33 then ('P' as int + (d - 22)) as char
    else if d < 44 then ('a' as int + (d - 33)) as char
    else ('m' as int + (d - 44)) as char
  }

  function Find(c: char): Option<nat> {
    if '1' <= c <= '9' then Some(c as int - '1' as int)
    else if 'A' <= c <= 'H' then Some(c as int - 'A' as int + 9)
    else if 'J' <= c <= 'N' then Some(c as int - 'J' as int + 17)
    else if 'P' <= c <= 'Z' then Some(c as int - 'P' as int + 22)
    else if 'a' <= c <= 'k' then Some(c as int - 'a' as int + 33)
    else if 'm' <= c <= 'z' then Some(c as int - 'm' as int + 44)
    else None
  }

  lemma SymbolsAreAlphabet(d: nat)
    requires d < 58
    ensures |ALPHABET| == 58 && ALPHABET[d] == Symbol(d)
  {
    assert "123456789"[if d < 9 then d else 0] == Symbol(if d < 9 then d else 0);
  }

  lemma FindSymbol(d: nat)
    requires d < 58
    ensures Find(Symbol(d)) == Some(d) && !IsSpace(Symbol(d)) && (Symbol(d) == '1' <==> d == 0)
  {
  }

  lemma SymbolFound(c: char)
    ensures match Find(c) case None => true case Some(d) => d < 58 && Symbol(d) == c
  {
  }

  function LeadSpaces(s: string): (k: nat)
    ensures k <= |s|
  {
    if s != "" && IsSpace(s[0]) then 1 + LeadSpaces(s[1..]) else 0
  }

  function LeadOnes(s: string): (k: nat)
    ensures k <= |s|
  {
    if s != "" && s[0] == '1' then 1 + LeadOnes(s[1..]) else 0
  }

  /** The length of the run without white space. */
  function WordLength(s: string): (k: nat)
    ensures k <= |s|
  {
    if s != "" && !IsSpace(s[0]) then 1 + WordLength(s[1..]) else 0
  }

  function LeadZeros(v: seq<Byte>): (k: nat)
    ensures k <= |v|
    ensures forall i :: 0 <= i < k ==> v[i] == 0
    ensures k < |v| ==> v[k] != 0
  {
    if v != [] && v[0] == 0 then 1 + LeadZeros(v[1..]) else 0
  }

  // ---------------------------------------------------------------- what the codec computes

  function Spell(digits: seq<nat>): (s: string)
    requires Digits(digits, 58)
    ensures |s| == |digits| && forall i :: 0 <= i < |s| ==> s[i] == Symbol(digits[i])
  {
    seq(|digits|, i requires 0 <= i < |digits| => Symbol(digits[i]))
  }

  /** The digits a word spells, if every character is in the alphabet. */
  function Read(word: string): (r: Option<seq<nat>>)
    ensures r.Some? ==> |r.value| == |word| && Digits(r.value, 58)
    ensures r.Some? ==> forall i :: 0 <= i < |word| ==> Find(word[i]) == Some(r.value[i])
    ensures r.None? ==> exists i :: 0 <= i < |word| && Find(word[i]) == None
  {
    if word == "" then Some([])
    else
      match (Find(word[0]), Read(word[1..]))
      case (Some(d), Some(ds)) =>
        SymbolFound(word[0]);
        Some([d] + ds)
      case (None, _) => None
      case (_, None) =>
        var i :| 0 <= i < |word[1..]| && Find(word[1..][i]) == None;
        assert Find(word[i + 1]) == None;
        None
  }

  function Encode(v: seq<Byte>): string {
    var z := LeadZeros(v);
    seq(z, _ => '1') + Spell(Minimal(Num(v[z..], 256), 58))
  }

  function Decode(s: string): Option<seq<nat>> {
    var t := s[LeadSpaces(s)..];
    var z := LeadOnes(t);
    var u := t[z..];
    var n := WordLength(u);
    match Read(u[..n])
    case None => None
    case Some(digits) =>
      if n + LeadSpaces(u[n..]) < |u| then None
      else Some(seq(z, _ => 0) + Minimal(Num(digits, 58), 256))
  }

  // ---------------------------------------------------------------- round trips

  lemma {:induction false} LeadOnesExact(k: nat, s: string)
    requires s == "" || s[0] != '1'
    ensures LeadOnes(seq(k, _ => '1') + s) == k
  {
    var t := seq(k, _ => '1') + s;
    if k > 0 {
      assert t[1..] == seq(k - 1, _ => '1') + s;
      LeadOnesExact(k - 1, s);
    }
  }

  lemma {:induction false} LeadZerosExact(k: nat, v: seq<Byte>)
    requires v == [] || v[0] != 0
    ensures LeadZeros(seq(k, _ => 0) + v) == k
  {
    var t := seq(k, _ => 0) + v;
    if k > 0 {
      assert t[1..] == seq(k - 1, _ => 0) + v;
      LeadZerosExact(k - 1, v);
    }
  }

  lemma {:induction false} WordLengthWhole(s: string)
    requires forall i :: 0 <= i < |s| ==> !IsSpace(s[i])
    ensures WordLength(s) == |s|
  {
    if s != "" { WordLengthWhole(s[1..]); }
  }

  lemma {:induction false} ReadSpell(digits: seq<nat>)
    requires Digits(digits, 58)
    ensures Read(Spell(digits)) == Some(digits)
  {
    var s := Spell(digits);
    forall i | 0 <= i < |digits| ensures Find(s[i]) == Some(digits[i]) { FindSymbol(digits[i]); }
    assert Read(s).Some?;
    assert Read(s).value == digits;
  }

  lemma WordHasNoSpace(digits: seq<nat>)
    requires Digits(digits, 58)
    ensures WordLength(Spell(digits)) == |digits|
    ensures digits != [] ==> !IsSpace(Spell(digits)[0]) && (Spell(digits)[0] == '1' <==> digits[0] == 0)
  {
    var word := Spell(digits);
    forall i | 0 <= i < |word| ensures !IsSpace(word[i]) { FindSymbol(digits[i]); }
    WordLengthWhole(word);
    if digits != [] { FindSymbol(digits[0]); }
  }

  lemma DecodeSpelling(z: nat, digits: seq<nat>)
    requires Digits(digits, 58) && NoLeadingZero(digits)
    ensures Decode(seq(z, _ => '1') + Spell(digits)) == Some(seq(z, _ => 0) + Minimal(Num(digits, 58), 256))
  {
    var word := Spell(digits);
    var s := seq(z, _ => '1') + word;
    WordHasNoSpace(digits);
    assert LeadSpaces(s) == 0;
    assert s[0..] == s;
    LeadOnesExact(z, word);
    assert s[z..] == word;
    assert word[..|word|] == word;
    ReadSpell(digits);
  }

  lemma ZerosThenRest(v: seq<Byte>)
    ensures seq(LeadZeros(v), _ => 0) + v[LeadZeros(v)..] == v
  {
    var z := LeadZeros(v);
    assert v[..z] == seq(z, _ => 0);
    assert v == v[..z] + v[z..];
  }

  lemma RestIsMinimal(rest: seq<nat>, base: nat)
    requires base >= 2 && Digits(rest, base) && NoLeadingZero(rest)
    ensures Minimal(Num(rest, base), base) == rest
  {
    MinimalUnique(rest, base);
  }

  lemma BytesFromNumber(v: seq<Byte>)
    ensures seq(LeadZeros(v), _ => 0) + Minimal(Num(v[LeadZeros(v)..], 256), 256) == v
  {
    ZerosThenRest(v);
    RestIsMinimal(v[LeadZeros(v)..], 256);
  }

  /** Decoding an encoding gives the bytes back, leading zeros included. */
  lemma DecodeEncode(v: seq<Byte>)
    ensures Decode(Encode(v)) == Some(v)
  {
    var z := LeadZeros(v);
    var digits := Minimal(Num(v[z..], 256), 58);
    MinimalHolds(Num(v[z..], 256), 58);
    assert Encode(v) == seq(z, _ => '1') + Spell(digits);
    DecodeSpelling(z, digits);
    BytesFromNumber(v);
  }

  lemma {:induction false} LeadOnesStop(s: string)
    ensures LeadOnes(s) < |s| ==> s[LeadOnes(s)] != '1'
    ensures forall i :: 0 <= i < LeadOnes(s) ==> s[i] == '1'
  {
    if s != "" && s[0] == '1' { LeadOnesStop(s[1..]); }
  }

  lemma EncodeNumber(z: nat, n: nat)
    ensures Encode(seq(z, _ => 0) + Minimal(n, 256)) == seq(z, _ => '1') + Spell(Minimal(n, 58))
  {
    var bytes := Minimal(n, 256);
    MinimalHolds(n, 256);
    LeadZerosExact(z, bytes);
    assert (seq(z, _ => 0) + bytes)[z..] == bytes;
  }

  lemma WordSpelledBack(word: string)
    requires Read(word).Some? && (word == "" || word[0] != '1')
    ensures Spell(Minimal(Num(Read(word).value, 58), 58)) == word
  {
    var digits := Read(word).value;
    if word != "" {
      SymbolFound(word[0]);
      FindSymbol(digits[0]);
    }
    MinimalUnique(digits, 58);
    forall i | 0 <= i < |word| ensures Symbol(digits[i]) == word[i] { SymbolFound(word[i]); }
  }

  /** What a string holds between white space: ones, then a word. */
  function Stripped(s: string): (string, string) {
    var t := s[LeadSpaces(s)..];
    (t[..LeadOnes(t)], t[LeadOnes(t)..][..WordLength(t[LeadOnes(t)..])])
  }

  lemma StrippedParts(s: string)
    ensures Stripped(s).0 == seq(|Stripped(s).0|, _ => '1')
    ensures Stripped(s).1 == "" || Stripped(s).1[0] != '1'
    ensures Decode(s).Some? ==>
      && Read(Stripped(s).1).Some?
      && Decode(s).value == seq(|Stripped(s).0|, _ => 0) + Minimal(Num(Read(Stripped(s).1).value, 58), 256)
  {
    LeadOnesStop(s[LeadSpaces(s)..]);
  }

  /** A string that decodes is its bytes' encoding with white space around: no two spellings but for spaces. */
  lemma EncodeDecode(s: string)
    requires Decode(s).Some?
    ensures AllBytes(Decode(s).value)
    ensures Encode(Decode(s).value) == Stripped(s).0 + Stripped(s).1
  {
    StrippedParts(s);
    var n := Num(Read(Stripped(s).1).value, 58);
    EncodeNumber(|Stripped(s).0|, n);
    WordSpelledBack(Stripped(s).1);
  }

  // ---------------------------------------------------------------- exactly which strings decode

  predicate AllSpaces(s: string) {
    forall i :: 0 <= i < |s| ==> IsSpace(s[i])
  }

  lemma {:induction false} LeadSpacesStop(s: string)
    ensures AllSpaces(s[..LeadSpaces(s)]) && (LeadSpaces(s) < |s| ==> !IsSpace(s[LeadSpaces(s)]))
  {
    if s != "" && IsSpace(s[0]) { LeadSpacesStop(s[1..]); }
  }

  lemma {:induction false} LeadSpacesExact(a: string, t: string)
    requires AllSpaces(a) && (t == "" || !IsSpace(t[0]))
    ensures LeadSpaces(a + t) == |a|
  {
    if a != "" {
      LeadSpacesExact(a[1..], t);
      assert (a + t)[1..] == a[1..] + t;
    } else {
      assert a + t == t;
    }
  }

  lemma {:induction false} WordThenSpace(word: string, b: string)
    requires (forall i :: 0 <= i < |word| ==> !IsSpace(word[i])) && (b == "" || IsSpace(b[0]))
    ensures WordLength(word + b) == |word|
  {
    if word != "" {
      WordThenSpace(word[1..], b);
      assert (word + b)[1..] == word[1..] + b;
    } else {
      assert word + b == b;
    }
  }

  lemma SpacesOnly(b: string)
    requires AllSpaces(b)
    ensures LeadSpaces(b) == |b|
  {
    LeadSpacesExact(b, "");
    assert b + "" == b;
  }

  /** Ones, a word and trailing white space, read after the leading white space. */
  lemma DecodeRest(z: nat, digits: seq<nat>, b: string)
    requires AllSpaces(b) && Digits(digits, 58) && NoLeadingZero(digits)
    ensures
      var t := seq(z, _ => '1') + (Spell(digits) + b);
      && LeadOnes(t) == z && t[z..] == Spell(digits) + b && WordLength(t[z..]) == |digits|
      && t[z..][..|digits|] == Spell(digits) && t[z..][|digits|..] == b
  {
    var word := Spell(digits);
    forall i | 0 <= i < |word| ensures !IsSpace(word[i]) { FindSymbol(digits[i]); }
    WordHasNoSpace(digits);
    LeadOnesExact(z, word + b);
    WordThenSpace(word, b);
  }

  lemma DecodePadded(a: string, z: nat, digits: seq<nat>, b: string)
    requires AllSpaces(a) && AllSpaces(b) && Digits(digits, 58) && NoLeadingZero(digits)
    ensures Decode(a + (seq(z, _ => '1') + (Spell(digits) + b))) == Some(seq(z, _ => 0) + Minimal(Num(digits, 58), 256))
  {
    var t := seq(z, _ => '1') + (Spell(digits) + b);
    ReadSpell(digits);
    SpacesOnly(b);
    if z == 0 && digits == [] {
      assert t == b;
      SpacesOnly(a + b);
      assert (a + b)[|a + b|..] == "";
      assert Spell(digits) == "" && Read("") == Some([]);
    } else {
      DecodeRest(z, digits, b);
      WordHasNoSpace(digits);
      LeadSpacesExact(a, t);
      assert (a + t)[|a|..] == t;
    }
  }

  /** A string decodes to a byte vector exactly when it is the vector's encoding between two runs of white space. */
  lemma DecodeIff(s: string, v: seq<Byte>)
    ensures Decode(s) == Some(v) <==>
      exists a: string, b: string :: AllSpaces(a) && AllSpaces(b) && s == a + (Encode(v) + b)
  {
    if a: string, b: string :| AllSpaces(a) && AllSpaces(b) && s == a + (Encode(v) + b) {
      PaddedDecodes(a, v, b);
    }
    if Decode(s) == Some(v) {
      EncodeDecode(s);
      var a, b := SplitsAround(s);
    }
  }

  lemma PaddedDecodes(a: string, v: seq<Byte>, b: string)
    requires AllSpaces(a) && AllSpaces(b)
    ensures Decode(a + (Encode(v) + b)) == Some(v)
  {
    var z := LeadZeros(v);
    var digits := Minimal(Num(v[z..], 256), 58);
    MinimalHolds(Num(v[z..], 256), 58);
    assert Encode(v) + b == seq(z, _ => '1') + (Spell(digits) + b);
    DecodePadded(a, z, digits, b);
    BytesFromNumber(v);
  }

  /** What follows the leading white space and ones. */
  function AfterOnes(s: string): string {
    s[LeadSpaces(s)..][LeadOnes(s[LeadSpaces(s)..])..]
  }

  lemma DecodeEnds(s: string)
    requires Decode(s).Some?
    ensures WordLength(AfterOnes(s)) + LeadSpaces(AfterOnes(s)[WordLength(AfterOnes(s))..]) == |AfterOnes(s)|
  {
  }

  lemma SplitsAround(s: string) returns (a: string, b: string)
    requires Decode(s).Some?
    ensures AllSpaces(a) && AllSpaces(b) && s == a + ((Stripped(s).0 + Stripped(s).1) + b)
  {
    DecodeEnds(s);
    LeadSpacesStop(s);
    a, b := SplitAt(s, LeadSpaces(s), LeadOnes(s[LeadSpaces(s)..]), WordLength(AfterOnes(s)));
  }

  lemma SplitAt(s: string, k: nat, z: nat, n: nat) returns (a: string, b: string)
    requires k <= |s| && z <= |s[k..]| && n <= |s[k..][z..]| && AllSpaces(s[..k])
    requires n + LeadSpaces(s[k..][z..][n..]) == |s[k..][z..]|
    ensures AllSpaces(a) && AllSpaces(b) && s == a + ((s[k..][..z] + s[k..][z..][..n]) + b)
  {
    var t := s[k..];
    var u := t[z..];
    TrailingSpaces(u, n);
    FourParts(s, t, u, k, z, n);
    a, b := s[..k], u[n..];
  }

  lemma TrailingSpaces(u: string, n: nat)
    requires n <= |u| && n + LeadSpaces(u[n..]) == |u|
    ensures AllSpaces(u[n..])
  {
    LeadSpacesStop(u[n..]);
    assert u[n..][..|u| - n] == u[n..];
  }

  lemma FourParts(s: string, t: string, u: string, k: nat, z: nat, n: nat)
    requires k <= |s| && t == s[k..] && z <= |t| && u == t[z..] && n <= |u|
    ensures s == s[..k] + ((t[..z] + u[..n]) + u[n..])
  {
    assert t == t[..z] + (u[..n] + u[n..]);
  }

  // ---------------------------------------------------------------- the in-place loops

  ghost predicate ZerosBefore(buf: seq<nat>, length: nat) {
    length <= |buf| && forall j :: 0 <= j < |buf| - length ==> buf[j] == 0
  }

  /** `buf = buf * mult + ch`, digit by digit from the end. The number still fits, so the carry runs out before the
      buffer does: both `assert(carry == 0)` hold. */
  method MulAdd(buf: array<nat>, length: nat, mult: nat, base: nat, ch: nat) returns (used: nat)
    requires 2 <= base <= 256 && ch < mult <= 256
    requires Digits(buf[..], base) && ZerosBefore(buf[..], length)
    requires Num(buf[..], base) * mult + ch < Pow(base, buf.Length)
    modifies buf
    ensures Digits(buf[..], base) && ZerosBefore(buf[..], used)
    ensures Num(buf[..], base) == old(Num(buf[..], base)) * mult + ch
  {
    ghost var b0 := buf[..];
    var carry, i := ch, 0;
    StartProgress(b0, base, mult, ch);
    while (carry != 0 || i < length) && i < buf.Length
      invariant 0 <= i <= buf.Length && 0 <= carry < mult
      invariant Progress(buf[..], b0, base, mult, i, carry, ch)
      decreases buf.Length - i
    {
      ghost var before := buf[..];
      var j := buf.Length - 1 - i;
      CarryFits(carry, mult, buf[j], base);
      MulAddStep(before, b0, base, mult, i, carry, ch);
      carry := carry + mult * buf[j];
      assert carry < 0x8000_0000;
      buf[j] := carry % base;
      carry := carry / base;
      assert buf[..] == before[j := buf[j]];
      i := i + 1;
    }
    MulAddEnd(buf[..], b0, base, mult, i, carry, ch, length);
    assert carry == 0;
    used := i;
  }

  /** With i digits done: the rest untouched, and what the buffer and the carry stand for. */
  ghost predicate Progress(s: seq<nat>, b0: seq<nat>, base: nat, mult: nat, i: nat, carry: nat, ch: nat) {
    && i <= |s| == |b0| && Digits(s, base)
    && (forall j :: 0 <= j < |s| - i ==> s[j] == b0[j])
    && Num(s, base) + carry * Pow(base, i) + Num(b0[|s| - i..], base)
       == Num(b0, base) + ch + mult * Num(b0[|s| - i..], base)
  }

  lemma StartProgress(b0: seq<nat>, base: nat, mult: nat, ch: nat)
    requires Digits(b0, base)
    ensures Progress(b0, b0, base, mult, 0, ch, ch)
  {
    assert b0[|b0|..] == [];
  }

  lemma CarryFits(carry: nat, mult: nat, d: nat, base: nat)
    requires carry < mult <= 256 && d < base <= 256
    ensures 0 <= carry + mult * d < 0x8000_0000
    ensures 0 <= (carry + mult * d) / base < mult
  {
    MulMono(d, base - 1, mult);
    MulMono(mult, 256, base - 1);
    MulMono(0, d, mult);
    var x := carry + mult * d;
    Distribute(base, -1, mult);
    DivMod(x, base);
    if x / base >= mult { MulMono(mult, x / base, base); }
    if x / base < 0 { MulMono(x / base, -1, base); }
  }

  lemma MulAddStep(s: seq<nat>, b0: seq<nat>, base: nat, mult: nat, i: nat, carry: nat, ch: nat)
    requires Progress(s, b0, base, mult, i, carry, ch) && i < |s| && base > 0
    ensures
      var j := |s| - 1 - i;
      var x := carry + mult * s[j];
      && x >= 0 && x / base >= 0 && x % base >= 0
      && Progress(s[j := x % base], b0, base, mult, i + 1, x / base, ch)
  {
    var j := |s| - 1 - i;
    var d := s[j];
    MulMono(0, d, mult);
    var x := carry + mult * d;
    DivMod(x, base);
    QuotientSign(x, base);
    NumUpdate(s, base, j, x % base);
    NumFront(b0[j..], base);
    assert b0[j..][1..] == b0[j + 1..];
    MulAddArith(carry, mult, d, base, x / base, x % base, Pow(base, i), Num(b0[j + 1..], base));
  }

  lemma QuotientSign(x: nat, m: nat)
    requires m > 0
    ensures x / m >= 0
  {
  }

  lemma MulAddArith(carry: int, mult: int, d: int, base: int, hi: int, lo: int, w: int, rest: int)
    requires carry + mult * d == hi * base + lo
    ensures (lo - d) * w + hi * (base * w) + d * w
         == carry * w + (mult * (d * w + rest) - mult * rest)
  {
    Distribute(lo, -d, w);
    Distribute(hi * base, lo, w);
    Distribute(carry, mult * d, w);
    Associate(hi, base, w);
    Distribute(d * w, rest, mult);
    Associate(mult, d, w);
  }

  /** Once the loop stops, every digit that matters has been multiplied, and nothing is left to carry. */
  lemma MulAddEnd(s: seq<nat>, b0: seq<nat>, base: nat, mult: nat, i: nat, carry: nat, ch: nat, length: nat)
    requires base >= 2 && Progress(s, b0, base, mult, i, carry, ch) && ZerosBefore(b0, length)
    requires (carry == 0 && i >= length) || i == |s|
    requires Num(b0, base) * mult + ch < Pow(base, |s|)
    ensures carry == 0 && Num(s, base) == Num(b0, base) * mult + ch && ZerosBefore(s, i)
  {
    NumSkipZeros(b0, base, |s| - i);
    NothingLeft(Num(s, base), carry, Pow(base, i), Num(b0, base), mult, ch, Pow(base, |s|));
  }

  lemma NothingLeft(now: nat, carry: nat, w: nat, v: nat, mult: nat, ch: nat, room: nat)
    requires now + carry * w + v == v + ch + mult * v
    requires carry == 0 || w == room
    requires v * mult + ch < room
    ensures carry == 0 && now == v * mult + ch
  {
    Commute(mult, v);
    if carry > 0 { MulMono(1, carry, w); }
  }

  /** Room for n more digits of the other base: the estimates of the two buffers. */
  lemma EncodeRoom(n: nat)
    ensures Pow(256, n) <= Pow(58, n * 138 / 100 + 1)
  {
    Constants(58, 256);
    EnoughDigits(256, 58, 11, 8, n, n * 138 / 100 + 1);
  }

  lemma DecodeRoom(n: nat)
    ensures Pow(58, n) <= Pow(256, n * 733 / 1000 + 1)
  {
    Constants(58, 256);
    EnoughDigits(58, 256, 52, 71, n, n * 733 / 1000 + 1);
  }

  /** After k digits the number is below a^k, so it fits a buffer that has room for all n. */
  lemma StillFits(s: seq<nat>, a: nat, k: nat, b: nat, size: nat)
    requires a > 0 && Digits(s, a) && k < |s| && Pow(a, |s|) <= Pow(b, size)
    ensures Num(s[..k + 1], a) == Num(s[..k], a) * a + s[k] < Pow(b, size)
  {
    assert s[..k + 1][..k] == s[..k];
    NumBound(s[..k + 1], a);
    PowMonotone(a, k + 1, |s|);
  }

  method SkipZeros(buf: array<nat>, from_: nat) returns (it: nat)
    requires from_ <= buf.Length && forall j :: 0 <= j < from_ ==> buf[j] == 0
    ensures from_ <= it <= buf.Length && forall j :: 0 <= j < it ==> buf[j] == 0
    ensures it < buf.Length ==> buf[it] != 0
  {
    it := from_;
    while it < buf.Length && buf[it] == 0
      invariant from_ <= it <= buf.Length && forall j :: 0 <= j < it ==> buf[j] == 0
    {
      it := it + 1;
    }
  }

  /** The digits left after the leading zeros are the minimal ones. */
  lemma TrimmedIsMinimal(s: seq<nat>, base: nat, it: nat)
    requires base >= 2 && it <= |s| && Digits(s, base)
    requires (forall j :: 0 <= j < it ==> s[j] == 0) && (it < |s| ==> s[it] != 0)
    ensures s[it..] == Minimal(Num(s, base), base)
  {
    NumSkipZeros(s, base, it);
    MinimalUnique(s[it..], base);
  }

  /** Bytes into a fresh buffer of base 58 digits: the number is the same. */
  method ToBase58(rest: seq<Byte>) returns (b58: array<nat>, length: nat)
    ensures Digits(b58[..], 58) && ZerosBefore(b58[..], length)
    ensures Num(b58[..], 58) == Num(rest, 256)
  {
    var size := |rest| * 138 / 100 + 1;
    EncodeRoom(|rest|);
    b58 := new nat[size](_ => 0);
    length := 0;
    NumSkipZeros(b58[..], 58, size);
    assert b58[..][size..] == [];
    for k := 0 to |rest|
      invariant fresh(b58) && b58.Length == size
      invariant Digits(b58[..], 58) && ZerosBefore(b58[..], length)
      invariant Num(b58[..], 58) == Num(rest[..k], 256)
    {
      StillFits(rest, 256, k, 58, size);
      length := MulAdd(b58, length, 256, 58, rest[k]);
    }
    assert rest[..|rest|] == rest;
  }

  method EncodeBase58(v: seq<Byte>) returns (str: string)
    ensures str == Encode(v)
  {
    var zeroes := CountZeros(v);
    var b58, length := ToBase58(v[zeroes..]);
    var it := SkipZeros(b58, b58.Length - length);
    TrimmedIsMinimal(b58[..], 58, it);
    assert b58[..][it..] == b58[it..];
    str := SpellFrom(b58, it, seq(zeroes, _ => '1'));
  }

  method CountZeros(v: seq<Byte>) returns (zeroes: nat)
    ensures zeroes == LeadZeros(v)
  {
    zeroes := 0;
    while zeroes < |v| && v[zeroes] == 0
      invariant 0 <= zeroes <= |v| && zeroes + LeadZeros(v[zeroes..]) == LeadZeros(v)
    {
      assert v[zeroes..][1..] == v[zeroes + 1..];
      zeroes := zeroes + 1;
    }
  }

  method SpellFrom(b58: array<nat>, start: nat, ones: string) returns (str: string)
    requires start <= b58.Length && Digits(b58[start..], 58)
    ensures str == ones + Spell(b58[start..])
  {
    ghost var word := Spell(b58[start..]);
    str := ones;
    for it := start to b58.Length
      invariant str == ones + word[..it - start]
    {
      assert b58[start..][it - start] == b58[it];
      SymbolsAreAlphabet(b58[it]);
      str := str + [ALPHABET[b58[it]]];
    }
    assert word[..|word|] == word;
  }

  // ---------------------------------------------------------------- decoding

  function Word(psz: string, start: nat): string
    requires start <= |psz|
  {
    psz[start..][..WordLength(psz[start..])]
  }

  /** The characters from start to end are digits of the word and not yet its whole. */
  ghost predicate Reading(psz: string, start: nat, end: nat, digits: seq<nat>) {
    && start <= end <= |psz| && |digits| == end - start && Digits(digits, 58)
    && |digits| + WordLength(psz[end..]) == WordLength(psz[start..])
    && forall i :: 0 <= i < |digits| ==> Find(psz[start + i]) == Some(digits[i])
  }

  lemma ReadingStep(psz: string, start: nat, end: nat, digits: seq<nat>)
    requires Reading(psz, start, end, digits) && end < |psz| && !IsSpace(psz[end])
    ensures Find(psz[end]).None? ==> Read(Word(psz, start)).None?
    ensures Find(psz[end]).Some? ==>
      Find(psz[end]).value < 58 && Reading(psz, start, end + 1, digits + [Find(psz[end]).value])
  {
    SymbolFound(psz[end]);
    assert psz[end..][1..] == psz[end + 1..];
    assert Word(psz, start)[end - start] == psz[end];
  }

  lemma ReadingEnd(psz: string, start: nat, end: nat, digits: seq<nat>)
    requires Reading(psz, start, end, digits) && (end == |psz| || IsSpace(psz[end]))
    ensures Read(Word(psz, start)) == Some(digits) && end == start + WordLength(psz[start..])
  {
    var word := Word(psz, start);
    assert WordLength(psz[end..]) == 0;
    assert forall i :: 0 <= i < |word| ==> word[i] == psz[start + i];
    ReadIs(word, digits);
  }

  /** The middle loop: characters up to white space or the end, each multiplied in; none for a foreign character. */
  method FromBase58(psz: string, start: nat) returns (b256: array<nat>, length: nat, end: nat, ok: bool)
    requires start <= |psz|
    ensures ok <==> Read(Word(psz, start)).Some?
    ensures ok ==>
      && Digits(b256[..], 256) && ZerosBefore(b256[..], length)
      && end == start + WordLength(psz[start..])
      && Num(b256[..], 256) == Num(Read(Word(psz, start)).value, 58)
  {
    var n := |psz| - start;
    var size := n * 733 / 1000 + 1;
    b256 := new nat[size](_ => 0);
    length, end := 0, start;
    NumSkipZeros(b256[..], 256, size);
    assert b256[..][size..] == [];
    ghost var digits: seq<nat> := [];
    DecodeRoom(n);
    while end < |psz| && !IsSpace(psz[end])
      invariant Reading(psz, start, end, digits)
      invariant fresh(b256) && b256.Length == size
      invariant Digits(b256[..], 256) && ZerosBefore(b256[..], length)
      invariant Num(b256[..], 256) == Num(digits, 58)
      decreases |psz| - end
    {
      ReadingStep(psz, start, end, digits);
      var found := Find(psz[end]);
      if found.None? {
        return b256, length, end, false;
      }
      length := AddSymbol(b256, length, found.value, digits, n);
      digits := digits + [found.value];
      end := end + 1;
    }
    ok := true;
    ReadingEnd(psz, start, end, digits);
  }

  /** One more character multiplied in. */
  method AddSymbol(b256: array<nat>, length: nat, d: nat, ghost digits: seq<nat>, ghost n: nat) returns (used: nat)
    requires d < 58 && Digits(digits, 58) && |digits| < n && Pow(58, n) <= Pow(256, b256.Length)
    requires Digits(b256[..], 256) && ZerosBefore(b256[..], length) && Num(b256[..], 256) == Num(digits, 58)
    modifies b256
    ensures Digits(b256[..], 256) && ZerosBefore(b256[..], used)
    ensures Num(b256[..], 256) == Num(digits + [d], 58) && Digits(digits + [d], 58)
  {
    Appended(digits, d, n, b256.Length);
    used := MulAdd(b256, length, 58, 256, d);
  }

  lemma Appended(digits: seq<nat>, d: nat, n: nat, size: nat)
    requires Digits(digits, 58) && d < 58 && |digits| < n && Pow(58, n) <= Pow(256, size)
    ensures Num(digits + [d], 58) == Num(digits, 58) * 58 + d < Pow(256, size)
  {
    var more := digits + [d];
    assert more[..|digits|] == digits;
    NumBound(more, 58);
    PowMonotone(58, |more|, n);
  }

  lemma ReadIs(word: string, digits: seq<nat>)
    requires |digits| == |word| && forall i :: 0 <= i < |word| ==> Find(word[i]) == Some(digits[i])
    ensures Read(word) == Some(digits)
  {
    assert Read(word).Some?;
    assert Read(word).value == digits;
  }

  method SkipSpaces(psz: string, start: nat) returns (i: nat)
    requires start <= |psz|
    ensures i == start + LeadSpaces(psz[start..])
  {
    i := start;
    while i < |psz| && IsSpace(psz[i])
      invariant start <= i <= |psz| && i + LeadSpaces(psz[i..]) == start + LeadSpaces(psz[start..])
    {
      assert psz[i..][1..] == psz[i + 1..];
      i := i + 1;
    }
  }

  method CountOnes(psz: string, start: nat) returns (zeroes: nat)
    requires start <= |psz|
    ensures zeroes == LeadOnes(psz[start..])
  {
    zeroes := 0;
    while start + zeroes < |psz| && psz[start + zeroes] == '1'
      invariant start + zeroes <= |psz| && zeroes + LeadOnes(psz[start + zeroes..]) == LeadOnes(psz[start..])
    {
      assert psz[start + zeroes..][1..] == psz[start + zeroes + 1..];
      zeroes := zeroes + 1;
    }
  }

  /** `DecodeBase58` on the characters before the terminating NUL. */
  method DecodeBase58(psz: string) returns (vch: Option<seq<nat>>)
    ensures vch == Decode(psz)
  {
    var first := SkipSpaces(psz, 0);
    assert psz[0..] == psz;
    ghost var t := psz[first..];
    var zeroes := CountOnes(psz, first);
    var i := first + zeroes;
    ghost var u := t[zeroes..];
    assert psz[i..] == u;
    var b256, length, end, ok := FromBase58(psz, i);
    if !ok {
      return None;
    }
    assert psz[end..] == u[WordLength(u)..];
    end := SkipSpaces(psz, end);
    if end != |psz| {
      return None;
    }
    var it := SkipZeros(b256, b256.Length - length);
    TrimmedIsMinimal(b256[..], 256, it);
    assert b256[..][it..] == b256[it..];
    return Some(seq(zeroes, _ => 0) + b256[it..]);
  }

  // ---------------------------------------------------------------- with checksum

  /** `EncodeBase58Check`; `hash` is the double hash, of which the first four bytes are appended. */
  function EncodeCheck(hash: seq<Byte> -> seq<Byte>, v: seq<Byte>): string
    requires |hash(v)| >= 4
  {
    Encode(v + hash(v)[..4])
  }

  lemma DecodesToBytes(s: string)
    ensures Decode(s).Some? ==> AllBytes(Decode(s).value)
  {
    if Decode(s).Some? { EncodeDecode(s); }
  }

  function DecodeCheck(hash: seq<Byte> -> seq<Byte>, s: string): Option<seq<Byte>>
    requires forall v :: |hash(v)| >= 4
  {
    match Decode(s)
    case None => None
    case Some(bytes) =>
      DecodesToBytes(s);
      if |bytes| < 4 then None
      else
        var body := bytes[..|bytes| - 4];
        if hash(body)[..4] == bytes[|bytes| - 4..] then Some(body) else None
  }

  /** Checked decoding succeeds exactly on strings that decode to a body followed by the body's own checksum. */
  lemma CheckIff(hash: seq<Byte> -> seq<Byte>, s: string, v: seq<Byte>)
    requires forall w :: |hash(w)| >= 4
    ensures DecodeCheck(hash, s) == Some(v) <==> Decode(s) == Some(v + hash(v)[..4])
    ensures DecodeCheck(hash, EncodeCheck(hash, v)) == Some(v)
  {
    var full := v + hash(v)[..4];
    assert full[..|full| - 4] == v && full[|full| - 4..] == hash(v)[..4];
    DecodeEncode(full);
    if DecodeCheck(hash, s) == Some(v) {
      var bytes := Decode(s).value;
      assert bytes == bytes[..|bytes| - 4] + bytes[|bytes| - 4..];
    }
  }
}
