/** The two integer codes of src/serialize.h: VarInt, a base-128 code in which each value has one spelling, and
    CompactSize, a tagged little-endian size. Streams are byte sequences. */
module Serialize {
  import opened Options
  import opened Arithmetic
  import opened Limbs
  import opened Sequences

  // ---------------------------------------------------------------- VarInt as a function

  /** The bytes of n before its last septet: that of n / 128 - 1, each with the high bit set. */
  function Lead(n: nat): seq<Byte>
    decreases n, 0
  {
    if n <= 0x7F then [] else Cont(n / 128 - 1)
  }

  function Cont(n: nat): seq<Byte>
    decreases n, 1
  {
    Lead(n) + [n % 128 + 128]
  }

  function Enc(n: nat): seq<Byte> {
    Lead(n) + [n % 128]
  }

  /** What a stream holds after `acc` has been read, with unbounded integers: the value and the bytes left. */
  function Dec(acc: nat, bytes: seq<Byte>): Option<(nat, seq<Byte>)>
    decreases bytes
  {
    if bytes == [] then None
    else
      var n := acc * 128 + bytes[0] % 128;
      if bytes[0] >= 128 then Dec(n + 1, bytes[1..]) else Some((n, bytes[1..]))
  }

  lemma Septet(acc: nat, low: nat)
    requires low < 128
    ensures (acc * 128 + low) / 128 == acc && (acc * 128 + low) % 128 == low
  {
  }

  /** What leads a number is what was read before its last septet. */
  lemma LeadOf(acc: nat, low: nat)
    requires low < 128
    ensures Lead(acc * 128 + low) == if acc == 0 then [] else Cont(acc - 1)
  {
    Septet(acc, low);
  }

  lemma DecByte(acc: nat, b: Byte, suffix: seq<Byte>)
    ensures
      var n := acc * 128 + b % 128;
      Dec(acc, [b] + suffix) == if b >= 128 then Dec(n + 1, suffix) else Some((n, suffix))
  {
    assert ([b] + suffix)[1..] == suffix;
  }

  /** Reading what leads n brings back all but its last septet. */
  lemma {:induction false} DecLead(n: nat, suffix: seq<Byte>)
    ensures Dec(0, Lead(n) + suffix) == Dec(n / 128, suffix)
    decreases n
  {
    if n > 0x7F {
      var k := n / 128 - 1;
      var b: Byte := k % 128 + 128;
      assert Lead(n) + suffix == Lead(k) + ([b] + suffix);
      DecLead(k, [b] + suffix);
      DecByte(k / 128, b, suffix);
    } else {
      assert Lead(n) + suffix == suffix;
    }
  }

  /** Reading undoes writing, whatever follows. */
  lemma DecEnc(n: nat, suffix: seq<Byte>)
    ensures Dec(0, Enc(n) + suffix) == Some((n, suffix))
  {
    assert Enc(n) + suffix == Lead(n) + ([n % 128] + suffix);
    DecLead(n, [n % 128] + suffix);
    DecByte(n / 128, n % 128, suffix);
  }

  /** Bytes that read as a value are that value's encoding: the code is one-to-one. */
  lemma {:induction false} EncDec(acc: nat, bytes: seq<Byte>)
    requires Dec(acc, bytes).Some?
    ensures
      var (n, rest) := Dec(acc, bytes).value;
      Before(acc) + bytes == Enc(n) + rest
    decreases |bytes|
  {
    var b, rest, before := bytes[0], bytes[1..], Before(acc);
    OneByte(acc, b);
    assert before + bytes == (before + [b]) + rest;
    if b >= 128 { EncDec(acc * 128 + b % 128 + 1, rest); }
  }

  /** What has been read when `acc` is held. */
  function Before(acc: nat): seq<Byte> {
    if acc == 0 then [] else Cont(acc - 1)
  }

  /** One byte more: what is then held is encoded by what was read and the byte. */
  lemma OneByte(acc: nat, b: Byte)
    ensures
      var v := acc * 128 + b % 128;
      if b >= 128 then Before(v + 1) == Before(acc) + [b] else Enc(v) == Before(acc) + [b]
  {
    LeadOf(acc, b % 128);
    Septet(acc, b % 128);
  }

  /** The weight of all bytes but the last: 128^i times one more than the septet, for the i-th from the end. */
  function Weighted(lead: seq<Byte>): nat {
    if lead == [] then 0 else 128 * Weighted(lead[..|lead| - 1]) + 128 * (1 + lead[|lead| - 1] as int % 128)
  }

  lemma {:induction false} LeadWeighs(n: nat)
    ensures Weighted(Lead(n)) == n - n % 128
  {
    if n > 0x7F {
      var k := n / 128 - 1;
      LeadWeighs(k);
      assert Lead(n) == Lead(k) + [k % 128 + 128];
      assert Lead(n)[..|Lead(n)| - 1] == Lead(k);
    }
  }

  /** The number a byte sequence stands for, as the format defines it: the last septet and the weights before it. */
  lemma EncFormula(n: nat)
    ensures
      var bytes := Enc(n);
      && n == bytes[|bytes| - 1] % 128 + Weighted(bytes[..|bytes| - 1])
      && bytes[|bytes| - 1] < 128 && forall i :: 0 <= i < |bytes| - 1 ==> bytes[i] >= 128
  {
    LeadWeighs(n);
    LeadHigh(n);
    assert Enc(n)[..|Enc(n)| - 1] == Lead(n);
  }

  lemma {:induction false} LeadHigh(n: nat)
    ensures forall i :: 0 <= i < |Lead(n)| ==> Lead(n)[i] >= 128
  {
    if n > 0x7F {
      var k := n / 128 - 1;
      LeadHigh(k);
      assert Lead(n) == Lead(k) + [k % 128 + 128];
    }
  }

  /** The examples that document the format. */
  lemma DocumentedExamples()
    ensures Enc(0) == [0x00] && Enc(127) == [0x7F] && Enc(128) == [0x80, 0x00] && Enc(255) == [0x80, 0x7F]
    ensures Enc(256) == [0x81, 0x00] && Enc(16383) == [0xFE, 0x7F] && Enc(16384) == [0xFF, 0x00]
    ensures Enc(65535) == [0x82, 0xFE, 0x7F]
  {
    assert Lead(128) == [0x80] && Lead(255) == [0x80] && Lead(256) == [0x81];
    assert Lead(16383) == [0xFE] && Lead(16384) == [0xFF];
    assert Lead(510) == [0x82];
    assert Lead(65535) == [0x82, 0xFE];
  }

  /** No encoding is a proper prefix of another. */
  lemma PrefixFree(m: nat, n: nat)
    requires Enc(m) <= Enc(n)
    ensures m == n
  {
    var rest := Enc(n)[|Enc(m)|..];
    DecEnc(m, rest);
    DecEnc(n, []);
    assert Enc(m) + rest == Enc(n) + [];
  }

  /** A value of w bits needs at most (w + 6) / 7 bytes, the size of the temporary buffer. */
  lemma {:induction false} ContLength(n: nat, w: nat)
    requires w > 0 && n < Pow2(w)
    ensures |Cont(n)| <= (w + 6) / 7
    decreases n
  {
    if n > 0x7F {
      assert Pow2(7) == 128;
      if w <= 7 { Pow2Monotone(w, 7); }
      Pow2Add(w - 7, 7);
      ContLength(n / 128 - 1, w - 7);
    }
  }

  lemma EncLength(n: nat, w: nat)
    requires w > 0 && n < Pow2(w)
    ensures |Enc(n)| == |Cont(n)| && 1 <= |Enc(n)| <= (w + 6) / 7
  {
    ContLength(n, w);
  }

  // ---------------------------------------------------------------- VarInt as loops

  method GetSizeOfVarInt(n: nat) returns (size: nat)
    ensures size == |Enc(n)|
  {
    size := 1;
    var m := n;
    while m > 0x7F
      invariant size - 1 + |Cont(m)| == |Enc(n)|
      decreases m
    {
      m := m / 128 - 1;
      size := size + 1;
    }
  }

  /** What is still to be written when the temporary buffer holds len bytes. */
  function Ahead(m: nat, len: nat): seq<Byte> {
    if len == 0 then Enc(m) else Cont(m)
  }

  /** The temporary buffer holds the last bytes, backwards; `ahead` are those before. */
  ghost predicate Filling(goal: seq<Byte>, ahead: seq<Byte>, tmp: seq<Byte>) {
    goal == ahead + Reversed(tmp)
  }

  /** The last septet of m, as the loop writes it. */
  function LastByte(m: nat, len: nat): Byte {
    m % 128 + if len > 0 then 128 else 0
  }

  lemma AheadEnds(m: nat, len: nat)
    ensures Ahead(m, len) == Lead(m) + [LastByte(m, len)]
  {
  }

  lemma AheadMoves(m: nat, len: nat)
    requires m > 0x7F
    ensures Lead(m) == Ahead(m / 128 - 1, len + 1) && Ahead(m / 128 - 1, len + 1) != []
  {
  }

  /** One more byte in the temporary buffer. */
  lemma FillStep(goal: seq<Byte>, ahead: seq<Byte>, b: Byte, tmp: seq<Byte>)
    requires Filling(goal, ahead + [b], tmp)
    ensures Filling(goal, ahead, tmp + [b])
  {
    ReversedSnoc(tmp, b);
    assert (ahead + [b]) + Reversed(tmp) == ahead + ([b] + Reversed(tmp));
  }

  /** The first loop of `WriteVarInt`, for an unsigned type of w bits: the buffer never overflows. */
  method FillVarInt(n: nat, w: nat) returns (tmp: array<Byte>, count: nat)
    requires w > 0 && n < Pow2(w)
    ensures 0 < count <= tmp.Length == (w + 6) / 7 && Reversed(tmp[..count]) == Enc(n)
  {
    tmp := new Byte[(w + 6) / 7];
    EncLength(n, w);
    var len, m := 0, n;
    ghost var goal := Enc(n);
    while true
      invariant 0 <= len < |goal| <= tmp.Length && Filling(goal, Ahead(m, len), tmp[..len])
      decreases m
    {
      PutSeptet(tmp, m, len, goal);
      if m <= 0x7F {
        break;
      }
      m := m / 128 - 1;
      len := len + 1;
    }
    count := len + 1;
  }

  method PutSeptet(tmp: array<Byte>, m: nat, len: nat, ghost goal: seq<Byte>)
    requires len < |goal| <= tmp.Length && Filling(goal, Ahead(m, len), tmp[..len])
    modifies tmp
    ensures m <= 0x7F ==> Reversed(tmp[..len + 1]) == goal
    ensures m > 0x7F ==> len + 1 < |goal| && Filling(goal, Ahead(m / 128 - 1, len + 1), tmp[..len + 1])
  {
    ghost var before := tmp[..len];
    AheadEnds(m, len);
    FillStep(goal, Lead(m), LastByte(m, len), before);
    tmp[len] := LastByte(m, len);
    assert tmp[..len + 1] == before + [LastByte(m, len)];
    if m > 0x7F {
      AheadMoves(m, len);
      ReversedLength(tmp[..len + 1]);
    }
  }

  /** `WriteVarInt`. */
  method WriteVarInt(n: nat, w: nat) returns (bytes: seq<Byte>)
    requires w > 0 && n < Pow2(w)
    ensures bytes == Enc(n)
  {
    var tmp, left := FillVarInt(n, w);
    bytes := [];
    while left > 0
      invariant 0 <= left <= tmp.Length && Enc(n) == bytes + Reversed(tmp[..left])
    {
      left := left - 1;
      assert tmp[..left + 1] == tmp[..left] + [tmp[left]];
      ReversedSnoc(tmp[..left], tmp[left]);
      bytes := bytes + [tmp[left]];
    }
  }

  /** `(n << 7) | c` in w bits. */
  method ShiftSeptet(n: nat, c: nat, w: nat, ghost acc: nat) returns (r: nat)
    requires w >= 8 && c < 128 && n == acc % Pow2(w)
    ensures r == (acc * 128 + c) % Pow2(w)
  {
    ShiftIn(acc, c, w);
    r := BitOr((n * 128) % Pow2(w), c);
  }

  /** `n++` in w bits. */
  method PlusOne(n: nat, w: nat, ghost acc: nat) returns (r: nat)
    requires w >= 8 && n == acc % Pow2(w)
    ensures r == (acc + 1) % Pow2(w)
  {
    Pow2Monotone(1, w);
    Wraps(acc, Pow2(w));
    r := (n + 1) % Pow2(w);
  }

  /** `ReadVarInt` for an unsigned type of w bits, which shifts and increments modulo 2^w; None at the end of the
      stream. It reads the same bytes as Dec and returns the value modulo 2^w. */
  method ReadVarInt(stream: seq<Byte>, w: nat) returns (r: Option<(nat, seq<Byte>)>)
    requires w >= 8
    ensures r.None? <==> Dec(0, stream).None?
    ensures r.Some? ==> r.value.0 == Dec(0, stream).value.0 % Pow2(w) && r.value.1 == Dec(0, stream).value.1
  {
    var n: nat, pos := 0, 0;
    ghost var acc: nat := 0;
    SmallMod(0, Pow2(w));
    while pos < |stream|
      invariant 0 <= pos <= |stream| && n == acc % Pow2(w)
      invariant Dec(acc, stream[pos..]) == Dec(0, stream)
    {
      var ch := stream[pos];
      assert stream[pos..][1..] == stream[pos + 1..];
      ghost var next := acc * 128 + ch % 128;
      n := ShiftSeptet(n, ch % 128, w, acc);
      pos := pos + 1;
      if ch >= 128 {
        n := PlusOne(n, w, next);
        acc := next + 1;
      } else {
        return Some((n, stream[pos..]));
      }
    }
    return None;
  }

  lemma Wraps(x: nat, m: nat)
    requires m > 1
    ensures (x % m + 1) % m == (x + 1) % m
  {
    var q, r := x / m, x % m;
    if r + 1 < m {
      DivUnique(x + 1, m, q, r + 1);
    } else {
      assert (q + 1) * m == q * m + m;
      DivUnique(x + 1, m, q + 1, 0);
    }
  }

  /** One septet shifted in, modulo 2^w. */
  lemma ShiftIn(acc: nat, c: nat, w: nat)
    requires w >= 8 && c < 128
    ensures ((acc % Pow2(w)) * 128) % Pow2(w) >= 0
    ensures BitOr(((acc % Pow2(w)) * 128) % Pow2(w), c) == (acc * 128 + c) % Pow2(w)
  {
    assert Pow2(7) == 128;
    Pow2Add(w - 7, 7);
    var t := ShiftInArith(acc, c, Pow2(w), Pow2(w - 7));
    OrCommutes(t, c);
    OrIsSum(c, t, 7);
  }

  lemma ShiftInArith(acc: nat, c: nat, m: nat, k: nat) returns (t: nat)
    requires m == k * 128 && k > 0 && c < 128
    ensures t == ((acc % m) * 128) % m && t % 128 == 0 && t + c == (acc * 128 + c) % m
  {
    var q, r := acc / m, acc % m;
    var p := r / k;
    t := (r % k) * 128;
    assert r == p * k + r % k;
    assert r * 128 == p * m + t by { assert (p * k) * 128 == p * (k * 128); }
    DivUnique(r * 128, m, p, t);
    assert acc == q * m + r;
    assert acc * 128 + c == (q * 128 + p) * m + (t + c) by {
      assert (q * m) * 128 == (q * 128) * m;
      Distribute(q * 128, p, m);
    }
    DivUnique(acc * 128 + c, m, q * 128 + p, t + c);
  }

  /** The bytes are the encoding of the value read exactly when the number they spell fits the type. */
  lemma OnlySpellingIff(stream: seq<Byte>, w: nat)
    requires Dec(0, stream).Some?
    ensures
      var (n, rest) := Dec(0, stream).value;
      stream == Enc(n % Pow2(w)) + rest <==> n < Pow2(w)
  {
    var (n, rest) := Dec(0, stream).value;
    EncDec(0, stream);
    if n < Pow2(w) {
      SmallMod(n, Pow2(w));
    } else if stream == Enc(n % Pow2(w)) + rest {
      DecEnc(n % Pow2(w), rest);
    }
  }

  /** Without that bound a value has a second spelling: the encoding of 2^w also reads as zero. */
  lemma SecondSpelling(w: nat)
    requires w >= 8
    ensures Enc(Pow2(w)) != Enc(0)
    ensures Dec(0, Enc(Pow2(w))).Some? && Dec(0, Enc(Pow2(w))).value.0 % Pow2(w) == 0
  {
    DecEnc(Pow2(w), []);
    DecEnc(0, []);
    assert Enc(Pow2(w)) + [] == Enc(Pow2(w)) && Enc(0) + [] == Enc(0);
    MultipleMod(1, Pow2(w));
  }

  // ---------------------------------------------------------------- CompactSize

  const MAX_SIZE := 0x0200_0000

  function LittleEndian(n: nat, width: nat): seq<Byte>
    decreases width
  {
    if width == 0 then [] else [n % 256] + LittleEndian(n / 256, width - 1)
  }

  function FromLittleEndian(bytes: seq<Byte>): nat {
    if bytes == [] then 0 else bytes[0] + 256 * FromLittleEndian(bytes[1..])
  }

  lemma EightMore(k: nat)
    ensures Pow2(8 * (k + 1)) == 256 * Pow2(8 * k)
  {
    assert Pow2(8) == 256;
    Pow2Add(8, 8 * k);
  }

  lemma FrontByte(b: Byte, v: nat)
    ensures (b + 256 * v) / 256 == v && (b + 256 * v) % 256 == b
  {
  }

  lemma {:induction false} LittleEndianBack(n: nat, width: nat)
    requires n < Pow2(8 * width)
    ensures |LittleEndian(n, width)| == width && FromLittleEndian(LittleEndian(n, width)) == n
    decreases width
  {
    if width > 0 {
      EightMore(width - 1);
      LittleEndianBack(n / 256, width - 1);
      assert LittleEndian(n, width)[1..] == LittleEndian(n / 256, width - 1);
    }
  }

  lemma {:induction false} LittleEndianForth(bytes: seq<Byte>)
    ensures LittleEndian(FromLittleEndian(bytes), |bytes|) == bytes
    ensures FromLittleEndian(bytes) < Pow2(8 * |bytes|)
  {
    if bytes != [] {
      LittleEndianForth(bytes[1..]);
      FrontByte(bytes[0], FromLittleEndian(bytes[1..]));
      EightMore(|bytes| - 1);
      assert bytes == [bytes[0]] + bytes[1..];
    }
  }

  /** `WriteCompactSize`. */
  function WriteCompact(n: nat): seq<Byte> {
    if n < 253 then [n]
    else if n <= 0xFFFF then [253] + LittleEndian(n, 2)
    else if n <= 0xFFFF_FFFF then [254] + LittleEndian(n, 4)
    else [255] + LittleEndian(n, 8)
  }

  function SizeOfCompact(n: nat): nat {
    if n < 253 then 1 else if n <= 0xFFFF then 3 else if n <= 0xFFFF_FFFF then 5 else 9
  }

  datatype CompactResult = Size(n: nat, rest: seq<Byte>) | EndOfStream | NonCanonical | TooLarge

  function ReadWide(stream: seq<Byte>, width: nat, least: nat): CompactResult {
    if |stream| < 1 + width then EndOfStream
    else
      var n := FromLittleEndian(stream[1..1 + width]);
      if n < least then NonCanonical
      else if n > MAX_SIZE then TooLarge
      else Size(n, stream[1 + width..])
  }

  /** `ReadCompactSize`: the shortest form only, and nothing above MAX_SIZE. */
  function ReadCompact(stream: seq<Byte>): CompactResult {
    if stream == [] then EndOfStream
    else if stream[0] < 253 then Size(stream[0], stream[1..])
    else if stream[0] == 253 then ReadWide(stream, 2, 253)
    else if stream[0] == 254 then ReadWide(stream, 4, 0x1_0000)
    else ReadWide(stream, 8, 0x1_0000_0000)
  }

  lemma ReadWideBack(tag: Byte, n: nat, width: nat, least: nat, suffix: seq<Byte>)
    requires n < Pow2(8 * width) && n >= least
    ensures ReadWide([tag] + LittleEndian(n, width) + suffix, width, least)
         == if n > MAX_SIZE then TooLarge else Size(n, suffix)
  {
    LittleEndianBack(n, width);
    var stream := [tag] + LittleEndian(n, width) + suffix;
    assert stream[1..1 + width] == LittleEndian(n, width) && stream[1 + width..] == suffix;
  }

  /** Every 64-bit size reads back, whatever follows, unless it is above MAX_SIZE, which is refused; the size function
      counts the bytes. */
  lemma CompactBack(n: nat, suffix: seq<Byte>)
    requires n < Pow2(64)
    ensures |WriteCompact(n)| == SizeOfCompact(n)
    ensures ReadCompact(WriteCompact(n) + suffix) == if n > 0x0200_0000 then TooLarge else Size(n, suffix)
  {
    SmallPowers();
    Pow2Is32();
    Pow2Is64();
    if n < 253 {
      assert (WriteCompact(n) + suffix)[1..] == suffix;
    } else if n <= 0xFFFF {
      LittleEndianBack(n, 2);
      ReadWideBack(253, n, 2, 253, suffix);
    } else if n <= 0xFFFF_FFFF {
      LittleEndianBack(n, 4);
      ReadWideBack(254, n, 4, 0x1_0000, suffix);
    } else {
      LittleEndianBack(n, 8);
      ReadWideBack(255, n, 8, 0x1_0000_0000, suffix);
    }
  }

  lemma ReadWideForth(stream: seq<Byte>, width: nat, least: nat)
    requires stream != [] && ReadWide(stream, width, least).Size?
    ensures
      var r := ReadWide(stream, width, least);
      && least <= r.n < Pow2(8 * width)
      && stream == [stream[0]] + LittleEndian(r.n, width) + r.rest
  {
    LittleEndianForth(stream[1..1 + width]);
    assert stream == [stream[0]] + stream[1..1 + width] + stream[1 + width..];
  }

  /** The form by size: the number itself below 253, else a tag and two, four or eight bytes. */
  lemma CompactForms(n: nat)
    requires n < Pow2(64)
    ensures n < 253 ==> WriteCompact(n) == [n]
    ensures 253 <= n < 0x1_0000 ==> |WriteCompact(n)| == 3 && WriteCompact(n)[0] == 253
    ensures 0x1_0000 <= n < 0x1_0000_0000 ==> |WriteCompact(n)| == 5 && WriteCompact(n)[0] == 254
    ensures n >= 0x1_0000_0000 ==> |WriteCompact(n)| == 9 && WriteCompact(n)[0] == 255
    ensures n >= 253 ==> FromLittleEndian(WriteCompact(n)[1..]) == n
  {
    SmallPowers();
    Pow2Is32();
    Pow2Is64();
    var width := if n < 0x1_0000 then 2 else if n < 0x1_0000_0000 then 4 else 8;
    LittleEndianBack(n, width);
    assert n >= 253 ==> WriteCompact(n)[1..] == LittleEndian(n, width);
  }

  /** Bytes that read as a size are exactly what writing that size produces: one spelling each. */
  lemma CompactForth(stream: seq<Byte>)
    requires ReadCompact(stream).Size?
    ensures stream == WriteCompact(ReadCompact(stream).n) + ReadCompact(stream).rest
  {
    SmallPowers();
    Pow2Is32();
    Pow2Is64();
    if stream[0] < 253 {
    } else if stream[0] == 253 {
      ReadWideForth(stream, 2, 253);
    } else if stream[0] == 254 {
      ReadWideForth(stream, 4, 0x1_0000);
    } else {
      ReadWideForth(stream, 8, 0x1_0000_0000);
    }
  }
}
