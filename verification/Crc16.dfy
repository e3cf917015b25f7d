/** CRC-16/CCITT-FALSE (polynomial 0x1021, initial value 0xffff) and its error detection. */
module Crc16 {
  import opened Bytes

  const POLYNOMIAL: u16 := 0x1021

  function Xor16(a: u16, b: u16): u16 {
    PowersOfTwo();
    XorBound(a, b, 16);
    Xor(a, b, 16)
  }

  function ShiftOnce(crc: u16): u16 {
    if crc >= 0x8000 then Xor16(2 * (crc as int) - 0x1_0000, POLYNOMIAL) else 2 * (crc as int)
  }

  function Shift(crc: u16, n: nat): u16 {
    if n == 0 then crc else ShiftOnce(Shift(crc, n - 1))
  }

  function High(v: byte): u16 { 0x100 * (v as int) }

  function FeedByte(crc: u16, v: byte): u16 {
    Shift(Xor16(crc, High(v)), 8)
  }

  function Feed(crc: u16, b: seq<byte>): u16 {
    if |b| == 0 then crc else FeedByte(Feed(crc, b[..|b| - 1]), b[|b| - 1])
  }

  function CRC16(b: seq<byte>): u16 {
    Feed(0xffff, b)
  }

  method ComputeCRC16(b: seq<byte>) returns (crc: u16)
    ensures crc == CRC16(b) && IsRemainder(b, crc)
  {
    hide Xor16, IsRemainder;
    ChecksumIsRemainder(b, CRC16(b));
    crc := 0xffff;
    for i := 0 to |b|
      invariant crc == Feed(0xffff, b[..i])
    {
      assert b[..i + 1][..i] == b[..i];
      ghost var before := Xor16(crc, High(b[i]));
      crc := Xor16(crc, High(b[i]));
      for j := 0 to 8
        invariant crc == Shift(before, j)
      {
        if crc >= 0x8000 {
          crc := Xor16(2 * (crc as int) - 0x1_0000, POLYNOMIAL);
        } else {
          crc := 2 * (crc as int);
        }
      }
    }
    assert b[..|b|] == b;
  }

  // ---- the register step is injective and linear ----

  lemma ShiftOnceParity(x: u16)
    ensures ShiftOnce(x) % 2 == x / 0x8000
  {
    hide Xor;
    if x >= 0x8000 {
      XorStep(2 * x - 0x1_0000, POLYNOMIAL, 16);
    }
  }

  lemma ShiftOnceInjective(x: u16, y: u16)
    requires ShiftOnce(x) == ShiftOnce(y)
    ensures x == y
  {
    hide Xor;
    ShiftOnceParity(x);
    ShiftOnceParity(y);
    if x >= 0x8000 {
      PowersOfTwo();
      XorCancel(2 * x - 0x1_0000, POLYNOMIAL, 16);
      XorCancel(2 * y - 0x1_0000, POLYNOMIAL, 16);
    }
  }

  lemma {:induction false} ShiftInjective(x: u16, y: u16, n: nat)
    requires Shift(x, n) == Shift(y, n)
    ensures x == y
  {
    hide ShiftOnce;
    if n > 0 {
      ShiftOnceInjective(Shift(x, n - 1), Shift(y, n - 1));
      ShiftInjective(x, y, n - 1);
    }
  }

  lemma Xor16Laws(a: u16, b: u16, c: u16)
    ensures Xor16(a, b) == Xor16(b, a)
    ensures Xor16(Xor16(a, b), c) == Xor16(a, Xor16(b, c))
    ensures Xor16(Xor16(a, b), b) == a && Xor16(a, 0) == a && Xor16(a, a) == 0
  {
    PowersOfTwo();
    XorCommutes(a, b, 16);
    XorAssociates(a, b, c, 16);
    XorCancel(a, b, 16);
    XorZero(a, 16);
    XorCommutes(0, a, 16);
    XorCancel(0, a, 16);
  }

  lemma Medial(a: u16, p: u16, b: u16, q: u16)
    ensures Xor16(Xor16(a, p), Xor16(b, q)) == Xor16(Xor16(a, b), Xor16(p, q))
  {
    hide Xor16;
    Xor16Laws(a, p, Xor16(b, q));
    Xor16Laws(p, b, q);
    Xor16Laws(b, p, q);
    Xor16Laws(a, b, Xor16(p, q));
  }

  /** The shifted register before the polynomial is applied. */
  function Doubled(x: u16): u16 { 2 * (x as int) % 0x1_0000 }

  function Reduction(x: u16): u16 { if x >= 0x8000 then POLYNOMIAL else 0 }

  lemma ShiftOnceSplit(x: u16)
    ensures ShiftOnce(x) == Xor16(Doubled(x), Reduction(x))
  {
    hide Xor;
    PowersOfTwo();
    XorZero(Doubled(x), 16);
  }

  lemma TopBitXor(x: u16, y: u16)
    ensures Xor16(x, y) == Xor(x % 0x8000, y % 0x8000, 15)
                           + if (x >= 0x8000) != (y >= 0x8000) then 0x8000 else 0
    ensures Xor(x % 0x8000, y % 0x8000, 15) < 0x8000
  {
    hide Xor, Pow2;
    PowersOfTwo();
    Pow2Step(15);
    XorTopBit(x % 0x8000, x >= 0x8000, y % 0x8000, y >= 0x8000, 15);
    XorBound(x % 0x8000, y % 0x8000, 15);
  }

  lemma DoubledXor(x: u16, y: u16)
    ensures Doubled(Xor16(x, y)) == Xor16(Doubled(x), Doubled(y))
    ensures Xor16(x, y) >= 0x8000 <==> (x >= 0x8000) != (y >= 0x8000)
  {
    hide Xor, Pow2;
    var a, b := x % 0x8000, y % 0x8000;
    TopBitXor(x, y);
    XorStep(2 * a, 2 * b, 16);
    assert Doubled(x) == 2 * a && Doubled(y) == 2 * b;
    assert Xor16(Doubled(x), Doubled(y)) == 2 * Xor(a, b, 15);
  }

  lemma ReductionXor(x: u16, y: u16)
    ensures Reduction(Xor16(x, y)) == Xor16(Reduction(x), Reduction(y))
  {
    hide Xor16, Doubled;
    DoubledXor(x, y);
    Xor16Laws(POLYNOMIAL, 0, 0);
    Xor16Laws(0, POLYNOMIAL, 0);
    Xor16Laws(0, 0, 0);
  }

  lemma ShiftOnceLinear(x: u16, y: u16)
    ensures ShiftOnce(Xor16(x, y)) == Xor16(ShiftOnce(x), ShiftOnce(y))
  {
    hide Xor16, ShiftOnce, Doubled, Reduction;
    ShiftOnceSplit(x);
    ShiftOnceSplit(y);
    ShiftOnceSplit(Xor16(x, y));
    DoubledXor(x, y);
    ReductionXor(x, y);
    Medial(Doubled(x), Reduction(x), Doubled(y), Reduction(y));
  }

  lemma {:induction false} ShiftLinear(x: u16, y: u16, n: nat)
    ensures Shift(Xor16(x, y), n) == Xor16(Shift(x, n), Shift(y, n))
  {
    hide Xor16, ShiftOnce;
    if n > 0 {
      ShiftLinear(x, y, n - 1);
      ShiftOnceLinear(Shift(x, n - 1), Shift(y, n - 1));
    }
  }

  lemma {:induction false} ShiftTwice(x: u16, m: nat, n: nat)
    ensures Shift(Shift(x, m), n) == Shift(x, m + n)
  {
    hide ShiftOnce;
    if n > 0 {
      ShiftTwice(x, m, n - 1);
    }
  }

  lemma ShiftLowByte(b: byte)
    ensures Shift(b, 8) == High(b)
  {
    hide Xor16;
    assert Shift(b, 1) == 2 * b;
    assert Shift(b, 2) == 4 * b;
    assert Shift(b, 3) == 8 * b;
    assert Shift(b, 4) == 16 * b;
    assert Shift(b, 5) == 32 * b;
    assert Shift(b, 6) == 64 * b;
    assert Shift(b, 7) == 128 * b;
  }

  lemma HighAndLow(a: byte, b: byte)
    ensures Xor16(High(a), b) == Be16([a, b])
  {
    hide Xor, Pow2;
    PowersOfTwo();
    XorDisjoint(High(a), b, 8, 16);
  }

  /** Two bytes enter the register like one big-endian word shifted sixteen times. */
  lemma FeedTwo(crc: u16, a: byte, b: byte)
    ensures FeedByte(FeedByte(crc, a), b) == Shift(Xor16(crc, Be16([a, b])), 16)
  {
    hide Xor16, Shift;
    var x := Xor16(crc, High(a));
    ShiftLowByte(b);
    HighAndLow(a, b);
    ShiftLinear(x, b, 8);
    ShiftTwice(Xor16(x, b), 8, 8);
    Xor16Laws(crc, High(a), b);
  }

  lemma {:induction false} FeedInjective(x: u16, y: u16, q: seq<byte>)
    requires Feed(x, q) == Feed(y, q)
    ensures x == y
  {
    hide Xor16, Shift;
    if |q| > 0 {
      var v := High(q[|q| - 1]);
      var x', y' := Feed(x, q[..|q| - 1]), Feed(y, q[..|q| - 1]);
      ShiftInjective(Xor16(x', v), Xor16(y', v), 8);
      Xor16Laws(x', v, 0);
      Xor16Laws(y', v, 0);
      FeedInjective(x, y, q[..|q| - 1]);
    }
  }

  lemma {:induction false} FeedConcat(crc: u16, p: seq<byte>, q: seq<byte>)
    ensures Feed(crc, p + q) == Feed(Feed(crc, p), q)
  {
    hide FeedByte;
    if |q| == 0 {
      assert p + q == p;
    } else {
      assert (p + q)[..|p + q| - 1] == p + q[..|q| - 1];
      FeedConcat(crc, p, q[..|q| - 1]);
    }
  }

  lemma FeedWord(crc: u16, x: seq<byte>)
    requires |x| == 2
    ensures Feed(crc, x) == Shift(Xor16(crc, Be16(x)), 16)
  {
    hide Shift, Xor16;
    assert x[..1][..0] == [] && x[..1] == [x[0]];
    assert Feed(crc, x[..1]) == FeedByte(crc, x[0]);
    assert x == [x[0], x[1]];
    FeedTwo(crc, x[0], x[1]);
  }

  /** Any change confined to one byte or to two adjacent bytes changes the checksum. */
  lemma BurstChangesChecksum(p: seq<byte>, x: seq<byte>, y: seq<byte>, q: seq<byte>)
    requires |x| == |y| && 1 <= |x| <= 2 && x != y
    ensures CRC16(p + x + q) != CRC16(p + y + q)
  {
    hide Shift, Xor16;
    var crc := CRC16(p);
    FeedConcat(0xffff, p + x, q);
    FeedConcat(0xffff, p + y, q);
    FeedConcat(0xffff, p, x);
    FeedConcat(0xffff, p, y);
    if CRC16(p + x + q) == CRC16(p + y + q) {
      FeedInjective(Feed(crc, x), Feed(crc, y), q);
      BurstRegister(crc, x, y);
      assert false;
    }
  }

  lemma BurstRegister(crc: u16, x: seq<byte>, y: seq<byte>)
    requires |x| == |y| && 1 <= |x| <= 2 && Feed(crc, x) == Feed(crc, y)
    ensures x == y
  {
    hide Shift, Xor16;
    if |x| == 1 {
      assert x[..0] == y[..0] == [];
      ShiftInjective(Xor16(crc, High(x[0])), Xor16(crc, High(y[0])), 8);
      XorCancelLeft(crc, High(x[0]), High(y[0]));
    } else {
      FeedWord(crc, x);
      FeedWord(crc, y);
      ShiftInjective(Xor16(crc, Be16(x)), Xor16(crc, Be16(y)), 16);
      XorCancelLeft(crc, Be16(x), Be16(y));
    }
  }

  lemma XorCancelLeft(a: u16, x: u16, y: u16)
    requires Xor16(a, x) == Xor16(a, y)
    ensures x == y
  {
    hide Xor16;
    Xor16Laws(x, a, 0);
    Xor16Laws(y, a, 0);
    Xor16Laws(a, x, 0);
    Xor16Laws(a, y, 0);
  }

  /** A message followed by its own big-endian checksum is exactly a message of checksum 0. */
  lemma ChecksumIsResidueZero(d: seq<byte>, t: seq<byte>)
    requires |t| == 2
    ensures CRC16(d + t) == 0 <==> Be16(t) == CRC16(d)
  {
    hide Xor16, Shift;
    var crc := CRC16(d);
    FeedConcat(0xffff, d, t);
    FeedWord(crc, t);
    ShiftZero(16);
    Xor16Laws(crc, crc, 0);
    if CRC16(d + t) == 0 {
      ShiftInjective(Xor16(crc, Be16(t)), 0, 16);
      XorCancelLeft(crc, Be16(t), crc);
    }
  }

  lemma {:induction false} ShiftZero(n: nat)
    ensures Shift(0, n) == 0
  {
    if n > 0 {
      ShiftZero(n - 1);
    }
  }

  // ---- the checksum as a remainder ----

  /** Bit i of a message, counted from its first, highest bit. */
  predicate MessageBit(b: seq<byte>, i: int) {
    0 <= i < 8 * |b| && BitOf(b[i / 8], 7 - i % 8)
  }

  /** Coefficient i, counted from the highest, of the message times x^16 with the start value:
      the first sixteen coefficients are inverted. */
  predicate Dividend(b: seq<byte>, i: int) {
    (0 <= i < 16) != MessageBit(b, i)
  }

  predicate At(q: seq<bool>, i: int) { 0 <= i < |q| && q[i] }

  /** Coefficient i of q * (x^16 + x^12 + x^5 + 1) over GF(2). */
  predicate Product(q: seq<bool>, i: int) {
    ((At(q, i) != At(q, i - 4)) != At(q, i - 11)) != At(q, i - 16)
  }

  /** Bit p of a register, counted from its highest bit. */
  predicate RegisterBit(r: u16, p: int) { 0 <= p < 16 && BitOf(r, 15 - p) }

  ghost predicate Divided(b: seq<byte>, q: seq<bool>, r: u16) {
    |q| == 8 * |b|
    && forall i :: 0 <= i < 8 * |b| + 16 ==> Dividend(b, i) == (Product(q, i) != RegisterBit(r, i - 8 * |b|))
  }

  /** Division in progress: |q| quotient bits are known and `loaded` message bits are in the
      register, which stands for the coefficients from |q| on. */
  ghost predicate Reduced(b: seq<byte>, q: seq<bool>, r: u16, loaded: nat) {
    && |q| <= loaded <= 8 * |b|
    && forall i :: 0 <= i < 8 * |b| + 16 ==>
         Dividend(b, i) == (Product(q, i) != (RegisterBit(r, i - |q|) != (i >= loaded && MessageBit(b, i))))
  }

  lemma HighByteBits(v: byte, j: nat)
    ensures BitOf(High(v), j) <==> j >= 8 && BitOf(v, j - 8)
  {
    Halved(128 * v, j);
    Halved(64 * v, j - 1);
    Halved(32 * v, j - 2);
    Halved(16 * v, j - 3);
    Halved(8 * v, j - 4);
    Halved(4 * v, j - 5);
    Halved(2 * v, j - 6);
    Halved(v, j - 7);
  }

  lemma Halved(x: nat, j: int)
    ensures j >= 0 ==> (BitOf(2 * x, j) <==> j > 0 && BitOf(x, j - 1))
  {
  }

  lemma LoadedBits(r: u16, v: byte, p: int)
    ensures RegisterBit(Xor16(r, High(v)), p) <==> RegisterBit(r, p) != (0 <= p < 8 && BitOf(v, 7 - p))
  {
    hide Xor;
    if 0 <= p < 16 {
      XorBits(r, High(v), 16, 15 - p);
      HighByteBits(v, 15 - p);
    }
  }

  lemma PolynomialBits(j: nat)
    requires j < 16
    ensures BitOf(POLYNOMIAL, j) <==> j == 0 || j == 5 || j == 12
  {
    PowersOfTwo();
    if j < 8 {
      LowerBits(POLYNOMIAL, 8, j);
      assert BitOf(0x21, 0) && !BitOf(0x21, 1) && !BitOf(0x21, 2) && !BitOf(0x21, 3);
      assert !BitOf(0x21, 4) && BitOf(0x21, 5) && !BitOf(0x21, 6) && !BitOf(0x21, 7);
    } else {
      UpperBits(POLYNOMIAL, 8, j - 8);
      assert !BitOf(0x10, 0) && !BitOf(0x10, 1) && !BitOf(0x10, 2) && !BitOf(0x10, 3);
      assert BitOf(0x10, 4) && !BitOf(0x10, 5) && !BitOf(0x10, 6) && !BitOf(0x10, 7);
    }
  }

  lemma ShiftedBits(r: u16, p: int)
    ensures RegisterBit(ShiftOnce(r), p)
       <==> 0 <= p < 16 && (RegisterBit(r, p + 1) != (RegisterBit(r, 0) && (p == 3 || p == 10 || p == 15)))
  {
    hide Xor, BitOf;
    if 0 <= p < 16 {
      ShiftOnceSplit(r);
      XorBits(Doubled(r), Reduction(r), 16, 15 - p);
      PolynomialBits(15 - p);
      ZeroBits(15 - p);
      DoubledBits(r, 15 - p);
    }
  }

  lemma DoubledBits(r: u16, j: nat)
    requires j < 16
    ensures BitOf(Doubled(r), j) <==> j > 0 && BitOf(r, j - 1)
    ensures BitOf(r, 15) <==> r >= 0x8000
  {
    hide BitOf, Pow2;
    PowersOfTwo();
    Pow2Step(15);
    UpperBits(r, 15, 0);
    TopBit(r);
    Halved(r, j);
    LowerBits(2 * r, 16, j);
  }

  lemma TopBit(r: u16)
    ensures BitOf(r / 0x8000, 0) <==> r >= 0x8000
  {
  }


  lemma ByteLoaded(b: seq<byte>, q: seq<bool>, r: u16)
    requires |q| % 8 == 0 && |q| < 8 * |b| && Reduced(b, q, r, |q|)
    ensures Reduced(b, q, Xor16(r, High(b[|q| / 8])), |q| + 8)
  {
    hide Xor16, RegisterBit, BitOf;
    var t := |q|;
    var v := b[t / 8];
    var r' := Xor16(r, High(v));
    forall i | 0 <= i < 8 * |b| + 16
      ensures Dividend(b, i) == (Product(q, i) != (RegisterBit(r', i - t) != (i >= t + 8 && MessageBit(b, i))))
    {
      LoadedBits(r, v, i - t);
      assert t <= i < t + 8 ==> i / 8 == t / 8 && i % 8 == i - t;
    }
  }

  lemma BitDivided(b: seq<byte>, q: seq<bool>, r: u16, loaded: nat)
    requires Reduced(b, q, r, loaded) && |q| < loaded
    ensures Reduced(b, q + [RegisterBit(r, 0)], ShiftOnce(r), loaded)
  {
    hide ShiftOnce, RegisterBit, MessageBit;
    var t, c := |q|, RegisterBit(r, 0);
    forall i | 0 <= i < 8 * |b| + 16
      ensures Dividend(b, i) == (Product(q + [c], i)
              != (RegisterBit(ShiftOnce(r), i - t - 1) != (i >= loaded && MessageBit(b, i))))
    {
      ProductGrows(q, c, i);
      ShiftedBits(r, i - t - 1);
      RegisterEnds(r, i - t);
    }
  }

  lemma RegisterEnds(r: u16, p: int)
    ensures !(0 <= p < 16) ==> !RegisterBit(r, p)
  {
  }

  lemma ProductGrows(q: seq<bool>, c: bool, i: int)
    ensures Product(q + [c], i)
         == (Product(q, i) != (c && (i == |q| || i == |q| + 4 || i == |q| + 11 || i == |q| + 16)))
  {
  }

  lemma {:induction false} BitsDivided(b: seq<byte>, q: seq<bool>, r: u16, n: nat) returns (q': seq<bool>)
    requires Reduced(b, q, r, |q| + n)
    ensures |q'| == |q| + n && Reduced(b, q', Shift(r, n), |q'|)
    decreases n
  {
    hide Reduced, ShiftOnce, RegisterBit;
    if n == 0 {
      q' := q;
    } else {
      InProgress(b, q, r, |q| + n);
      BitDivided(b, q, r, |q| + n);
      q' := BitsDivided(b, q + [RegisterBit(r, 0)], ShiftOnce(r), n - 1);
      ShiftTwice(r, 1, n - 1);
      assert Shift(r, 1) == ShiftOnce(r);
    }
  }

  lemma InProgress(b: seq<byte>, q: seq<bool>, r: u16, loaded: nat)
    requires Reduced(b, q, r, loaded)
    ensures |q| <= loaded <= 8 * |b|
  {
  }

  lemma {:induction false} BytesDivided(b: seq<byte>, n: nat) returns (q: seq<bool>)
    requires n <= |b|
    ensures |q| == 8 * n && Reduced(b, q, Feed(0xffff, b[..n]), 8 * n)
  {
    hide Reduced, Shift, Xor16;
    if n == 0 {
      q := [];
      NothingDivided(b);
    } else {
      q := BytesDivided(b, n - 1);
      assert b[..n][..n - 1] == b[..n - 1];
      var r := Feed(0xffff, b[..n - 1]);
      ByteLoaded(b, q, r);
      q := BitsDivided(b, q, Xor16(r, High(b[n - 1])), 8);
    }
  }

  lemma NothingDivided(b: seq<byte>)
    ensures Reduced(b, [], 0xffff, 0)
  {
    hide BitOf;
    forall p | 0 <= p < 16 ensures BitOf(0xffff, p) {
      AllOnes(p, 16);
      PowersOfTwo();
    }
  }

  lemma {:induction false} AllOnes(p: nat, n: nat)
    requires p < n
    ensures BitOf(Pow2(n) - 1, p)
  {
    hide *;
    var q := Pow2(n - 1);
    Pow2Step(n - 1);
    NextBit(2 * q - 1, p);
    if p > 0 {
      AllOnes(p - 1, n - 1);
    }
  }

  /** A quotient bit is fixed by the dividend and the bits before it. */
  lemma {:induction false} QuotientBits(b: seq<byte>, q: seq<bool>, r: u16, q': seq<bool>, r': u16, n: nat)
    requires Divided(b, q, r) && Divided(b, q', r') && n <= 8 * |b|
    ensures q[..n] == q'[..n]
  {
    hide MessageBit;
    if n > 0 {
      QuotientBits(b, q, r, q', r', n - 1);
      var i := n - 1;
      assert Dividend(b, i) == Product(q, i) && Dividend(b, i) == Product(q', i);
      forall k | k == i - 4 || k == i - 11 || k == i - 16 ensures At(q, k) == At(q', k) {
        if 0 <= k {
          assert q[..i][k] == q'[..i][k];
        }
      }
      assert q[..n] == q[..i] + [q[i]] && q'[..n] == q'[..i] + [q'[i]];
    }
  }

  ghost predicate IsRemainder(b: seq<byte>, r: u16) {
    exists q: seq<bool> :: Divided(b, q, r)
  }

  /** The checksum is the remainder of the message times x^16, its first sixteen coefficients
      inverted, by x^16 + x^12 + x^5 + 1 over GF(2): it is a remainder and the only one. */
  lemma ChecksumIsRemainder(b: seq<byte>, r: u16)
    ensures IsRemainder(b, r) <==> r == CRC16(b)
  {
    hide Product, Dividend, RegisterBit;
    var q := BytesDivided(b, |b|);
    assert b[..|b|] == b;
    forall i | 0 <= i < 8 * |b| + 16 ensures !(i >= 8 * |b| && MessageBit(b, i)) {}
    assert Divided(b, q, CRC16(b));
    if q' :| Divided(b, q', r) {
      QuotientBits(b, q, CRC16(b), q', r, 8 * |b|);
      assert q[..8 * |b|] == q && q'[..8 * |b|] == q';
      forall j: nat | j < 16 ensures BitOf(r, j) <==> BitOf(CRC16(b), j) {
        RestBit(b, q, CRC16(b), r, j);
      }
      PowersOfTwo();
      SameBits(r, CRC16(b), 16);
    }
  }

  lemma RestBit(b: seq<byte>, q: seq<bool>, r: u16, r': u16, j: nat)
    requires Divided(b, q, r) && Divided(b, q, r') && j < 16
    ensures BitOf(r, j) <==> BitOf(r', j)
  {
    hide Product, Dividend, BitOf;
    var i := 8 * |b| + 15 - j;
    assert Dividend(b, i) == (Product(q, i) != RegisterBit(r, 15 - j));
    assert Dividend(b, i) == (Product(q, i) != RegisterBit(r', 15 - j));
  }

  // ---- a check value ----

  function Flip(a: nat, w: nat): int
    requires w > 0
  {
    if a / w % 2 == 0 then w else -(w as int)
  }

  /** The polynomial turns over bits 0, 5 and 12. */
  lemma PolynomialFlips(a: u16)
    ensures Xor16(a, POLYNOMIAL) == a + Flip(a, 1) + Flip(a, 32) + Flip(a, 4096)
  {
    hide Xor, Pow2;
    var d := a / 2 / 0x10;
    SmallPowers();
    XorStep(a, 0x1021, 16);
    XorAbove(a / 2, 0x81, 4, 0x10, 11);
    UpperFlips(d);
    assert Flip(a, 32) == 32 * Flip(d, 1) && Flip(a, 4096) == 32 * Flip(d, 128);
  }

  lemma UpperFlips(d: nat)
    requires d < 0x800
    ensures Xor(d, 0x81, 11) == d + Flip(d, 1) + Flip(d, 128)
  {
    hide Xor, Pow2;
    var e := d / 2 / 0x40;
    SmallPowers();
    XorStep(d, 0x81, 11);
    XorAbove(d / 2, 1, 6, 0x40, 4);
    LowFlip(e);
    assert Flip(d, 128) == 128 * Flip(e, 1);
  }

  lemma LowFlip(e: nat)
    requires e < 0x10
    ensures Xor(e, 1, 4) == e + Flip(e, 1)
  {
    hide Xor, Pow2;
    SmallPowers();
    XorStep(e, 1, 4);
    XorZero(e / 2, 3);
  }

  lemma SmallPowers()
    ensures Pow2(3) == 8 && Pow2(4) == 0x10 && Pow2(6) == 0x40
  {
    assert Pow2(2) == 4;
  }

  /** Eight shifts of a register, one by one. */
  lemma EightShifts(x: seq<u16>)
    requires |x| == 9 && forall i :: 0 <= i < 8 ==> Shifted(x[i], x[i + 1])
    ensures Shift(x[0], 8) == x[8]
  {
    hide Xor16;
    forall i | 0 <= i < 8 ensures ShiftOnce(x[i]) == x[i + 1] {
      if x[i] >= 0x8000 {
        PolynomialFlips(2 * (x[i] as int) - 0x1_0000);
      }
    }
    hide ShiftOnce;
    assert Shift(x[0], 1) == x[1];
    assert Shift(x[0], 2) == x[2];
    assert Shift(x[0], 3) == x[3];
    assert Shift(x[0], 4) == x[4];
    assert Shift(x[0], 5) == x[5];
    assert Shift(x[0], 6) == x[6];
    assert Shift(x[0], 7) == x[7];
  }

  predicate Shifted(x: u16, y: u16) {
    var d := 2 * (x as int) - 0x1_0000;
    y as int == if d < 0 then 2 * (x as int) else d + Flip(d, 1) + Flip(d, 32) + Flip(d, 4096)
  }

  /** The checksums of one and of two zero bytes. */
  lemma CheckValues()
    ensures CRC16([0]) == 0xe1f0 && CRC16([0, 0]) == 0x1d0f
  {
    hide Shift, Xor16;
    EightShifts([0xffff, 0xefdf, 0xcf9f, 0x8f1f, 0x0e1f, 0x1c3e, 0x387c, 0x70f8, 0xe1f0]);
    EightShifts([0xe1f0, 0xd3c1, 0xb7a3, 0x7f67, 0xfece, 0xedbd, 0xcb5b, 0x8697, 0x1d0f]);
    Xor16Laws(0xffff, 0, 0);
    Xor16Laws(0xe1f0, 0, 0);
    var none: seq<byte>, one: seq<byte>, two: seq<byte> := [], [0], [0, 0];
    assert one[..0] == none && two[..1] == one;
    assert Feed(0xffff, one) == FeedByte(0xffff, 0) == 0xe1f0;
  }
}
