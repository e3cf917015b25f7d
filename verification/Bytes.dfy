/** Bytes, machine words and their exclusive-or, shared by the wire modules. */
module Bytes {

  type byte = x: int | 0 <= x < 0x100
  type u16 = x: int | 0 <= x < 0x1_0000
  type u32 = x: int | 0 <= x < 0x1_0000_0000

  datatype Option<+T> = None | Some(value: T) {
    predicate IsFailure() { None? }

    function PropagateFailure<U>(): Option<U>
      requires None?
    {
      None
    }

    function Extract(): T
      requires Some?
    {
      value
    }
  }

  function Pow2(n: nat): (p: nat)
    ensures p >= 1
  {
    if n == 0 then 1 else 2 * Pow2(n - 1)
  }

  /** Bitwise exclusive-or of the low `bits` bits. */
  function Xor(a: nat, b: nat, bits: nat): nat {
    if bits == 0 then 0 else 2 * Xor(a / 2, b / 2, bits - 1) + (a + b) % 2
  }

  lemma XorStep(a: nat, b: nat, bits: nat)
    ensures bits == 0 ==> Xor(a, b, bits) == 0
    ensures bits > 0 ==> Xor(a, b, bits) % 2 == (a + b) % 2
    ensures bits > 0 ==> Xor(a, b, bits) / 2 == Xor(a / 2, b / 2, bits - 1)
  {
  }

  lemma Pow2Step(n: nat)
    ensures Pow2(0) == 1 && Pow2(n + 1) == 2 * Pow2(n)
  {
  }

  lemma {:induction false} XorBound(a: nat, b: nat, bits: nat)
    ensures Xor(a, b, bits) < Pow2(bits)
  {
    hide *;
    XorStep(a, b, bits);
    if bits > 0 {
      Pow2Step(bits - 1);
      XorBound(a / 2, b / 2, bits - 1);
    } else {
      Pow2Step(0);
    }
  }

  lemma {:induction false} XorCancel(a: nat, b: nat, bits: nat)
    requires a < Pow2(bits)
    ensures Xor(Xor(a, b, bits), b, bits) == a
  {
    hide *;
    var r := Xor(a, b, bits);
    XorStep(a, b, bits);
    XorStep(r, b, bits);
    if bits > 0 {
      Pow2Step(bits - 1);
      XorCancel(a / 2, b / 2, bits - 1);
      assert (r + b) % 2 == a % 2;
    } else {
      Pow2Step(0);
    }
  }

  lemma {:induction false} XorCommutes(a: nat, b: nat, bits: nat)
    ensures Xor(a, b, bits) == Xor(b, a, bits)
  {
    hide *;
    XorStep(a, b, bits);
    XorStep(b, a, bits);
    if bits > 0 {
      XorCommutes(a / 2, b / 2, bits - 1);
    }
  }

  lemma {:induction false} XorAssociates(a: nat, b: nat, c: nat, bits: nat)
    ensures Xor(Xor(a, b, bits), c, bits) == Xor(a, Xor(b, c, bits), bits)
  {
    hide *;
    var ab, bc := Xor(a, b, bits), Xor(b, c, bits);
    XorStep(a, b, bits);
    XorStep(b, c, bits);
    XorStep(ab, c, bits);
    XorStep(a, bc, bits);
    if bits > 0 {
      XorAssociates(a / 2, b / 2, c / 2, bits - 1);
      ParityAssociates(a, b, c, ab, bc);
      SameHalves(Xor(ab, c, bits), Xor(a, bc, bits));
    }
  }

  lemma ParityAssociates(a: nat, b: nat, c: nat, ab: nat, bc: nat)
    requires ab % 2 == (a + b) % 2 && bc % 2 == (b + c) % 2
    ensures (ab + c) % 2 == (a + bc) % 2
  {
  }

  lemma SameHalves(x: nat, y: nat)
    requires x / 2 == y / 2 && x % 2 == y % 2
    ensures x == y
  {
  }

  lemma {:induction false} XorZero(a: nat, bits: nat)
    requires a < Pow2(bits)
    ensures Xor(a, 0, bits) == a
  {
    hide *;
    XorStep(a, 0, bits);
    if bits > 0 {
      Pow2Step(bits - 1);
      XorZero(a / 2, bits - 1);
    } else {
      Pow2Step(0);
    }
  }

  /** Below the lowest bit of one operand the other comes through. */
  lemma {:induction false} XorAbove(a: nat, c: nat, k: nat, p: nat, bits: nat)
    requires p == Pow2(k)
    ensures Xor(a, p * c, bits + k) == p * Xor(Over(a, p), c, bits) + a % p
  {
    hide *;
    if k == 0 {
      Pow2Step(0);
      OverOne(a);
    } else {
      var q := Pow2(k - 1);
      Pow2Step(k - 1);
      XorAbove(a / 2, c, k - 1, q, bits);
      HalfOfRest(a, q);
      var x, w := Xor(Over(a, p), c, bits), q * c;
      Doubles(q, c, x, a % p);
      XorDoubled(a, w, bits + k, q * x + a % p / 2);
    }
  }

  lemma XorDoubled(a: nat, w: nat, bits: nat, half: nat)
    requires bits > 0 && Xor(a / 2, w, bits - 1) == half
    ensures Xor(a, 2 * w, bits) == 2 * half + a % 2
  {
    hide *;
    XorStep(a, 2 * w, bits);
  }

  lemma OverOne(a: nat)
    ensures Over(a, 1) == a && a % 1 == 0
  {
  }

  lemma Doubles(p: nat, c: nat, x: nat, r: nat)
    ensures 2 * p * c == 2 * (p * c) && 2 * p * x + r == 2 * (p * x + r / 2) + r % 2
  {
  }

  /** Bit j of a number, counted from the lowest. */
  predicate BitOf(x: nat, j: nat) {
    if j == 0 then x % 2 == 1 else BitOf(x / 2, j - 1)
  }

  /** Exclusive-or combines the bits one by one. */
  lemma {:induction false} XorBits(a: nat, b: nat, bits: nat, j: nat)
    ensures BitOf(Xor(a, b, bits), j) <==> j < bits && BitOf(a, j) != BitOf(b, j)
    decreases bits
  {
    hide Xor;
    XorStep(a, b, bits);
    if bits == 0 {
      ZeroBits(j);
    } else if j > 0 {
      XorBits(a / 2, b / 2, bits - 1, j - 1);
    }
  }

  lemma {:induction false} ZeroBits(j: nat)
    ensures !BitOf(0, j)
  {
    if j > 0 {
      ZeroBits(j - 1);
    }
  }

  lemma {:induction false} HighBits(x: nat, n: nat, j: nat)
    requires x < Pow2(n) && n <= j
    ensures !BitOf(x, j)
  {
    if n == 0 {
      ZeroBits(j);
    } else {
      HighBits(x / 2, n - 1, j - 1);
    }
  }

  function Over(x: nat, p: nat): nat
    requires p > 0
  {
    x / p
  }

  /** The bits from n on are those of the quotient by 2^n, ... */
  lemma {:induction false} UpperBits(x: nat, n: nat, j: nat)
    ensures BitOf(Over(x, Pow2(n)), j) <==> BitOf(x, n + j)
  {
    hide Pow2, BitOf;
    if n == 0 {
      Pow2Step(0);
    } else {
      var p := Pow2(n - 1);
      Pow2Step(n - 1);
      HalfOfRest(x, p);
      NextBit(x, n + j);
      UpperBits(x / 2, n - 1, j);
    }
  }

  /** ... the ones below n those of the rest. */
  lemma {:induction false} LowerBits(x: nat, n: nat, j: nat)
    ensures BitOf(x % Pow2(n), j) <==> j < n && BitOf(x, j)
  {
    hide *;
    if n == 0 {
      Pow2Step(0);
      ZeroBits(j);
    } else {
      Pow2Step(n - 1);
      var r := x % Pow2(n);
      HalfOfRest(x, Pow2(n - 1));
      NextBit(x, j);
      NextBit(r, j);
      if j > 0 {
        LowerBits(x / 2, n - 1, j - 1);
      }
    }
  }

  lemma NextBit(x: nat, j: nat)
    ensures BitOf(x, j) <==> if j == 0 then x % 2 == 1 else BitOf(x / 2, j - 1)
  {
  }

  lemma HalfOfRest(x: nat, p: nat)
    requires p > 0
    ensures x % (2 * p) % 2 == x % 2 && x % (2 * p) / 2 == x / 2 % p && Over(x, 2 * p) == Over(x / 2, p)
  {
    var q := x / (2 * p);
    assert x == 2 * (p * q) + x % (2 * p);
    QuotientUnique(x / 2, p, q, x % (2 * p) / 2);
  }

  /** Numbers below 2^n are equal when their bits are. */
  lemma {:induction false} SameBits(x: nat, y: nat, n: nat)
    requires x < Pow2(n) && y < Pow2(n) && forall j: nat :: j < n ==> (BitOf(x, j) <==> BitOf(y, j))
    ensures x == y
  {
    if n > 0 {
      assert BitOf(x, 0) <==> BitOf(y, 0);
      forall j: nat | j < n - 1 ensures BitOf(x / 2, j) <==> BitOf(y / 2, j) {
        assert BitOf(x, j + 1) <==> BitOf(y, j + 1);
      }
      SameBits(x / 2, y / 2, n - 1);
    }
  }

  function Bit(on: bool, n: nat): nat {
    if on then Pow2(n) else 0
  }

  lemma BitStep(on: bool, n: nat)
    ensures Bit(on, n + 1) == 2 * Bit(on, n) && Bit(on, 0) == if on then 1 else 0
  {
  }

  lemma HalfOfSum(x: nat, y: nat)
    ensures (x + 2 * y) / 2 == x / 2 + y && (x + 2 * y) % 2 == x % 2
  {
  }

  /** Exclusive-or keeps the top bit apart from the bits below it. */
  lemma {:induction false} XorTopBit(a: nat, s: bool, b: nat, t: bool, bits: nat)
    requires a < Pow2(bits) && b < Pow2(bits)
    ensures Xor(a + Bit(s, bits), b + Bit(t, bits), bits + 1) == Xor(a, b, bits) + Bit(s != t, bits)
  {
    hide *;
    if bits > 0 {
      var n := bits - 1;
      Pow2Step(n);
      XorTopBit(a / 2, s, b / 2, t, n);
      XorTopBitStep(a, Bit(s, n), b, Bit(t, n), bits);
      BitStep(s, n);
      BitStep(t, n);
      BitStep(s != t, n);
      XorStep(a, b, bits);
    } else {
      var x, y := a + Bit(s, 0), b + Bit(t, 0);
      Pow2Step(0);
      XorStep(x, y, 1);
      XorStep(a, b, 0);
      BitStep(s, 0);
      BitStep(t, 0);
      BitStep(s != t, 0);
      XorStep(x / 2, y / 2, 0);
    }
  }

  lemma XorTopBitStep(a: nat, p: nat, b: nat, q: nat, bits: nat)
    requires bits > 0
    ensures Xor(a + 2 * p, b + 2 * q, bits + 1) == 2 * Xor(a / 2 + p, b / 2 + q, bits) + Xor(a, b, bits) % 2
  {
    hide *;
    XorStep(a + 2 * p, b + 2 * q, bits + 1);
    XorStep(a, b, bits);
    HalfOfSum(a, p);
    HalfOfSum(b, q);
    HalfOfSum(a + b, p + q);
  }

  /** Words without common bits are combined like a sum. */
  lemma {:induction false} XorDisjoint(w: nat, b: nat, k: nat, bits: nat)
    requires b < Pow2(k) && w % Pow2(k) == 0 && w + b < Pow2(bits)
    ensures Xor(w, b, bits) == w + b
  {
    hide *;
    XorStep(w, b, bits);
    if k == 0 || bits == 0 {
      Pow2Step(0);
      XorZero(w, bits);
    } else {
      Pow2Step(k - 1);
      Pow2Step(bits - 1);
      EvenMultiple(w, Pow2(k - 1));
      HalfOfSum(b, w / 2);
      XorDisjoint(w / 2, b / 2, k - 1, bits - 1);
    }
  }

  lemma EvenMultiple(w: nat, p: nat)
    requires p > 0 && w % (2 * p) == 0
    ensures w == 2 * (w / 2) && w / 2 % p == 0
  {
    var q := w / (2 * p);
    assert w == 2 * (p * q);
    assert w / 2 == p * q;
    QuotientUnique(w / 2, p, q, 0);
  }

  lemma QuotientUnique(x: int, m: int, q: int, r: int)
    requires m > 0 && 0 <= r < m && x == m * q + r
    ensures x % m == r && x / m == q
  {
    var e := q - x / m;
    assert m * e == x % m - r by {
      assert x == m * (x / m) + x % m;
      assert m * q - m * (x / m) == m * e;
    }
    assert e < 1;
    assert e > -1;
  }

  function Xor8(a: byte, b: byte): byte {
    PowersOfTwo();
    XorBound(a, b, 8);
    Xor(a, b, 8)
  }

  function Xor32(a: u32, b: u32): u32 {
    PowersOfTwo();
    XorBound(a, b, 32);
    Xor(a, b, 32)
  }

  lemma PowersOfTwo()
    ensures Pow2(8) == 0x100 && Pow2(16) == 0x1_0000 && Pow2(32) == 0x1_0000_0000
  {
    assert Pow2(4) == 16;
    assert Pow2(12) == 4096;
    assert Pow2(20) == 0x10_0000;
    assert Pow2(28) == 0x1000_0000;
  }

  lemma Xor8Cancel(a: byte, b: byte)
    ensures Xor8(Xor8(a, b), b) == a
  {
    PowersOfTwo();
    XorCancel(a, b, 8);
  }

  lemma Xor32Cancel(a: u32, b: u32)
    ensures Xor32(Xor32(a, b), b) == a
  {
    PowersOfTwo();
    XorCancel(a, b, 32);
  }

  /** A little-endian 32-bit word. */
  function Le32(b: seq<byte>): (w: u32)
    requires |b| == 4
  {
    b[0] as int + 0x100 * (b[1] as int + 0x100 * (b[2] as int + 0x100 * (b[3] as int)))
  }

  function Le32Bytes(w: u32): (b: seq<byte>)
    ensures |b| == 4 && Le32(b) == w
  {
    var w1 := w / 0x100;
    var w2 := w1 / 0x100;
    [w % 0x100, w1 % 0x100, w2 % 0x100, w2 / 0x100]
  }

  /** A big-endian 16-bit word. */
  function Be16(b: seq<byte>): (w: u16)
    requires |b| == 2
  {
    0x100 * (b[0] as int) + b[1] as int
  }

  function Be16Bytes(w: u16): (b: seq<byte>)
    ensures |b| == 2 && Be16(b) == w
  {
    [w / 0x100, w % 0x100]
  }
}
