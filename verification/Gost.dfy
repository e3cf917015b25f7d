/** The GOST 28147-89 block cipher and its two stream modes (RFC 5830, sections 5 to 7),
    as used in place on frame buffers. The S-box table is arbitrary. */
module Gost {
  import opened Bytes

  const M32 := 0x1_0000_0000
  const GAMMA_C1: u32 := 0x0101_0104
  const GAMMA_C2: u32 := 0x0101_0101

  datatype Halves = Halves(n1: u32, n2: u32) {
    function Swap(): Halves { Halves(n2, n1) }
  }

  datatype CipherData = CipherData(k: seq<u32>, sbox: seq<byte>)

  type Cipher = c: CipherData | |c.k| == 8 && |c.sbox| == 0x400
    witness CipherData(seq(8, _ => 0), seq(0x400, _ => 0))

  type Block = b: seq<byte> | |b| == 8 witness [0, 0, 0, 0, 0, 0, 0, 0]

  /** The key words are the little-endian words of a 32-byte key; other lengths are refused. */
  method NewCipher(key: seq<byte>, sbox: seq<byte>) returns (r: Option<Cipher>)
    requires |sbox| == 0x400
    ensures r.None? <==> |key| != 32
    ensures r.Some? ==> r.value.sbox == sbox
    ensures r.Some? ==> forall i :: 0 <= i < 8 ==> r.value.k[i] == Le32(key[4 * i..4 * i + 4])
  {
    if |key| != 32 {
      return None;
    }
    var k: seq<u32> := [];
    for i := 0 to 8
      invariant |k| == i
      invariant forall j :: 0 <= j < i ==> k[j] == Le32(key[4 * j..4 * j + 4])
    {
      k := k + [Le32(key[4 * i..4 * i + 4])];
    }
    r := Some(CipherData(k, sbox));
  }

  // ---- the block cipher ----

  function F(c: Cipher, x: u32): u32 {
    var x1 := x / 0x100;
    var x2 := x1 / 0x100;
    var b0, b1 := c.sbox[x % 0x100] as int, c.sbox[0x100 + x1 % 0x100] as int;
    var b2, b3 := c.sbox[0x200 + x2 % 0x100] as int, c.sbox[0x300 + x2 / 0x100] as int;
    RotateLeft11(b0 + 0x100 * b1 + 0x1_0000 * b2 + 0x100_0000 * b3)
  }

  function RotateLeft11(y: u32): u32 {
    y % 0x20_0000 * 0x800 + y / 0x20_0000
  }

  function KeyIndex(round: nat): nat
    requires round < 32
  {
    if round < 24 then round % 8 else 31 - round
  }

  function Round(c: Cipher, h: Halves, i: nat): Halves
    requires i < 8
  {
    Halves(Xor32(h.n2, F(c, (h.n1 + c.k[i]) % M32)), h.n1)
  }

  function Rounds(c: Cipher, h: Halves, n: nat): Halves
    requires n <= 32
  {
    if n == 0 then h else Round(c, Rounds(c, h, n - 1), KeyIndex(n - 1))
  }

  function Encrypt(c: Cipher, h: Halves): Halves {
    Rounds(c, h, 32).Swap()
  }

  // ---- the cipher of section 5 of RFC 5830, bit by bit ----

  /** The words of the 32 rounds: the key three times forwards, then once backwards. */
  function KeyWords(k: seq<u32>): (words: seq<u32>)
    requires |k| == 8
    ensures |words| == 32
  {
    k + k + k + [k[7], k[6], k[5], k[4], k[3], k[2], k[1], k[0]]
  }

  function ByteOf(x: u32, i: nat): byte
    requires i < 4
  {
    if i == 0 then x % 0x100
    else if i == 1 then x / 0x100 % 0x100
    else if i == 2 then x / 0x1_0000 % 0x100
    else x / 0x100_0000
  }

  /** Bit j of the mixed sum: each byte is replaced through its own table, and the bits are then
      moved up by eleven places, round the end. */
  predicate MixedBit(c: Cipher, x: u32, j: nat)
    requires j < 32
  {
    var from := (j + 21) % 32;
    BitOf(c.sbox[0x100 * (from / 8) + ByteOf(x, from / 8)], from % 8)
  }

  predicate IsRound(c: Cipher, h: Halves, word: u32, h': Halves) {
    && h'.n2 == h.n1
    && forall j :: 0 <= j < 32 ==> BitOf(h'.n1, j) == (BitOf(h.n2, j) != MixedBit(c, (h.n1 + word) % M32, j))
  }

  ghost predicate IsTrace(c: Cipher, h: Halves, t: seq<Halves>) {
    |t| == 33 && t[0] == h && forall i :: 0 <= i < 32 ==> IsRound(c, t[i], KeyWords(c.k)[i], t[i + 1])
  }

  ghost predicate IsCycle(c: Cipher, h: Halves, r: Halves) {
    exists t: seq<Halves> :: IsTrace(c, h, t) && r == Halves(t[32].n2, t[32].n1)
  }

  lemma RotatedBits(y: u32, j: nat)
    requires j < 32
    ensures BitOf(RotateLeft11(y), j) <==> BitOf(y, (j + 21) % 32)
  {
    hide BitOf, Pow2, RotateLeft11, Over;
    RotatedPowers();
    var r := RotateLeft11(y);
    RotatedParts(y);
    if j < 11 {
      LowerBits(r, 11, j);
      UpperBits(y, 21, j);
    } else {
      UpperBits(r, 11, j - 11);
      LowerBits(y, 21, j - 11);
    }
  }

  lemma RotatedParts(y: u32)
    ensures RotateLeft11(y) % 0x800 == Over(y, 0x20_0000) && Over(RotateLeft11(y), 0x800) == y % 0x20_0000
  {
  }

  lemma RotatedPowers()
    ensures Pow2(11) == 0x800 && Pow2(21) == 0x20_0000
  {
    assert Pow2(7) == 0x80;
    assert Pow2(14) == 0x4000;
  }

  lemma WordBits(b: seq<byte>, j: nat)
    requires |b| == 4 && j < 32
    ensures BitOf(Le32(b), j) <==> BitOf(b[j / 8], j % 8)
  {
    hide BitOf, Pow2;
    var w := Le32(b);
    var w1 := w / 0x100;
    var w2 := w1 / 0x100;
    PowersOfTwo();
    LowerBits(w, 8, j);
    if j >= 8 {
      UpperBits(w, 8, j - 8);
      LowerBits(w1, 8, j - 8);
    }
    if j >= 16 {
      UpperBits(w1, 8, j - 16);
      LowerBits(w2, 8, j - 16);
    }
    if j >= 24 {
      UpperBits(w2, 8, j - 24);
    }
  }

  /** The bytes of a word, each replaced through its own table. */
  function Replaced(c: Cipher, x: u32): (b: seq<byte>)
    ensures |b| == 4 && forall i :: 0 <= i < 4 ==> b[i] == c.sbox[0x100 * i + ByteOf(x, i)]
  {
    [c.sbox[ByteOf(x, 0)], c.sbox[0x100 + ByteOf(x, 1)], c.sbox[0x200 + ByteOf(x, 2)], c.sbox[0x300 + ByteOf(x, 3)]]
  }

  lemma FRotates(c: Cipher, x: u32)
    ensures F(c, x) == RotateLeft11(Le32(Replaced(c, x)))
  {
    hide RotateLeft11;
    var x1 := x / 0x100;
    var x2 := x1 / 0x100;
    assert ByteOf(x, 0) == x % 0x100 && ByteOf(x, 1) == x1 % 0x100;
    assert ByteOf(x, 2) == x2 % 0x100 && ByteOf(x, 3) == x2 / 0x100;
  }

  lemma FBits(c: Cipher, x: u32, j: nat)
    requires j < 32
    ensures BitOf(F(c, x), j) <==> MixedBit(c, x, j)
  {
    hide BitOf, RotateLeft11, F, ByteOf, Le32, Replaced;
    var b := Replaced(c, x);
    FRotates(c, x);
    RotatedBits(Le32(b), j);
    WordBits(b, (j + 21) % 32);
  }

  lemma RoundIs(c: Cipher, h: Halves, i: nat)
    requires i < 8
    ensures IsRound(c, h, c.k[i], Round(c, h, i))
  {
    hide BitOf, Xor, F, MixedBit;
    var x := (h.n1 + c.k[i]) % M32;
    forall j: nat | j < 32 ensures BitOf(Round(c, h, i).n1, j) == (BitOf(h.n2, j) != MixedBit(c, x, j)) {
      XorBits(h.n2, F(c, x), 32, j);
      FBits(c, x, j);
    }
  }

  lemma RoundUnique(c: Cipher, h: Halves, word: u32, a: Halves, b: Halves)
    requires IsRound(c, h, word, a) && IsRound(c, h, word, b)
    ensures a == b
  {
    hide BitOf, MixedBit;
    PowersOfTwo();
    SameBits(a.n1, b.n1, 32);
  }

  lemma RoundWords(c: Cipher, i: nat)
    requires i < 32
    ensures KeyWords(c.k)[i] == c.k[KeyIndex(i)]
  {
  }

  lemma {:induction false} TraceUnique(c: Cipher, h: Halves, t: seq<Halves>, n: nat)
    requires IsTrace(c, h, t) && n <= 32
    ensures t[n] == Rounds(c, h, n)
  {
    hide IsRound, Round, KeyWords;
    if n > 0 {
      TraceUnique(c, h, t, n - 1);
      RoundWords(c, n - 1);
      RoundIs(c, t[n - 1], KeyIndex(n - 1));
      RoundUnique(c, t[n - 1], KeyWords(c.k)[n - 1], t[n], Rounds(c, h, n));
    }
  }

  /** Encryption is the cycle of RFC 5830: the only end of 32 rounds that mix in the key words
      forwards three times and backwards once, with the halves exchanged. */
  lemma EncryptIsCycle(c: Cipher, h: Halves, r: Halves)
    ensures IsCycle(c, h, r) <==> r == Encrypt(c, h)
  {
    hide IsRound, Round, KeyWords;
    var t := seq(33, i requires 0 <= i < 33 => Rounds(c, h, i));
    forall i | 0 <= i < 32 ensures IsRound(c, t[i], KeyWords(c.k)[i], t[i + 1]) {
      RoundWords(c, i);
      RoundIs(c, t[i], KeyIndex(i));
      assert t[i + 1] == Round(c, t[i], KeyIndex(i));
    }
    assert IsTrace(c, h, t) && Encrypt(c, h) == Halves(t[32].n2, t[32].n1);
    if t': seq<Halves> :| IsTrace(c, h, t') && r == Halves(t'[32].n2, t'[32].n1) {
      TraceUnique(c, h, t', 32);
    }
  }

  method EncryptHalves(c: Cipher, h: Halves) returns (r: Halves)
    ensures r == Encrypt(c, h)
  {
    hide F, Xor32;
    var n1: u32, n2: u32 := h.n1, h.n2;
    for i := 0 to 32
      invariant Halves(n1, n2) == Rounds(c, h, i)
    {
      n1, n2 := Xor32(n2, F(c, (n1 + c.k[KeyIndex(i)]) % M32)), n1;
    }
    r := Halves(n2, n1);
  }

  /** The decryption cycle of RFC 5830: the same rounds in the opposite key order. */
  function UnRounds(c: Cipher, h: Halves, n: nat): Halves
    requires n <= 32
  {
    if n == 0 then h else Round(c, UnRounds(c, h, n - 1), KeyIndex(32 - n))
  }

  function Decrypt(c: Cipher, h: Halves): Halves {
    UnRounds(c, h, 32).Swap()
  }

  lemma RoundUndone(c: Cipher, h: Halves, i: nat)
    requires i < 8
    ensures Round(c, Round(c, h, i).Swap(), i) == h.Swap()
  {
    Xor32Cancel(h.n2, F(c, (h.n1 + c.k[i]) % M32));
  }

  lemma {:induction false} UnRoundsUndoRounds(c: Cipher, h: Halves, n: nat)
    requires n <= 32
    ensures UnRounds(c, Rounds(c, h, 32).Swap(), n) == Rounds(c, h, 32 - n).Swap()
  {
    if n > 0 {
      UnRoundsUndoRounds(c, h, n - 1);
      RoundUndone(c, Rounds(c, h, 32 - n), KeyIndex(32 - n));
    }
  }

  lemma {:induction false} RoundsUndoUnRounds(c: Cipher, h: Halves, n: nat)
    requires n <= 32
    ensures Rounds(c, UnRounds(c, h, 32).Swap(), n) == UnRounds(c, h, 32 - n).Swap()
  {
    if n > 0 {
      RoundsUndoUnRounds(c, h, n - 1);
      RoundUndone(c, UnRounds(c, h, 32 - n), KeyIndex(n - 1));
    }
  }

  /** The 32-round cycle is a bijection of the 64-bit blocks, for every key and S-box. */
  lemma EncryptIsBijective(c: Cipher, h: Halves)
    ensures Decrypt(c, Encrypt(c, h)) == h
    ensures Encrypt(c, Decrypt(c, h)) == h
  {
    UnRoundsUndoRounds(c, h, 32);
    RoundsUndoUnRounds(c, h, 32);
  }

  /** A cipher whose first table sends 1 to 1, everything else 0, under the key 1, 0, 0, ... */
  const SAMPLE: Cipher := CipherData([1, 0, 0, 0, 0, 0, 0, 0], seq(0x400, i => if i == 1 then 1 else 0))

  function Word(on: bool): u32 { if on then 0x800 else 0 }

  lemma SampleF(x: u32)
    requires x == 0 || x == 1 || x == 0x800 || x == 0x801
    ensures F(SAMPLE, x) == if x % 2 == 1 then 0x800 else 0
  {
    var x2 := x / 0x100 / 0x100;
    assert x2 == 0 && x % 0x100 < 2;
    assert RotateLeft11(0) == 0 && RotateLeft11(1) == 0x800;
  }

  lemma WordXor(a: bool, b: bool)
    ensures Xor32(Word(a), Word(b)) == Word(a != b)
  {
    hide Xor, Pow2;
    PowersOfTwo();
    XorZero(Word(a), 32);
    XorCommutes(0, Word(b), 32);
    XorZero(Word(b), 32);
    XorCommutes(0, 0x800, 32);
    XorCancel(0, 0x800, 32);
  }

  lemma SampleRound(a: bool, b: bool, i: nat)
    requires i < 8
    ensures Round(SAMPLE, Halves(Word(a), Word(b)), i) == Halves(Word(b != (i == 0)), Word(a))
  {
    hide Xor32, F;
    SampleF((Word(a) + SAMPLE.k[i]) % M32);
    WordXor(b, i == 0);
  }

  lemma {:induction false} SampleRounds(n: nat)
    requires n <= 32
    ensures Rounds(SAMPLE, Halves(0, 0), n)
         == if n == 32 then Halves(0x800, 0x800)
            else if n == 0 || 9 <= n <= 16 then Halves(0, 0)
            else if n % 2 == 1 then Halves(0x800, 0) else Halves(0, 0x800)
  {
    hide Round;
    if n > 0 {
      SampleRounds(n - 1);
      var h := Rounds(SAMPLE, Halves(0, 0), n - 1);
      SampleRound(h.n1 != 0, h.n2 != 0, KeyIndex(n - 1));
    }
  }

  /** A known answer that tells the key order from the plain repetition of the key. */
  lemma KnownAnswer()
    ensures Encrypt(SAMPLE, Halves(0, 0)) == Halves(0x800, 0x800)
  {
    SampleRounds(32);
  }

  // ---- the gamma counter ----

  function Advance(h: Halves): Halves {
    var carry := if h.n2 > 0xfefe_fefb then 1 else 0;
    Halves((h.n1 + GAMMA_C2) % M32, (h.n2 + GAMMA_C1 + carry) % M32)
  }

  function Counter(h: Halves, k: nat): Halves {
    if k == 0 then h else Advance(Counter(h, k - 1))
  }

  /** Reduction modulo m may be delayed. */
  lemma ModStep(x: int, c: int, m: int)
    requires m > 0
    ensures (x % m + c) % m == (x + c) % m
  {
    var q := (x % m + c) / m;
    var r := (x % m + c) % m;
    assert x + c == m * (x / m) + m * q + r;
    assert x + c == m * (x / m + q) + r;
    QuotientUnique(x + c, m, x / m + q, r);
  }

  lemma HighWordAdvances(h: Halves)
    ensures Advance(h).n2 % (M32 - 1) == (h.n2 + GAMMA_C1) % (M32 - 1)
    ensures Advance(h).n2 != 0
  {
    var sum := h.n2 + GAMMA_C1;
    assert Advance(h).n2 == if sum >= M32 then sum - (M32 - 1) else sum;
  }

  /** After k steps the low word is n1 + k*C2 modulo 2^32 and the high word is congruent to
      n2 + k*C1 modulo 2^32-1, where zero is represented by 2^32-1 only. */
  lemma {:induction false} CounterClosedForm(h: Halves, k: nat)
    ensures Counter(h, k).n1 == (h.n1 + k * GAMMA_C2) % M32
    ensures Counter(h, k).n2 % (M32 - 1) == (h.n2 + k * GAMMA_C1) % (M32 - 1)
    ensures k > 0 ==> Counter(h, k).n2 != 0
  {
    if k > 0 {
      var prev := Counter(h, k - 1);
      CounterClosedForm(h, k - 1);
      HighWordAdvances(prev);
      Distribute(k, GAMMA_C1);
      Distribute(k, GAMMA_C2);
      ModStep(h.n1 + (k - 1) * GAMMA_C2, GAMMA_C2, M32);
      ModStep(h.n2 + (k - 1) * GAMMA_C1, GAMMA_C1, M32 - 1);
      ModStep(prev.n2, GAMMA_C1, M32 - 1);
    }
  }

  lemma Distribute(k: int, c: int)
    ensures k * c == (k - 1) * c + c
  {
  }

  /** Multiplication by a unit of the ring modulo m can be cancelled. */
  lemma UnitCancels(d: int, unit: int, inverse: int, t: int, m: int)
    requires m > 0 && unit * inverse == 1 + t * m
    ensures d * unit % m == 0 <==> d % m == 0
  {
    if d % m == 0 {
      var q := d / m;
      assert d * unit == m * (q * unit) by { assert d == m * q; }
      QuotientUnique(d * unit, m, q * unit, 0);
    }
    if d * unit % m == 0 {
      UnitDivides(d, unit, inverse, t, m, d * unit / m);
    }
  }

  lemma UnitDivides(d: int, unit: int, inverse: int, t: int, m: int, q: int)
    requires m > 0 && unit * inverse == 1 + t * m && d * unit == m * q
    ensures d % m == 0
  {
    calc {
      d;
      d * (1 + t * m) - m * (d * t);
      d * (unit * inverse) - m * (d * t);
      d * unit * inverse - m * (d * t);
      m * q * inverse - m * (d * t);
      m * (q * inverse - d * t);
    }
    QuotientUnique(d, m, q * inverse - d * t, 0);
  }

  lemma SameResidue(x: int, y: int, m: int)
    requires m > 0
    ensures x % m == y % m <==> (y - x) % m == 0
  {
    var q := y / m - x / m;
    assert y - x == m * q + (y % m - x % m);
    if x % m == y % m {
      QuotientUnique(y - x, m, q, 0);
    } else if y % m > x % m {
      QuotientUnique(y - x, m, q, y % m - x % m);
    } else {
      assert y - x == m * (q - 1) + (m + y % m - x % m);
      QuotientUnique(y - x, m, q - 1, m + y % m - x % m);
    }
  }

  lemma LowWordsRepeat(h: Halves, i: nat, j: nat)
    ensures Counter(h, i).n1 == Counter(h, j).n1 <==> (j - i) % M32 == 0
  {
    CounterClosedForm(h, i);
    CounterClosedForm(h, j);
    var x, y := h.n1 + i * GAMMA_C2, h.n1 + j * GAMMA_C2;
    SameResidue(x, y, M32);
    assert y - x == (j - i) * GAMMA_C2;
    UnitCancels(j - i, GAMMA_C2, 4294967041, 16843008, M32);
  }

  lemma HighWordsRepeat(h: Halves, i: nat, j: nat)
    requires i > 0 && j > 0
    ensures Counter(h, i).n2 == Counter(h, j).n2 <==> (j - i) % (M32 - 1) == 0
  {
    CounterClosedForm(h, i);
    CounterClosedForm(h, j);
    var x, y := h.n2 + i * GAMMA_C1, h.n2 + j * GAMMA_C1;
    SameResidue(x, y, M32 - 1);
    assert y - x == (j - i) * GAMMA_C1;
    UnitCancels(j - i, GAMMA_C1, 2453464978, 9621433, M32 - 1);
    NonZeroRepresentative(Counter(h, i).n2, Counter(h, j).n2);
  }

  lemma NonZeroRepresentative(x: u32, y: u32)
    requires x != 0 && y != 0
    ensures x == y <==> x % (M32 - 1) == y % (M32 - 1)
  {
  }

  lemma ConsecutiveModuli(d: int)
    ensures d % M32 == 0 && d % (M32 - 1) == 0 <==> d % (M32 * (M32 - 1)) == 0
  {
    var p := M32 * (M32 - 1);
    if d % M32 == 0 && d % (M32 - 1) == 0 {
      var a, b := d / M32, d / (M32 - 1);
      assert d == M32 * a && d == (M32 - 1) * b;
      // d == M32 * d - (M32 - 1) * d, a multiple of the product in both terms
      assert d == p * (b - a);
      QuotientUnique(d, p, b - a, 0);
    }
    if d % p == 0 {
      var q := d / p;
      assert d == p * q;
      QuotientUnique(d, M32, (M32 - 1) * q, 0);
      QuotientUnique(d, M32 - 1, M32 * q, 0);
    }
  }

  function GammaBlock(c: Cipher, start: Halves, k: nat): Block {
    BlockBytes(Encrypt(c, Counter(start, k + 1)))
  }

  function BlockBytes(h: Halves): (b: Block)
    ensures BlockHalves(b) == h
  {
    var b := Le32Bytes(h.n1) + Le32Bytes(h.n2);
    assert b[..4] == Le32Bytes(h.n1) && b[4..] == Le32Bytes(h.n2);
    b
  }

  function BlockHalves(b: Block): Halves {
    Halves(Le32(b[..4]), Le32(b[4..]))
  }

  /** Two gamma blocks are equal exactly when their distance is a multiple of
      2^32 * (2^32 - 1): no block repeats within that period. */
  lemma GammaBlocksRepeat(c: Cipher, start: Halves, i: nat, j: nat)
    ensures GammaBlock(c, start, i) == GammaBlock(c, start, j)
       <==> (j - i) % (M32 * (M32 - 1)) == 0
  {
    var hi, hj := Counter(start, i + 1), Counter(start, j + 1);
    LowWordsRepeat(start, i + 1, j + 1);
    HighWordsRepeat(start, i + 1, j + 1);
    ConsecutiveModuli(j - i);
    assert (j + 1) - (i + 1) == j - i;
    assert hi == hj <==> (j - i) % (M32 * (M32 - 1)) == 0;
    EncryptIsBijective(c, hi);
    EncryptIsBijective(c, hj);
  }

  // ---- exclusive-or of a text with a gamma block ----

  function XorSeq(a: seq<byte>, g: seq<byte>): (r: seq<byte>)
    requires |a| <= |g|
    ensures |r| == |a|
  {
    seq(|a|, i requires 0 <= i < |a| => Xor8(a[i], g[i]))
  }

  lemma XorSeqCancel(a: seq<byte>, g: seq<byte>)
    requires |a| <= |g|
    ensures XorSeq(XorSeq(a, g), g) == a
  {
    forall i | 0 <= i < |a| ensures XorSeq(XorSeq(a, g), g)[i] == a[i] {
      Xor8Cancel(a[i], g[i]);
    }
  }

  /** a' is a with the n bytes at off replaced by x. */
  ghost predicate Spliced(a: seq<byte>, off: nat, n: nat, x: seq<byte>, a': seq<byte>) {
    off + n <= |a| && |x| == n && a' == a[..off] + x + a[off + n..]
  }

  ghost predicate SameFrom(a: seq<byte>, lo: nat, hi: nat, a': seq<byte>) {
    lo <= hi <= |a| && hi <= |a'| && a[lo..hi] == a'[lo..hi]
  }

  /** The state of a pass that has rewritten d bytes: bytes lo..lo+d of dst hold the first d
      bytes of out, the rest of dst is as it was, and the unread text is still in src. */
  ghost predicate Rewritten(was: seq<byte>, text: seq<byte>, out: seq<byte>, lo: nat, d: nat,
                            dst: seq<byte>, src: seq<byte>)
  {
    && d <= |out| == |text| && lo + |out| <= |was| && lo + |text| <= |src|
    && dst == was[..lo] + out[..d] + was[lo + d..]
    && src[lo + d..lo + |text|] == text[d..]
  }

  lemma RewrittenStart(dst: seq<byte>, src: seq<byte>, out: seq<byte>, lo: nat, hi: nat)
    requires lo <= hi <= |src| && hi <= |dst| && |out| == hi - lo
    ensures Rewritten(dst, src[lo..hi], out, lo, 0, dst, src)
  {
  }

  lemma RewrittenStep(was: seq<byte>, text: seq<byte>, out: seq<byte>, lo: nat, d: nat, n: nat, g: Block,
                      dst: seq<byte>, src: seq<byte>, dst': seq<byte>, src': seq<byte>)
    requires Rewritten(was, text, out, lo, d, dst, src)
    requires n <= 8 && d + n <= |out|
    requires out[d..][..n] == XorSeq(text[d..][..n], g)
    requires Spliced(dst, lo + d, n, XorSeq(text[d..][..n], g), dst')
    requires SameFrom(src, lo + d + n, lo + |text|, src')
    ensures Rewritten(was, text, out, lo, d + n, dst', src')
    ensures dst'[lo + d..lo + d + n] == XorSeq(text[d..][..n], g)
  {
    hide XorSeq;
    var x := out[d..][..n];
    assert dst == was[..lo] + out[..d] + was[lo + d..];
    RewriteBlock(was, out, lo, d, n, dst');
    assert src[lo + d + n..lo + |text|] == src[lo + d..lo + |text|][n..] == text[d + n..];
  }

  lemma RewriteBlock(was: seq<byte>, out: seq<byte>, lo: nat, d: nat, n: nat, dst': seq<byte>)
    requires lo + |out| <= |was| && d + n <= |out|
    requires var dst := was[..lo] + out[..d] + was[lo + d..];
             dst' == dst[..lo + d] + out[d..][..n] + dst[lo + d + n..]
    ensures dst' == was[..lo] + out[..d + n] + was[lo + d + n..]
    ensures dst'[lo + d..lo + d + n] == out[d..][..n]
  {
    var x := out[d..][..n];
    var head, tail := was[..lo] + out[..d], was[lo + d..];
    HeadAndTail(head, tail, n);
    assert out[..d + n] == out[..d] + x;
    assert tail[n..] == was[lo + d + n..];
    assert dst' == head + x + tail[n..];
  }

  lemma HeadAndTail(head: seq<byte>, tail: seq<byte>, n: nat)
    requires n <= |tail|
    ensures (head + tail)[..|head|] == head && (head + tail)[|head| + n..] == tail[n..]
    ensures (head + tail)[|head|..|head| + n] == tail[..n]
  {
  }

  lemma RewrittenEnd(was: seq<byte>, text: seq<byte>, out: seq<byte>, lo: nat, dst: seq<byte>, src: seq<byte>)
    requires Rewritten(was, text, out, lo, |out|, dst, src)
    ensures dst == was[..lo] + out + was[lo + |out|..]
  {
    assert out[..|out|] == out;
  }

  /** Writes src[off..off+n] xor g at the same positions of dst, n = min(hi - off, 8). The
      two slices overlap exactly or not at all. */
  method XorBlock(dst: array<byte>, src: array<byte>, off: nat, hi: nat, g: Block) returns (n: nat)
    requires off <= hi <= src.Length && hi <= dst.Length
    modifies dst
    ensures n == if hi - off < 8 then hi - off else 8
    ensures Spliced(old(dst[..]), off, n, XorSeq(old(src[..])[off..hi][..n], g), dst[..])
    ensures SameFrom(old(src[..]), off + n, hi, src[..])
  {
    hide Xor8;
    n := if hi - off < 8 then hi - off else 8;
    ghost var dst0, src0 := dst[..], src[..];
    for i := 0 to n
      invariant forall j :: 0 <= j < dst.Length && !(off <= j < off + i) ==> dst[j] == dst0[j]
      invariant forall j :: off <= j < off + i ==> dst[j] == Xor8(src0[j], g[j - off])
      invariant forall j :: off + i <= j < hi ==> src[j] == src0[j]
    {
      dst[off + i] := Xor8(src[off + i], g[i]);
    }
    XorSlice(src0, off, hi, n, g);
    SplicedPointwise(dst0, off, XorSeq(src0[off..hi][..n], g), dst[..]);
    SameFromPointwise(src0, off + n, hi, src[..]);
  }

  lemma XorSlice(s: seq<byte>, off: nat, hi: nat, n: nat, g: Block)
    requires off <= hi <= |s| && n <= 8 && off + n <= hi
    ensures var x := XorSeq(s[off..hi][..n], g);
            |x| == n && forall j :: off <= j < off + n ==> x[j - off] == Xor8(s[j], g[j - off])
  {
    hide Xor8;
    forall j | off <= j < off + n ensures s[off..hi][..n][j - off] == s[j] {}
  }

  lemma SameFromPointwise(a: seq<byte>, lo: nat, hi: nat, a': seq<byte>)
    requires lo <= hi <= |a| && hi <= |a'| && forall j :: lo <= j < hi ==> a[j] == a'[j]
    ensures SameFrom(a, lo, hi, a')
  {
  }

  lemma SplicedPointwise(a: seq<byte>, off: nat, x: seq<byte>, a': seq<byte>)
    requires |a| == |a'| && off + |x| <= |a|
    requires forall j :: 0 <= j < |a| ==> a'[j] == if off <= j < off + |x| then x[j - off] else a[j]
    ensures Spliced(a, off, |x|, x, a')
  {
    assert a' == a[..off] + x + a[off + |x|..];
  }

  // ---- counter mode ----

  function GammaStart(c: Cipher, sync: Block): Halves {
    Encrypt(c, BlockHalves(sync))
  }

  /** Section 6 of RFC 5830: byte i of the text is combined with byte i % 8 of block i / 8. */
  function Gamma(c: Cipher, sync: Block, s: seq<byte>): (r: seq<byte>)
    ensures |r| == |s|
  {
    seq(|s|, i requires 0 <= i < |s| => Xor8(s[i], GammaBlock(c, GammaStart(c, sync), i / 8)[i % 8]))
  }

  lemma GammaIsInvolution(c: Cipher, sync: Block, s: seq<byte>)
    ensures Gamma(c, sync, Gamma(c, sync, s)) == s
  {
    forall i | 0 <= i < |s| ensures Gamma(c, sync, Gamma(c, sync, s))[i] == s[i] {
      Xor8Cancel(s[i], GammaBlock(c, GammaStart(c, sync), i / 8)[i % 8]);
    }
  }

  /** Gamma keeps the positions of differences: outputs differ exactly where inputs do. */
  lemma GammaPreservesPositions(c: Cipher, sync: Block, s: seq<byte>, t: seq<byte>, i: nat)
    requires i < |s| && |s| == |t|
    ensures Gamma(c, sync, s)[i] == Gamma(c, sync, t)[i] <==> s[i] == t[i]
  {
    var g := GammaBlock(c, GammaStart(c, sync), i / 8)[i % 8];
    Xor8Cancel(s[i], g);
    Xor8Cancel(t[i], g);
  }

  lemma GammaSlice(c: Cipher, sync: Block, s: seq<byte>, k: nat, n: nat)
    requires 8 * k + n <= |s| && n <= 8
    ensures Gamma(c, sync, s)[8 * k..][..n] == XorSeq(s[8 * k..][..n], GammaBlock(c, GammaStart(c, sync), k))
  {
    hide Xor8, GammaBlock, GammaStart;
    var a := Gamma(c, sync, s)[8 * k..][..n];
    var b := XorSeq(s[8 * k..][..n], GammaBlock(c, GammaStart(c, sync), k));
    forall r | 0 <= r < n
      ensures a[r] == b[r]
    {
      assert (8 * k + r) / 8 == k && (8 * k + r) % 8 == r;
      assert a[r] == Gamma(c, sync, s)[8 * k + r];
    }
  }

  /** Byte i of a block, the low half first and each half from its low byte. */
  function BlockByte(h: Halves, i: nat): byte
    requires i < 8
  {
    if i < 4 then ByteOf(h.n1, i) else ByteOf(h.n2, i - 4)
  }

  lemma BlockBytesAt(h: Halves, i: nat)
    requires i < 8
    ensures BlockBytes(h)[i] == BlockByte(h, i)
  {
  }

  /** The k-th counter after a start: constants are added modulo 2^32 and modulo 2^32-1. */
  predicate IsCounter(start: Halves, k: nat, n: Halves) {
    && n.n1 == (start.n1 + k * 0x0101_0101) % 0x1_0000_0000
    && n.n2 % 0xffff_ffff == (start.n2 + k * 0x0101_0104) % 0xffff_ffff
    && (k > 0 ==> n.n2 != 0)
  }

  ghost predicate IsGammaByte(c: Cipher, sync: Block, k: nat, r: nat, g: byte)
    requires r < 8
  {
    exists start: Halves, n: Halves, e: Halves ::
      IsCycle(c, BlockHalves(sync), start) && IsCounter(start, k + 1, n) && IsCycle(c, n, e) && g == BlockByte(e, r)
  }

  /** Section 6 of RFC 5830 in full: the synchronization value is encrypted once, its counters
      are counted on and encrypted, and their bytes combined with the text. */
  lemma GammaIsCounterMode(c: Cipher, sync: Block, s: seq<byte>, i: nat)
    requires i < |s|
    ensures exists g: byte :: IsGammaByte(c, sync, i / 8, i % 8, g) && Gamma(c, sync, s)[i] == Xor8(s[i], g)
  {
    hide IsCycle, Xor8, Counter;
    var start := GammaStart(c, sync);
    var n := Counter(start, i / 8 + 1);
    var e := Encrypt(c, n);
    EncryptIsCycle(c, BlockHalves(sync), start);
    EncryptIsCycle(c, n, e);
    CounterClosedForm(start, i / 8 + 1);
    BlockBytesAt(e, i % 8);
    assert IsCounter(start, i / 8 + 1, n);
    assert IsGammaByte(c, sync, i / 8, i % 8, BlockByte(e, i % 8));
  }

  lemma CounterSteps(c: Cipher, sync: Block, k: nat)
    ensures Counter(GammaStart(c, sync), 0) == Encrypt(c, BlockHalves(sync))
    ensures var h := Advance(Counter(GammaStart(c, sync), k));
            && h == Counter(GammaStart(c, sync), k + 1)
            && BlockBytes(Encrypt(c, h)) == GammaBlock(c, GammaStart(c, sync), k)
  {
  }

  lemma TextLeft(was: seq<byte>, text: seq<byte>, out: seq<byte>, lo: nat, d: nat, dst: seq<byte>, src: seq<byte>)
    requires Rewritten(was, text, out, lo, d, dst, src)
    ensures d <= |out| == |text| && lo + |text| <= |src| && src[lo + d..lo + |text|] == text[d..]
  {
  }

  method GammaInPlace(c: Cipher, sync: Block, dst: array<byte>, src: array<byte>, lo: nat, hi: nat)
    requires lo <= hi <= src.Length && hi <= dst.Length
    modifies dst
    ensures dst[..] == old(dst[..])[..lo] + Gamma(c, sync, old(src[..])[lo..hi]) + old(dst[..])[hi..]
  {
    hide *;
    ghost var was, text := dst[..], src[..][lo..hi];
    ghost var out := Gamma(c, sync, text);
    RewrittenStart(was, src[..], out, lo, hi);
    ghost var d := 0;
    var h := EncryptHalves(c, BlockHalves(sync));
    ghost var k := 0;
    CounterSteps(c, sync, k);
    var off := lo;
    while off < hi
      invariant lo <= off && d == if off < hi then off - lo else hi - lo
      invariant off == lo + 8 * k && h == Counter(GammaStart(c, sync), k)
      invariant Rewritten(was, text, out, lo, d, dst[..], src[..])
    {
      CounterSteps(c, sync, k);
      h := Advance(h);
      var e := EncryptHalves(c, h);
      var g := BlockBytes(e);
      ghost var dst0, src0 := dst[..], src[..];
      TextLeft(was, text, out, lo, d, dst0, src0);
      var n := XorBlock(dst, src, off, hi, g);
      GammaSlice(c, sync, text, k, n);
      RewrittenStep(was, text, out, lo, d, n, g, dst0, src0, dst[..], src[..]);
      off, k, d := off + 8, k + 1, d + n;
    }
    RewrittenEnd(was, text, out, lo, dst[..], src[..]);
  }

  // ---- cipher feedback ----

  function CfbBlock(c: Cipher, fb: Block): Block {
    BlockBytes(Encrypt(c, BlockHalves(fb)))
  }

  /** Section 7 of RFC 5830; a partial last block uses a prefix of its gamma block. */
  function CfbEncrypt(c: Cipher, fb: Block, p: seq<byte>): (r: seq<byte>)
    ensures |r| == |p|
    decreases |p|
  {
    if |p| <= 8 then XorSeq(p, CfbBlock(c, fb))
    else
      var x := XorSeq(p[..8], CfbBlock(c, fb));
      x + CfbEncrypt(c, x, p[8..])
  }

  function CfbDecrypt(c: Cipher, fb: Block, x: seq<byte>): (r: seq<byte>)
    ensures |r| == |x|
    decreases |x|
  {
    if |x| <= 8 then XorSeq(x, CfbBlock(c, fb))
    else XorSeq(x[..8], CfbBlock(c, fb)) + CfbDecrypt(c, x[..8], x[8..])
  }

  /** The block whose encryption covers byte i: the synchronization value, then each block of
      ciphertext for the one after it. */
  function Feedback(fb: Block, x: seq<byte>, i: nat): Block
    requires i < |x|
  {
    if i < 8 then fb else x[i - i % 8 - 8..i - i % 8]
  }

  /** Section 7 of RFC 5830 in full; decryption is its inverse. */
  lemma {:induction false} CfbIsFeedback(c: Cipher, fb: Block, p: seq<byte>, i: nat)
    requires i < |p|
    ensures var x := CfbEncrypt(c, fb, p);
            exists e: Halves :: IsCycle(c, BlockHalves(Feedback(fb, x, i)), e) && x[i] == Xor8(p[i], BlockByte(e, i % 8))
    decreases |p|
  {
    hide IsCycle, Xor8, Encrypt;
    var x := CfbEncrypt(c, fb, p);
    if i < 8 {
      var e := Encrypt(c, BlockHalves(fb));
      EncryptIsCycle(c, BlockHalves(fb), e);
      BlockBytesAt(e, i);
      assert x[i] == Xor8(p[i], CfbBlock(c, fb)[i]);
    } else {
      var y := XorSeq(p[..8], CfbBlock(c, fb));
      CfbIsFeedback(c, y, p[8..], i - 8);
      FeedbackLater(fb, y, CfbEncrypt(c, y, p[8..]), i);
      assert p[8..][i - 8] == p[i] && (i - 8) % 8 == i % 8;
    }
  }

  lemma FeedbackLater(fb: Block, y: Block, x: seq<byte>, i: nat)
    requires 8 <= i < 8 + |x|
    ensures Feedback(fb, y + x, i) == Feedback(y, x, i - 8) && (y + x)[i] == x[i - 8]
  {
    assert (i - 8) % 8 == i % 8;
    if i >= 16 {
      assert (y + x)[i - i % 8 - 8..i - i % 8] == x[i - 8 - i % 8 - 8..i - 8 - i % 8];
    } else {
      assert (y + x)[0..8] == y;
    }
  }

  lemma {:induction false} CfbRoundTrip(c: Cipher, fb: Block, p: seq<byte>)
    ensures CfbDecrypt(c, fb, CfbEncrypt(c, fb, p)) == p
    decreases |p|
  {
    hide XorSeq, CfbBlock;
    if |p| <= 8 {
      XorSeqCancel(p, CfbBlock(c, fb));
    } else {
      var x := XorSeq(p[..8], CfbBlock(c, fb));
      var r := CfbEncrypt(c, fb, p);
      assert r[..8] == x && r[8..] == CfbEncrypt(c, x, p[8..]);
      XorSeqCancel(p[..8], CfbBlock(c, fb));
      CfbRoundTrip(c, x, p[8..]);
      assert p == p[..8] + p[8..];
    }
  }

  /** A difference confined to the last block keeps its positions; in any other block it would
      spread over the block after it. */
  lemma {:induction false} CfbKeepsLastBlock(c: Cipher, fb: Block, x: seq<byte>, y: seq<byte>, m: nat, i: nat)
    requires |x| == |y| && 8 * m <= |x| <= 8 * m + 8 && x[..8 * m] == y[..8 * m] && i < |x|
    ensures CfbDecrypt(c, fb, x)[i] == CfbDecrypt(c, fb, y)[i] <==> x[i] == y[i]
    decreases m
  {
    hide Xor8, CfbBlock;
    var g := CfbBlock(c, fb);
    if |x| <= 8 {
      Xor8Cancel(x[i], g[i]);
      Xor8Cancel(y[i], g[i]);
    } else {
      assert x[..8] == x[..8 * m][..8] && y[..8] == y[..8 * m][..8];
      if i >= 8 {
        assert x[8..][..8 * (m - 1)] == x[..8 * m][8..] && y[8..][..8 * (m - 1)] == y[..8 * m][8..];
        CfbKeepsLastBlock(c, x[..8], x[8..], y[8..], m - 1, i - 8);
      } else {
        assert x[i] == x[..8][i] && y[i] == y[..8][i];
      }
    }
  }

  lemma {:induction false} CfbIsOnto(c: Cipher, fb: Block, x: seq<byte>)
    ensures CfbEncrypt(c, fb, CfbDecrypt(c, fb, x)) == x
    decreases |x|
  {
    hide XorSeq, CfbBlock;
    if |x| <= 8 {
      XorSeqCancel(x, CfbBlock(c, fb));
    } else {
      var p := CfbDecrypt(c, fb, x);
      assert p[..8] == XorSeq(x[..8], CfbBlock(c, fb)) && p[8..] == CfbDecrypt(c, x[..8], x[8..]);
      XorSeqCancel(x[..8], CfbBlock(c, fb));
      CfbIsOnto(c, x[..8], x[8..]);
      assert x == x[..8] + x[8..];
    }
  }

  lemma CfbEncryptStep(c: Cipher, fb: Block, p: seq<byte>, n: nat)
    requires n == if |p| < 8 then |p| else 8
    ensures CfbEncrypt(c, fb, p)[..n] == XorSeq(p[..n], BlockBytes(Encrypt(c, BlockHalves(fb))))
    ensures n == 8 ==> CfbEncrypt(c, XorSeq(p[..8], BlockBytes(Encrypt(c, BlockHalves(fb)))), p[8..])
                       == CfbEncrypt(c, fb, p)[8..]
  {
    assert |p| <= 8 ==> p[..n] == p;
  }

  lemma CfbDecryptStep(c: Cipher, fb: Block, p: seq<byte>, n: nat)
    requires n == if |p| < 8 then |p| else 8
    ensures CfbDecrypt(c, fb, p)[..n] == XorSeq(p[..n], BlockBytes(Encrypt(c, BlockHalves(fb))))
    ensures n == 8 ==> CfbDecrypt(c, p[..8], p[8..]) == CfbDecrypt(c, fb, p)[8..]
  {
    assert |p| <= 8 ==> p[..n] == p;
  }

  lemma SliceTwice(s: seq<byte>, t: seq<byte>, d: nat, n: nat)
    requires d + n <= |s| == |t|
    ensures s[d..][n..] == s[d + n..] && t[d..][n..] == t[d + n..]
  {
  }

  method CfbEncryptInPlace(c: Cipher, sync: Block, dst: array<byte>, src: array<byte>, lo: nat, hi: nat)
    requires lo <= hi <= src.Length && hi <= dst.Length
    modifies dst
    ensures dst[..] == old(dst[..])[..lo] + CfbEncrypt(c, sync, old(src[..])[lo..hi]) + old(dst[..])[hi..]
  {
    hide *;
    ghost var was, text := dst[..], src[..][lo..hi];
    ghost var out := CfbEncrypt(c, sync, text);
    RewrittenStart(was, src[..], out, lo, hi);
    ghost var d := 0;
    var fb: Block := sync;
    assert text[0..] == text && out[0..] == out;
    var off := lo;
    while off < hi
      invariant lo <= off && d == if off < hi then off - lo else hi - lo
      invariant off <= hi ==> CfbEncrypt(c, fb, text[d..]) == out[d..]
      invariant Rewritten(was, text, out, lo, d, dst[..], src[..])
    {
      var e := EncryptHalves(c, BlockHalves(fb));
      var g := BlockBytes(e);
      ghost var dst0, src0 := dst[..], src[..];
      TextLeft(was, text, out, lo, d, dst0, src0);
      var n := XorBlock(dst, src, off, hi, g);
      CfbEncryptStep(c, fb, text[d..], n);
      RewrittenStep(was, text, out, lo, d, n, g, dst0, src0, dst[..], src[..]);
      fb := dst[off..off + n] + g[n..];
      SliceTwice(text, out, d, n);
      assert n == 8 ==> fb == dst[..][lo + d..lo + d + n];
      off, d := off + 8, d + n;
    }
    RewrittenEnd(was, text, out, lo, dst[..], src[..]);
  }

  lemma HeadOfSlice(s: seq<byte>, lo: nat, mid: nat, hi: nat)
    requires lo <= mid <= hi <= |s|
    ensures s[lo..hi][..mid - lo] == s[lo..mid]
  {
  }

  lemma DecryptTurn(c: Cipher, fb: Block, was: seq<byte>, text: seq<byte>, out: seq<byte>, lo: nat, d: nat, n: nat, g: Block,
                    dst: seq<byte>, src: seq<byte>, dst': seq<byte>, src': seq<byte>)
    requires Rewritten(was, text, out, lo, d, dst, src) && CfbDecrypt(c, fb, text[d..]) == out[d..]
    requires n == (if |text| - d < 8 then |text| - d else 8) && g == BlockBytes(Encrypt(c, BlockHalves(fb)))
    requires d <= |text| && lo + |text| <= |src| && src[lo + d..lo + |text|] == text[d..]
    requires Spliced(dst, lo + d, n, XorSeq(src[lo + d..lo + |text|][..n], g), dst')
    requires SameFrom(src, lo + d + n, lo + |text|, src')
    ensures Rewritten(was, text, out, lo, d + n, dst', src')
    ensures n == 8 ==> CfbDecrypt(c, text[d..][..8], text[d + n..]) == out[d + n..]
  {
    hide *;
    TextLeft(was, text, out, lo, d, dst, src);
    CfbDecryptStep(c, fb, text[d..], n);
    RewrittenStep(was, text, out, lo, d, n, g, dst, src, dst', src');
    SliceTwice(text, out, d, n);
  }

  method CfbDecryptInPlace(c: Cipher, sync: Block, dst: array<byte>, src: array<byte>, lo: nat, hi: nat)
    requires lo <= hi <= src.Length && hi <= dst.Length
    modifies dst
    ensures dst[..] == old(dst[..])[..lo] + CfbDecrypt(c, sync, old(src[..])[lo..hi]) + old(dst[..])[hi..]
  {
    hide *;
    ghost var was, text := dst[..], src[..][lo..hi];
    ghost var out := CfbDecrypt(c, sync, text);
    RewrittenStart(was, src[..], out, lo, hi);
    ghost var d := 0;
    var fb: Block := sync;
    assert text[0..] == text && out[0..] == out;
    var off := lo;
    while off < hi
      invariant lo <= off && d == if off < hi then off - lo else hi - lo
      invariant off <= hi ==> CfbDecrypt(c, fb, text[d..]) == out[d..]
      invariant Rewritten(was, text, out, lo, d, dst[..], src[..])
    {
      var e := EncryptHalves(c, BlockHalves(fb));
      var g := BlockBytes(e);
      ghost var dst0, src0 := dst[..], src[..];
      TextLeft(was, text, out, lo, d, dst0, src0);
      var next := if hi - off < 8 then hi else off + 8;
      var input := src[off..next];
      assert input == text[d..][..next - off] by {
        assert input == src0[off..next];
        HeadOfSlice(src0, off, next, hi);
      }
      var n := XorBlock(dst, src, off, hi, g);
      DecryptTurn(c, fb, was, text, out, lo, d, n, g, dst0, src0, dst[..], src[..]);
      fb := input + g[n..];
      assert n == 8 ==> fb == text[d..][..8];
      off, d := off + 8, d + n;
    }
    RewrittenEnd(was, text, out, lo, dst[..], src[..]);
  }

}
