/** Quotations: a 64-bit mask and one packed value per set bit. The splitter skips as many
    values as the mask has ones; the parser walks the bits. Both take the same bytes. */
module Quotation {
  import opened Bytes
  import opened Codec
  import opened Payload
  import opened Records
  import Splitting

  datatype Quote = Quote(secID: u16, board: u16, mask: nat, values: map<nat, i32>)

  /** The values of the set bits of mask, whose lowest bit has number `bit`, in ascending
      order of the bits, and the bytes they take. */
  function BitValues(mask: nat, bit: nat, s: seq<byte>): (r: Option<(map<nat, i32>, nat)>)
    ensures r.Some? ==> r.value.1 <= |s|
    decreases 64 - bit
  {
    if bit >= 64 then Some((map[], 0))
    else if mask % 2 == 0 then BitValues(mask / 2, bit + 1, s)
    else
      match ReadInt32(s)
      case None => None
      case Some((v, k)) =>
        match BitValues(mask / 2, bit + 1, s[k..])
        case None => None
        case Some((values, n)) => Some((map[bit := v] + values, k + n))
  }

  function ParseQuote(body: seq<byte>): Option<(Quote, nat)> {
    if |body| < 4 then None
    else
      match ReadInt64(body[4..])
      case None => None
      case Some((mask, n)) =>
        match BitValues(MaskOf(mask), 0, body[4 + n..])
        case None => None
        case Some((values, m)) => Some((Quote(Be16(body[..2]), Be16(body[2..4]), MaskOf(mask), values), 4 + n + m))
  }

  /** Walking the bits reads exactly as many integers as the mask has ones. */
  lemma {:induction false} BitsAreOnes(mask: nat, bit: nat, s: seq<byte>)
    requires bit <= 64 && mask < Pow2(64 - bit)
    ensures var f, b := ReadFields(Repeat(KInt32, OnesCount(mask)), s), BitValues(mask, bit, s);
            f.Some? == b.Some? && (f.Some? ==> f.value.1 == b.value.1)
    decreases 64 - bit
  {
    hide ReadInt32;
    if bit < 64 {
      Pow2Step(63 - bit);
      var ones := OnesCount(mask / 2);
      if mask % 2 == 0 {
        assert OnesCount(mask) == ones;
        BitsAreOnes(mask / 2, bit + 1, s);
      } else if ReadInt32(s).Some? {
        assert Repeat(KInt32, OnesCount(mask))[1..] == Repeat(KInt32, ones);
        BitsAreOnes(mask / 2, bit + 1, s[ReadInt32(s).value.1..]);
      }
    } else {
      assert Pow2(0) == 1;
    }
  }

  lemma SixtyFour()
    ensures Pow2(64) == TWO64
  {
    PowersOfTwo();
    assert Pow2(36) == 0x10 * Pow2(32);
    assert Pow2(40) == 0x100 * Pow2(32);
    assert Pow2(44) == 0x1000 * Pow2(32);
    assert Pow2(48) == 0x1_0000 * Pow2(32);
    assert Pow2(52) == 0x10_0000 * Pow2(32);
    assert Pow2(56) == 0x100_0000 * Pow2(32);
    assert Pow2(60) == 0x1000_0000 * Pow2(32);
  }

  lemma MaskBound(v: i64)
    ensures MaskOf(v) < Pow2(64)
  {
    SixtyFour();
  }

  /** The splitter and the parser take the same bytes, and one succeeds exactly when the
      other does: a body emitted by the splitter is accepted whole. */
  lemma SplitAndParsed(s: seq<byte>)
    ensures QuotationStep(s) == match ParseQuote(s) case None => Short case Some((_, n)) => Take(0, n)
  {
    hide ReadPacked, OnesCount, ReadFields, BitValues, MaskOf, Repeat, Be16, Pow2;
    if |s| >= 4 && ReadInt64(s[4..]).Some? {
      var (mask, n) := ReadInt64(s[4..]).value;
      MaskBound(mask);
      BitsAreOnes(MaskOf(mask), 0, s[4 + n..]);
    }
  }

  predicate BitSet(mask: nat, i: nat) {
    if i == 0 then mask % 2 == 1 else BitSet(mask / 2, i - 1)
  }

  /** Bit number b of a word whose lowest bit has number `bit`. */
  predicate BitAt(mask: nat, bit: nat, b: nat) {
    b >= bit && BitSet(mask, b - bit)
  }

  /** There is a value for exactly the set bits. */
  lemma {:induction false} ValuesOfSetBits(mask: nat, bit: nat, s: seq<byte>)
    requires bit <= 64 && BitValues(mask, bit, s).Some?
    ensures forall b: nat :: b in BitValues(mask, bit, s).value.0 <==> b < 64 && BitAt(mask, bit, b)
    decreases 64 - bit
  {
    hide ReadInt32;
    if bit < 64 {
      ValuesOfSetBits(mask / 2, bit + 1, if mask % 2 == 0 then s else s[ReadInt32(s).value.1..]);
      forall b: nat | b > bit ensures BitAt(mask, bit, b) == BitAt(mask / 2, bit + 1, b) {
      }
    }
  }

  function ValuesBytes(mask: nat, bit: nat, values: nat -> i32): seq<byte>
    decreases 64 - bit
  {
    if bit >= 64 then []
    else (if mask % 2 == 1 then PackedBytes(values(bit)) else []) + ValuesBytes(mask / 2, bit + 1, values)
  }

  /** Values written for the set bits in ascending order read back under their bit numbers. */
  lemma {:induction false} ValuesRoundTrip(mask: nat, bit: nat, values: nat -> i32, rest: seq<byte>)
    requires bit <= 64
    ensures var w, r := ValuesBytes(mask, bit, values), BitValues(mask, bit, ValuesBytes(mask, bit, values) + rest);
            && r.Some? && r.value.1 == |w|
            && forall b: nat :: (b in r.value.0 <==> b < 64 && BitAt(mask, bit, b))
                                && (b in r.value.0 ==> r.value.0[b] == values(b))
    decreases 64 - bit
  {
    hide ReadInt32, PackedBytes;
    var w := ValuesBytes(mask, bit, values);
    if bit < 64 {
      var tail := ValuesBytes(mask / 2, bit + 1, values);
      ValuesRoundTrip(mask / 2, bit + 1, values, rest);
      if mask % 2 == 1 {
        var b := PackedBytes(values(bit));
        assert w + rest == b + (tail + rest);
        Int32RoundTrip(values(bit), tail + rest);
        assert (b + (tail + rest))[|b|..] == tail + rest;
      } else {
        assert w == tail;
      }
    }
    ValuesOfSetBits(mask, bit, w + rest);
  }

  /** A quotation with a value for each set bit is a complete record exactly when its mask is
      not the one 64-bit value that the packed form does not keep. */
  lemma QuotationComplete(secID: u16, board: u16, mask: i64, values: nat -> i32, z: Inflater)
    ensures var raw := QuoteBytes(secID, board, mask, values);
            BodyStep(TAG_QUOTATION, raw, false, z) == Take(0, |raw|) <==> mask != MIN_INT32
  {
    hide BodyStep, QuotationStep, BitValues, ValuesBytes, PackedBytes, MaskOf, ReadPacked, Be16;
    var raw := QuoteBytes(secID, board, mask, values);
    var vs := ValuesBytes(MaskOf(mask), 0, values);
    assert raw[4..] == PackedBytes(mask) + vs && raw[4..][|PackedBytes(mask)|..] == vs;
    assert vs + [] == vs;
    Splitting.StepCases(TAG_QUOTATION, raw, false, z);
    SplitAndParsed(raw);
    Int64RoundTrip(mask, vs);
    ValuesRoundTrip(MaskOf(mask), 0, values, []);
    if mask == MIN_INT32 {
      LostMask(vs);
      ManyValues(values);
      assert raw[4 + 1..] == vs by {
        assert |PackedBytes(mask)| == 1 by { LostMaskBytes(); }
      }
    }
  }

  function QuoteBytes(secID: u16, board: u16, mask: i64, values: nat -> i32): seq<byte> {
    Be16Bytes(secID) + Be16Bytes(board) + (PackedBytes(mask) + ValuesBytes(MaskOf(mask), 0, values))
  }

  lemma LostMaskBytes()
    ensures |PackedBytes(MIN_INT32)| == 1
  {
  }

  lemma {:induction false} OnesShifted(m: nat, k: nat)
    ensures OnesCount(m * Pow2(k)) == OnesCount(m)
  {
    if k > 0 {
      OnesShifted(m, k - 1);
      Twice(m, Pow2(k - 1));
    }
  }

  lemma Twice(m: nat, p: nat)
    ensures m * (2 * p) == 2 * (m * p) && OnesCount(2 * (m * p)) == OnesCount(m * p)
  {
    assert m * (2 * p) == 2 * (m * p);
    if m * p > 0 {
      assert 2 * (m * p) % 2 == 0 && 2 * (m * p) / 2 == m * p;
    }
  }

  lemma {:induction false} OnesAll(n: nat)
    ensures OnesCount(Pow2(n) - 1) == n
  {
    if n > 0 {
      OnesAll(n - 1);
      var h := Pow2(n - 1) - 1;
      assert Pow2(n) - 1 == 2 * h + 1 && (2 * h + 1) / 2 == h && (2 * h + 1) % 2 == 1;
    }
  }

  lemma {:induction false} ValuePerOne(mask: nat, bit: nat, values: nat -> i32)
    requires bit <= 64 && mask < Pow2(64 - bit)
    ensures |ValuesBytes(mask, bit, values)| >= OnesCount(mask)
    decreases 64 - bit
  {
    hide PackedBytes;
    if bit < 64 {
      Pow2Step(63 - bit);
      ValuePerOne(mask / 2, bit + 1, values);
      assert mask > 0 ==> OnesCount(mask) == mask % 2 + OnesCount(mask / 2);
    } else {
      assert Pow2(0) == 1;
    }
  }

  /** The mask that is read instead has one bit, so one value of at most eight bytes is taken. */
  lemma LostMask(s: seq<byte>)
    ensures BitValues(MaskOf(MIN_INT64), 0, s).Some? ==> BitValues(MaskOf(MIN_INT64), 0, s).value.1 <= 8
  {
    hide BitValues, OnesCount, ReadFields, Repeat, MaskOf, Pow2;
    MaskBound(MIN_INT64);
    BitsAreOnes(MaskOf(MIN_INT64), 0, s);
    OneOne();
    OneInt(s);
  }

  lemma OneOne()
    ensures OnesCount(MaskOf(MIN_INT64)) == 1
  {
    WordPowers();
    OnesShifted(1, 63);
  }

  lemma OneInt(s: seq<byte>)
    ensures ReadFields(Repeat(KInt32, 1), s).Some? ==> ReadFields(Repeat(KInt32, 1), s).value.1 <= 8
  {
    assert Repeat(KInt32, 1) == [KInt32];
  }

  lemma WordPowers()
    ensures Pow2(63) == 0x8000_0000_0000_0000 && Pow2(33) == 0x2_0000_0000 && Pow2(31) == 0x8000_0000
  {
    PowersOfTwo();
    assert Pow2(33) == 2 * Pow2(32) && Pow2(32) == 2 * Pow2(31);
    SixtyFour();
    assert Pow2(64) == 2 * Pow2(63);
  }

  lemma ManyValues(values: nat -> i32)
    ensures |ValuesBytes(MaskOf(MIN_INT32), 0, values)| > 8
  {
    hide ValuesBytes, OnesCount;
    MaskBound(MIN_INT32);
    ValuePerOne(MaskOf(MIN_INT32), 0, values);
    WordPowers();
    OnesShifted(Pow2(33) - 1, 31);
    OnesAll(33);
  }

  // ---- the parser's loop ----

  function Merged(values: map<nat, i32>, used: nat, f: Option<(map<nat, i32>, nat)>): Option<(map<nat, i32>, nat)> {
    match f case None => None case Some((more, n)) => Some((values + more, used + n))
  }

  lemma BitTurn(values: map<nat, i32>, used: nat, mask: nat, bit: nat, s: seq<byte>)
    ensures Merged(map[], 0, BitValues(mask, bit, s)) == BitValues(mask, bit, s)
    ensures var all := Merged(values, used, BitValues(mask, bit, s));
            && (bit >= 64 ==> all == Some((values, used)))
            && (bit < 64 && mask % 2 == 0 ==> all == Merged(values, used, BitValues(mask / 2, bit + 1, s)))
            && (bit < 64 && mask % 2 == 1 && ReadInt32(s) == None ==> all == None)
            && (bit < 64 && mask % 2 == 1 && ReadInt32(s).Some? ==>
                  all == Merged(values[bit := ReadInt32(s).value.0], used + ReadInt32(s).value.1,
                                BitValues(mask / 2, bit + 1, s[ReadInt32(s).value.1..])))
  {
    hide ReadInt32;
    assert values + map[] == values;
    assert forall m: map<nat, i32> :: map[] + m == m;
    if bit < 64 && mask % 2 == 1 && ReadInt32(s).Some? {
      var v := ReadInt32(s).value.0;
      assert forall m: map<nat, i32> :: values + (map[bit := v] + m) == values[bit := v] + m;
    }
  }

  /** What ParseQuote makes of a body whose words and mask have been read. */
  lemma QuoteRead(body: seq<byte>)
    ensures |body| < 4 ==> ParseQuote(body) == None
    ensures |body| >= 4 && ReadInt64(body[4..]) == None ==> ParseQuote(body) == None
    ensures |body| >= 4 && ReadInt64(body[4..]).Some? ==>
              var (mask, n) := ReadInt64(body[4..]).value;
              && n <= |body| - 4
              && ParseQuote(body) == QuoteWith(Be16(body[..2]), Be16(body[2..4]), mask, n, BitValues(MaskOf(mask), 0, body[4 + n..]))
  {
    hide BitValues, MaskOf, Be16;
  }

  function QuoteWith(secID: u16, board: u16, mask: i64, n: nat, values: Option<(map<nat, i32>, nat)>): Option<(Quote, nat)> {
    match values
    case None => None
    case Some((v, m)) => Some((Quote(secID, board, MaskOf(mask), v), 4 + n + m))
  }

  method ParseQuotation(body: seq<byte>) returns (q: Option<Quote>)
    ensures q == match ParseQuote(body) case None => None case Some((v, _)) => Some(v)
  {
    hide ParseQuote, ReadInt64, BitValues, MaskOf, Be16;
    QuoteRead(body);
    var r := new Reader(body);
    var head := TakeHead(r);
    if head == None { return None; }
    var mask := TakeMask(r);
    if mask == None { return None; }
    assert body[4..][ReadInt64(body[4..]).value.1..] == body[4 + ReadInt64(body[4..]).value.1..];
    var values := ParseValues(r, MaskOf(mask.value));
    if values == None { return None; }
    q := Some(Quote(head.value.0, head.value.1, MaskOf(mask.value), values.value));
  }

  method TakeHead(r: Reader) returns (head: Option<(u16, u16)>)
    requires r.Valid()
    modifies r
    ensures var s := old(r.Remaining());
            && r.Valid()
            && head == (if |s| < 4 then None else Some((Be16(s[..2]), Be16(s[2..4]))))
            && (|s| >= 4 ==> r.Remaining() == s[4..])
  {
    hide Be16;
    ghost var s := r.Remaining();
    var secID := r.Uint16();
    if secID == None { return None; }
    assert r.Remaining() == s[2..];
    var board := r.Uint16();
    if board == None { return None; }
    assert s[2..][..2] == s[2..4];
    head := Some((secID.value, board.value));
  }

  method TakeMask(r: Reader) returns (mask: Option<i64>)
    requires r.Valid()
    modifies r
    ensures var s := old(r.Remaining());
            && r.Valid()
            && match ReadInt64(s) { case None => mask == None case Some((m, n)) => mask == Some(m) && r.Remaining() == s[n..] }
  {
    hide ReadInt64;
    mask := r.Int64();
  }

  method ParseValues(r: Reader, mask: nat) returns (values: Option<map<nat, i32>>)
    requires r.Valid()
    modifies r
    ensures values == match BitValues(mask, 0, old(r.Remaining())) case None => None case Some((v, _)) => Some(v)
  {
    hide ReadInt32, BitValues, Merged;
    var found: map<nat, i32> := map[];
    var m := mask;
    ghost var rest, used := r.Remaining(), 0;
    ghost var all := BitValues(mask, 0, rest);
    BitTurn(map[], 0, mask, 0, rest);
    for bit := 0 to 64
      invariant r.Valid() && rest == r.Remaining()
      invariant all == Merged(found, used, BitValues(m, bit, rest))
    {
      BitTurn(found, used, m, bit, rest);
      if m % 2 == 1 {
        var v := r.Int32();
        if v == None {
          return None;
        }
        found := found[bit := v.value];
        ghost var k := ReadInt32(rest).value.1;
        rest, used := rest[k..], used + k;
      }
      m := m / 2;
    }
    BitTurn(found, used, m, 64, rest);
    values := Some(found);
  }
}
