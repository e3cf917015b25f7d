/** The field encodings inside TRANSAQ payloads: bytes, big-endian words, raw blocks,
    NUL-terminated strings of bounded length and packed signed integers. */
module Codec {
  import opened Bytes

  const MIN_INT64 := -0x8000_0000_0000_0000
  const MIN_INT32 := -0x8000_0000
  const TWO64 := 0x1_0000_0000_0000_0000

  type i64 = x: int | -0x8000_0000_0000_0000 <= x <= 0x7fff_ffff_ffff_ffff
  type i32 = x: int | -0x8000_0000 <= x <= 0x7fff_ffff

  /** Two's-complement reading of an integer modulo 2^64 and modulo 2^32. */
  function Wrap64(x: int): i64 { (x - MIN_INT64) % TWO64 + MIN_INT64 }

  function Wrap32(x: int): i32 { (x - MIN_INT32) % 0x1_0000_0000 + MIN_INT32 }

  // ---- little-endian digits ----

  function LeBytes(m: nat, n: nat): (b: seq<byte>)
    ensures |b| == n
  {
    if n == 0 then [] else [m % 0x100] + LeBytes(m / 0x100, n - 1)
  }

  function LeValue(b: seq<byte>): nat {
    if b == [] then 0 else b[0] as int + 0x100 * LeValue(b[1..])
  }

  function Pow256(n: nat): (p: nat)
    ensures p > 0
  {
    if n == 0 then 1 else 0x100 * Pow256(n - 1)
  }

  /** The number of bytes needed to hold m. */
  function ByteLen(m: nat): nat {
    if m == 0 then 0 else 1 + ByteLen(m / 0x100)
  }

  lemma {:induction false} LeRoundTrip(m: nat, n: nat)
    requires m < Pow256(n)
    ensures LeValue(LeBytes(m, n)) == m
  {
    if n > 0 {
      LeRoundTrip(m / 0x100, n - 1);
      assert LeBytes(m, n)[1..] == LeBytes(m / 0x100, n - 1);
    }
  }

  lemma {:induction false} ByteLenBound(m: nat, n: nat)
    ensures ByteLen(m) <= n <==> m < Pow256(n)
  {
    if m > 0 && n > 0 {
      ByteLenBound(m / 0x100, n - 1);
    }
  }

  lemma {:induction false} LeBytesPadded(m: nat, n: nat)
    requires m < Pow256(n)
    ensures LeBytes(m, n + 1) == LeBytes(m, n) + [0]
  {
    if n > 0 {
      LeBytesPadded(m / 0x100, n - 1);
    }
  }

  lemma {:induction false} LeValueBound(b: seq<byte>)
    ensures LeValue(b) < Pow256(|b|)
  {
    if b != [] {
      LeValueBound(b[1..]);
    }
  }

  lemma Powers()
    ensures Pow256(4) == 0x1_0000_0000 && Pow256(6) == 0x1_0000_0000_0000 && Pow256(7) == 0x100_0000_0000_0000
    ensures Pow256(8) == TWO64
  {
    assert Pow256(2) == 0x1_0000;
  }

  // ---- packed integers ----

  /** The magnitude written for v: the minimum 32-bit and 64-bit values become negative zero. */
  function Magnitude(v: i64): nat {
    if v == MIN_INT32 || v == MIN_INT64 then 0 else if v < 0 then -v else v
  }

  function ExtraBytes(v: i64): nat {
    var n := ByteLen(Magnitude(v) / 16);
    if n == 7 then 8 else n
  }

  /** First byte: low nibble of the magnitude, sign bit, count of extra bytes (7 means
      eight); then the rest of the magnitude, little-endian. */
  function PackedBytes(v: i64): (b: seq<byte>)
    ensures |b| == 1 + ExtraBytes(v)
  {
    var n := ExtraBytes(v);
    ExtraBytesBound(v);
    [Magnitude(v) % 16 * 16 + (if v < 0 then 8 else 0) + (if n == 8 then 7 else n)]
    + LeBytes(Magnitude(v) / 16, n)
  }

  lemma ExtraBytesBound(v: i64)
    ensures ExtraBytes(v) <= 6 || ExtraBytes(v) == 8
    ensures Magnitude(v) / 16 < Pow256(ExtraBytes(v))
    ensures MIN_INT32 <= v <= -MIN_INT32 ==> ExtraBytes(v) <= 4
  {
    var m := Magnitude(v) / 16;
    Powers();
    ByteLenBound(m, 8);
    ByteLenBound(m, ByteLen(m));
    ByteLenBound(m, 4);
    ByteLenBound(m, 7);
  }

  /** The value read from a head byte and the magnitude above its nibble. */
  function PackedValue(head: byte, m: nat): i64 {
    var u := (m * 16 + head / 16) % TWO64;
    if head / 8 % 2 == 1 then if u == 0 then MIN_INT64 else Wrap64(-u) else Wrap64(u)
  }

  function ExtraCount(head: byte, wide: bool): nat {
    if wide && head % 8 == 7 then 8 else head % 8
  }

  /** The value and the number of bytes it takes. */
  function ReadPacked(s: seq<byte>, wide: bool): (r: Option<(i64, nat)>)
    ensures r.Some? ==> 1 <= r.value.1 <= |s|
  {
    if |s| < 1 || |s| < ExtraCount(s[0], wide) + 1 then None
    else
      var n := ExtraCount(s[0], wide);
      Some((PackedValue(s[0], LeValue(s[1..n + 1])), n + 1))
  }

  function ReadInt64(s: seq<byte>): Option<(i64, nat)> { ReadPacked(s, true) }

  /** A 32-bit read maps negative zero to the minimum 32-bit value and wraps at 32 bits. */
  function ReadInt32(s: seq<byte>): (r: Option<(i32, nat)>)
    ensures r.Some? ==> 1 <= r.value.1 <= |s|
  {
    match ReadPacked(s, false)
    case None => None
    case Some((v, n)) => Some((if v == MIN_INT64 then MIN_INT32 else Wrap32(v), n))
  }

  lemma PackedHead(v: i64)
    ensures var b := PackedBytes(v);
            && b[0] / 16 == Magnitude(v) % 16 && b[0] / 8 % 2 == (if v < 0 then 1 else 0)
            && ExtraCount(b[0], true) == ExtraBytes(v)
            && (ExtraBytes(v) < 7 ==> ExtraCount(b[0], false) == ExtraBytes(v))
  {
    ExtraBytesBound(v);
    var q, s := Magnitude(v) % 16, if v < 0 then 1 else 0;
    var c := if ExtraBytes(v) == 8 then 7 else ExtraBytes(v);
    HeadParts(q, s, c);
  }

  lemma HeadParts(q: nat, s: nat, c: nat)
    requires s < 2 && c < 8
    ensures var h := q * 16 + s * 8 + c; h / 16 == q && h / 8 % 2 == s && h % 8 == c
  {
    var h := q * 16 + s * 8 + c;
    assert h / 8 == 2 * q + s;
  }

  lemma PackedValueOfMagnitude(v: i64, head: byte)
    requires head / 16 == Magnitude(v) % 16 && head / 8 % 2 == if v < 0 then 1 else 0
    ensures PackedValue(head, Magnitude(v) / 16) == if v == MIN_INT32 then MIN_INT64 else v
  {
    var m := Magnitude(v);
    assert m / 16 * 16 + m % 16 == m;
    assert m < TWO64;
  }

  lemma PackedReadsBack(v: i64, rest: seq<byte>, wide: bool)
    requires wide || ExtraBytes(v) < 7
    ensures ReadPacked(PackedBytes(v) + rest, wide)
         == Some((if v == MIN_INT32 then MIN_INT64 else v, |PackedBytes(v)|))
  {
    hide PackedValue, Magnitude, ExtraBytes, ExtraCount;
    var b, n, m := PackedBytes(v), ExtraBytes(v), Magnitude(v) / 16;
    PackedHead(v);
    ExtraBytesBound(v);
    LeRoundTrip(m, n);
    PackedValueOfMagnitude(v, b[0]);
    assert b[1..] == LeBytes(m, n);
    assert (b + rest)[1..n + 1] == b[1..];
  }

  /** An Int64 written and read back is unchanged exactly when it is not the minimum 32-bit
      value, which comes back as the minimum 64-bit value. */
  lemma Int64RoundTrip(v: i64, rest: seq<byte>)
    ensures ReadInt64(PackedBytes(v) + rest) == Some((v, |PackedBytes(v)|)) <==> v != MIN_INT32
    ensures v == MIN_INT32 ==> ReadInt64(PackedBytes(v) + rest) == Some((MIN_INT64, 1))
  {
    PackedReadsBack(v, rest, true);
  }

  /** Every Int32 is read back, and takes one to five bytes. */
  lemma Int32RoundTrip(v: i32, rest: seq<byte>)
    ensures ReadInt32(PackedBytes(v) + rest) == Some((v, |PackedBytes(v)|))
    ensures 1 <= |PackedBytes(v)| <= 5
  {
    ExtraBytesBound(v);
    PackedReadsBack(v, rest, false);
  }

  /** Bit j of little-endian bytes. */
  lemma {:induction false} LeBits(b: seq<byte>, j: nat)
    ensures BitOf(LeValue(b), j) <==> j < 8 * |b| && BitOf(b[j / 8], j % 8)
  {
    if b == [] {
      ZeroBits(j);
    } else {
      ByteAndRest(b[0], LeValue(b[1..]), j);
      hide BitOf, LeValue;
      if j >= 8 {
        LeBits(b[1..], j - 8);
        assert j - 8 < 8 * |b[1..]| ==> b[1..][(j - 8) / 8] == b[j / 8];
      }
    }
  }

  lemma ByteAndRest(v: byte, rest: nat, j: nat)
    ensures BitOf(v + 0x100 * rest, j) <==> if j < 8 then BitOf(v, j) else BitOf(rest, j - 8)
  {
    hide BitOf, Pow2;
    PowersOfTwo();
    if j < 8 {
      LowerBits(v + 0x100 * rest, 8, j);
    } else {
      UpperBits(v + 0x100 * rest, 8, j - 8);
    }
  }

  /** Bit j of a packed magnitude: the four high bits of the head come first, then the other
      bytes from their low bits up. */
  predicate PackedBit(b: seq<byte>, j: nat)
    requires b != []
  {
    if j < 4 then BitOf(b[0], 4 + j) else j - 4 < 8 * (|b| - 1) && BitOf(b[1 + (j - 4) / 8], (j - 4) % 8)
  }

  lemma JoinedBits(b: seq<byte>, j: nat)
    requires b != []
    ensures BitOf(LeValue(b[1..]) * 16 + b[0] / 16, j) <==> PackedBit(b, j)
  {
    hide BitOf, LeValue, Pow2;
    var m := LeValue(b[1..]);
    var u: nat := m * 16 + b[0] / 16;
    SixteenIsFour();
    UpperBits(b[0], 4, j);
    if j < 4 {
      LowerBits(u, 4, j);
    } else {
      UpperBits(u, 4, j - 4);
      LeBits(b[1..], j - 4);
    }
  }

  lemma SixteenIsFour()
    ensures Pow2(4) == 16 && Pow2(64) == TWO64
  {
    PowersOfTwo();
    Pow2Sum(32, 32);
  }

  lemma {:induction false} Pow2Sum(a: nat, b: nat)
    ensures Pow2(a + b) == Pow2(a) * Pow2(b)
  {
    if a > 0 {
      Pow2Sum(a - 1, b);
    }
  }

  /** What the packed form is, bit by bit: the head holds the four low bits of the magnitude, the
      sign and the number of the other bytes, of which there are as few as possible, though
      never seven; the two least integers are negative zero. */
  lemma PackedForm(v: i64, j: nat)
    ensures var b := PackedBytes(v);
            && b[0] / 8 % 2 == (if v < 0 then 1 else 0)
            && b[0] % 8 == (if |b| == 9 then 7 else |b| - 1) && |b| != 8
            && (v == MIN_INT32 || v == MIN_INT64 ==> b == [8])
            && (v != MIN_INT32 && v != MIN_INT64 ==> (PackedBit(b, j) <==> BitOf(if v < 0 then -v else v, j)))
            && (2 <= |b| <= 7 ==> b[|b| - 1] != 0)
  {
    hide BitOf, PackedBit, Pow256;
    var b, n, m := PackedBytes(v), ExtraBytes(v), Magnitude(v) / 16;
    PackedHead(v);
    ExtraBytesBound(v);
    LeRoundTrip(m, n);
    assert b[1..] == LeBytes(m, n);
    JoinedBits(b, j);
    if 1 <= n <= 6 {
      TopByte(m, n);
    }
  }

  /** As few bytes as possible: the last one is not zero. */
  lemma {:induction false} TopByte(m: nat, n: nat)
    requires n > 0 && ByteLen(m) == n
    ensures LeBytes(m, n)[n - 1] != 0
  {
    if n > 1 {
      TopByte(m / 0x100, n - 1);
    } else {
      assert ByteLen(m / 0x100) == 0;
    }
  }

  /** The value of packed bytes: the 64 low bits of the magnitude with the sign of the head;
      negative zero is the least integer. */
  predicate ReadAs(b: seq<byte>, u: nat, v: i64)
    requires b != []
  {
    && u < TWO64 && (forall j: nat :: j < 64 ==> (BitOf(u, j) <==> PackedBit(b, j)))
    && v == if b[0] / 8 % 2 == 0 then Wrap64(u) else if u == 0 then MIN_INT64 else Wrap64(-(u as int))
  }

  /** What a packed integer is read as, whoever wrote it: as many bytes as the head counts,
      where seven stands for eight in a 64-bit read. */
  lemma PackedRead(s: seq<byte>, wide: bool)
    ensures ReadPacked(s, wide).Some? <==> s != [] && (if wide && s[0] % 8 == 7 then 8 else s[0] % 8) < |s|
    ensures ReadPacked(s, wide).Some? ==>
              var (v, k) := ReadPacked(s, wide).value;
              k == 1 + (if wide && s[0] % 8 == 7 then 8 else s[0] % 8) && exists u: nat :: ReadAs(s[..k], u, v)
  {
    hide BitOf, PackedBit, LeValue, Wrap64, Pow2;
    if ReadPacked(s, wide).Some? {
      var (v, k) := ReadPacked(s, wide).value;
      assert s[..k][1..] == s[1..k];
      var w: nat := LeValue(s[1..k]) * 16 + s[0] / 16;
      SixteenIsFour();
      forall j: nat | j < 64 ensures BitOf(w % TWO64, j) <==> PackedBit(s[..k], j) {
        JoinedBits(s[..k], j);
        LowerBits(w, 64, j);
      }
      assert ReadAs(s[..k], w % TWO64, v);
    }
  }

  // ---- strings ----

  /** The position of the first NUL, or the length. */
  function NulIndex(s: seq<byte>): (i: nat)
    ensures i <= |s| && 0 !in s[..i] && (i < |s| ==> s[i] == 0)
  {
    if s == [] || s[0] == 0 then 0
    else
      var i := NulIndex(s[1..]);
      assert s[..i + 1] == [s[0]] + s[1..][..i];
      i + 1
  }

  lemma {:induction false} NulIndexUnique(s: seq<byte>, i: nat)
    requires i < |s| && s[i] == 0 && 0 !in s[..i]
    ensures NulIndex(s) == i
  {
    if i > 0 {
      assert s[0] == s[..i][0] && s[1..][..i - 1] == s[..i][1..];
      NulIndexUnique(s[1..], i - 1);
    }
  }

  lemma {:induction false} NulNotBefore(s: seq<byte>, i: nat)
    requires i <= |s| && 0 !in s[..i]
    ensures NulIndex(s) >= i
  {
    if i > 0 {
      assert s[0] == s[..i][0] && s[1..][..i - 1] == s[..i][1..];
      NulNotBefore(s[1..], i - 1);
    }
  }

  function Truncated(s: seq<byte>, max: nat): (t: seq<byte>)
    ensures 0 !in t && |t| <= max
  {
    var t := s[..NulIndex(s)];
    if |t| > max then t[..max] else t
  }

  function StringBytes(s: seq<byte>, max: nat): seq<byte> {
    Truncated(s, max) + [0]
  }

  /** The text ahead of the first NUL, if it is no longer than max; the length counts its NUL. */
  function ReadString(s: seq<byte>, max: nat): (r: Option<(seq<byte>, nat)>)
    ensures r.Some? ==> 1 <= r.value.1 <= |s|
  {
    var i := NulIndex(s);
    if i < |s| && i <= max then Some((s[..i], i + 1)) else None
  }

  lemma StringReadsBack(s: seq<byte>, max: nat, rest: seq<byte>)
    ensures ReadString(StringBytes(s, max) + rest, max) == Some((Truncated(s, max), |StringBytes(s, max)|))
  {
    var t := Truncated(s, max);
    var b := StringBytes(s, max) + rest;
    assert b[..|t|] == t && b[|t|] == 0;
    NulIndexUnique(b, |t|);
  }

  /** What is written of a text: the longest start without NUL that is no longer than max. */
  lemma TextForm(s: seq<byte>, max: nat)
    ensures var k := |StringBytes(s, max)| - 1;
            && 0 <= k <= |s| && k <= max && StringBytes(s, max) == s[..k] + [0]
            && 0 !in s[..k] && (k == max || k == |s| || s[k] == 0)
  {
    var k := |Truncated(s, max)|;
    assert s[..NulIndex(s)][..k] == s[..k];
  }

  /** Exactly which texts are read: no longer than max, without NUL, and ended by one. */
  lemma TextRead(s: seq<byte>, max: nat, t: seq<byte>, n: nat)
    ensures ReadString(s, max) == Some((t, n))
       <==> n == |t| + 1 <= |s| && |t| <= max && s[..|t|] == t && 0 !in t && s[|t|] == 0
  {
    if n == |t| + 1 <= |s| && |t| <= max && s[..|t|] == t && 0 !in t && s[|t|] == 0 {
      NulIndexUnique(s, |t|);
    }
  }

  // ---- lists of typed fields ----

  datatype Field =
    | FByte(b: byte)
    | FWord(w: u16)
    | FRaw(raw: seq<byte>)
    | FString(text: seq<byte>, max: nat)
    | FInt32(v: i32)
    | FInt64(w64: i64)

  datatype Kind = KByte | KWord | KRaw(n: nat) | KString(max: nat) | KInt32 | KInt64

  function KindOf(f: Field): Kind {
    match f
    case FByte(_) => KByte
    case FWord(_) => KWord
    case FRaw(raw) => KRaw(|raw|)
    case FString(_, max) => KString(max)
    case FInt32(_) => KInt32
    case FInt64(_) => KInt64
  }

  function FieldBytes(f: Field): seq<byte> {
    match f
    case FByte(b) => [b]
    case FWord(w) => Be16Bytes(w)
    case FRaw(raw) => raw
    case FString(text, max) => StringBytes(text, max)
    case FInt32(v) => PackedBytes(v)
    case FInt64(v) => PackedBytes(v)
  }

  function ReadField(k: Kind, s: seq<byte>): (r: Option<(Field, nat)>)
    ensures r.Some? ==> r.value.1 <= |s|
  {
    match k
    case KByte => if |s| < 1 then None else Some((FByte(s[0]), 1))
    case KWord => if |s| < 2 then None else Some((FWord(Be16(s[..2])), 2))
    case KRaw(n) => if |s| < n then None else Some((FRaw(s[..n]), n))
    case KString(max) =>
      (match ReadString(s, max) case None => None case Some((t, n)) => Some((FString(t, max), n)))
    case KInt32 => (match ReadInt32(s) case None => None case Some((v, n)) => Some((FInt32(v), n)))
    case KInt64 => (match ReadInt64(s) case None => None case Some((v, n)) => Some((FInt64(v), n)))
  }

  /** What a field becomes on the wire: strings are cut, one 64-bit value is not kept. */
  function Stored(f: Field): Field {
    match f
    case FString(text, max) => FString(Truncated(text, max), max)
    case FInt64(v) => FInt64(if v == MIN_INT32 then MIN_INT64 else v)
    case _ => f
  }

  /** Exactly the fields a caller can rely on to come back unchanged. */
  lemma StoredUnchanged(f: Field)
    ensures Stored(f) == f <==> match f
                                case FString(text, max) => 0 !in text && |text| <= max
                                case FInt64(v) => v != MIN_INT32
                                case _ => true
  {
    if f.FString? && 0 !in f.text {
      assert NulIndex(f.text) == |f.text|;
      assert f.text[..|f.text|] == f.text;
    }
  }

  lemma FieldReadsBack(f: Field, rest: seq<byte>)
    ensures ReadField(KindOf(f), FieldBytes(f) + rest) == Some((Stored(f), |FieldBytes(f)|))
  {
    var b := FieldBytes(f);
    match f
    case FByte(_) =>
    case FWord(w) => assert (b + rest)[..2] == b;
    case FRaw(raw) => assert (b + rest)[..|raw|] == raw;
    case FString(text, max) => StringReadsBack(text, max, rest);
    case FInt32(v) => Int32RoundTrip(v, rest);
    case FInt64(v) => PackedReadsBack(v, rest, true);
  }

  function FieldsBytes(fs: seq<Field>): seq<byte> {
    if fs == [] then [] else FieldBytes(fs[0]) + FieldsBytes(fs[1..])
  }

  function Kinds(fs: seq<Field>): seq<Kind> {
    if fs == [] then [] else [KindOf(fs[0])] + Kinds(fs[1..])
  }

  function AllStored(fs: seq<Field>): seq<Field> {
    if fs == [] then [] else [Stored(fs[0])] + AllStored(fs[1..])
  }

  function ReadFields(ks: seq<Kind>, s: seq<byte>): (r: Option<(seq<Field>, nat)>)
    ensures r.Some? ==> r.value.1 <= |s|
  {
    if ks == [] then Some(([], 0))
    else
      match ReadField(ks[0], s)
      case None => None
      case Some((f, n)) =>
        match ReadFields(ks[1..], s[n..])
        case None => None
        case Some((fs, m)) => Some(([f] + fs, n + m))
  }

  /** Any list of fields, followed by any bytes, is read back as stored and nothing of what
      follows is touched. */
  lemma {:induction false} FieldsRoundTrip(fs: seq<Field>, rest: seq<byte>)
    ensures ReadFields(Kinds(fs), FieldsBytes(fs) + rest) == Some((AllStored(fs), |FieldsBytes(fs)|))
  {
    hide ReadField, FieldBytes, Stored, KindOf;
    if fs != [] {
      var b, tail := FieldBytes(fs[0]), FieldsBytes(fs[1..]) + rest;
      assert FieldsBytes(fs) + rest == b + tail;
      FieldReadsBack(fs[0], tail);
      assert (b + tail)[|b|..] == tail;
      FieldsRoundTrip(fs[1..], rest);
      assert Kinds(fs)[1..] == Kinds(fs[1..]);
    }
  }

  // ---- reading does not look beyond what it consumes ----

  predicate SameStart(s: seq<byte>, u: seq<byte>, n: nat) {
    n <= |s| && n <= |u| && s[..n] == u[..n]
  }

  lemma SameStartTail(s: seq<byte>, u: seq<byte>, k: nat, n: nat)
    requires k <= n && SameStart(s, u, n)
    ensures SameStart(s, u, k) && SameStart(s[k..], u[k..], n - k)
    ensures forall i, j :: 0 <= i <= j <= n ==> s[i..j] == u[i..j]
  {
    assert s[..k] == s[..n][..k] && u[..k] == u[..n][..k];
    assert s[k..][..n - k] == s[..n][k..] && u[k..][..n - k] == u[..n][k..];
    forall i, j | 0 <= i <= j <= n ensures s[i..j] == u[i..j] {
      assert s[i..j] == s[..n][i..j] && u[i..j] == u[..n][i..j];
    }
  }

  lemma SameStartAt(s: seq<byte>, u: seq<byte>, n: nat, i: nat)
    requires i < n && SameStart(s, u, n)
    ensures s[i] == u[i]
  {
    assert s[i] == s[..n][i] && u[i] == u[..n][i];
  }

  lemma ReadPackedLocal(s: seq<byte>, u: seq<byte>, wide: bool)
    requires ReadPacked(s, wide).Some? && SameStart(s, u, ReadPacked(s, wide).value.1)
    ensures ReadPacked(u, wide) == ReadPacked(s, wide)
  {
    hide PackedValue;
    var n := ReadPacked(s, wide).value.1;
    SameStartAt(s, u, n, 0);
    SameStartTail(s, u, 1, n);
    assert s[1..n] == u[1..n];
  }

  lemma ReadStringLocal(s: seq<byte>, u: seq<byte>, max: nat)
    requires ReadString(s, max).Some? && SameStart(s, u, ReadString(s, max).value.1)
    ensures ReadString(u, max) == ReadString(s, max)
  {
    var i := NulIndex(s);
    SameStartAt(s, u, i + 1, i);
    SameStartTail(s, u, i, i + 1);
    NulIndexUnique(u, i);
  }

  lemma ReadFieldLocal(k: Kind, s: seq<byte>, u: seq<byte>)
    requires ReadField(k, s).Some? && SameStart(s, u, ReadField(k, s).value.1)
    ensures ReadField(k, u) == ReadField(k, s)
  {
    hide PackedValue;
    match k
    case KByte => SameStartAt(s, u, 1, 0);
    case KWord =>
    case KRaw(n) =>
    case KString(max) => ReadStringLocal(s, u, max);
    case KInt32 => ReadPackedLocal(s, u, false);
    case KInt64 => ReadPackedLocal(s, u, true);
  }

  lemma {:induction false} ReadFieldsLocal(ks: seq<Kind>, s: seq<byte>, u: seq<byte>)
    requires ReadFields(ks, s).Some? && SameStart(s, u, ReadFields(ks, s).value.1)
    ensures ReadFields(ks, u) == ReadFields(ks, s)
  {
    hide ReadField, SameStart;
    if ks != [] {
      var n, m := ReadField(ks[0], s).value.1, ReadFields(ks, s).value.1;
      SameStartTail(s, u, n, m);
      SameStartBounds(s, u, m);
      ReadFieldLocal(ks[0], s, u);
      ReadFieldsLocal(ks[1..], s[n..], u[n..]);
    }
  }

  lemma SameStartBounds(s: seq<byte>, u: seq<byte>, n: nat)
    requires SameStart(s, u, n)
    ensures n <= |s| && n <= |u|
  {
  }
}
