/** Exact decimals: printing, parsing and rescaling them. */
module Decimals {
  import opened Bytes
  import opened Codec

  /** units x 10^-scale. */
  datatype Decimal = Decimal(units: i64, scale: byte)

  function TenTo(n: nat): (p: nat)
    ensures p >= 1
  {
    if n == 0 then 1 else 10 * TenTo(n - 1)
  }

  lemma {:induction false} TenToAdd(a: nat, b: nat)
    ensures TenTo(a + b) == TenTo(a) * TenTo(b)
  {
    if a > 0 {
      TenToAdd(a - 1, b);
      Regroup(10, TenTo(a - 1), TenTo(b));
    }
  }

  lemma Regroup(x: int, y: int, z: int)
    ensures x * (y * z) == (x * y) * z
  {
  }

  // ---- digits ----

  function DigitChar(d: nat): char
    requires d < 10
  {
    (d + 48) as char
  }

  predicate IsDigit(c: char) { '0' <= c <= '9' }

  predicate AllDigits(s: string) {
    forall i :: 0 <= i < |s| ==> IsDigit(s[i])
  }

  function NatText(n: nat): string {
    if n < 10 then [DigitChar(n)] else NatText(n / 10) + [DigitChar(n % 10)]
  }

  function TextNat(s: string): nat {
    if s == [] then 0 else 10 * TextNat(s[..|s| - 1]) + if IsDigit(s[|s| - 1]) then s[|s| - 1] as int - 48 else 0
  }

  lemma TextNatPush(s: string, d: nat)
    requires d < 10
    ensures TextNat(s + [DigitChar(d)]) == 10 * TextNat(s) + d
    ensures AllDigits(s) ==> AllDigits(s + [DigitChar(d)])
  {
    assert (s + [DigitChar(d)])[..|s|] == s;
  }

  lemma {:induction false} NatTextValue(n: nat)
    ensures NatText(n) != [] && AllDigits(NatText(n)) && TextNat(NatText(n)) == n
  {
    if n < 10 {
      assert [] + [DigitChar(n)] == [DigitChar(n)];
      TextNatPush([], n);
    } else {
      NatTextValue(n / 10);
      TextNatPush(NatText(n / 10), n % 10);
    }
  }

  function Zeros(k: nat): (z: string)
    ensures |z| == k && forall i :: 0 <= i < k ==> z[i] == '0'
  {
    seq(k, i => '0')
  }

  lemma {:induction false} ZerosValue(k: nat, s: string)
    requires AllDigits(s)
    ensures AllDigits(Zeros(k) + s) && TextNat(Zeros(k) + s) == TextNat(s)
  {
    if s == [] {
      if k > 0 {
        ZerosValue(k - 1, []);
        assert (Zeros(k) + [])[..k - 1] == Zeros(k - 1) + [];
      }
    } else {
      var front := s[..|s| - 1];
      ZerosValue(k, front);
      assert (Zeros(k) + s)[..k + |s| - 1] == Zeros(k) + front;
    }
  }

  /** Zeros in front up to a width. */
  function Pad(s: string, width: nat): (p: string)
    ensures |p| == if |s| < width then width else |s|
  {
    if |s| < width then Zeros(width - |s|) + s else s
  }

  lemma PadLast(n: nat, width: nat)
    requires width >= 2
    ensures Pad(NatText(n), width) == Pad(NatText(n / 10), width - 1) + [DigitChar(n % 10)]
  {
    NatTextValue(n / 10);
    if n < 10 {
      assert NatText(0) == ['0'];
    }
  }

  /** The decimal point in front of the last `scale` characters. */
  function Point(digits: string, scale: nat): string
    requires |digits| >= scale
  {
    digits[..|digits| - scale] + "." + digits[|digits| - scale..]
  }

  function Plain(n: nat, scale: nat): string {
    if scale == 0 then NatText(n) else Point(Pad(NatText(n), scale + 1), scale)
  }

  // ---- parsing ----

  predicate IsSpace(c: char) {
    c in {' ', '\t', '\n', '\r', 11 as char, 12 as char, 0x85 as char, 0xa0 as char, 0x1680 as char, 0x2028 as char,
          0x2029 as char, 0x202f as char, 0x205f as char, 0x3000 as char} || 0x2000 as char <= c <= 0x200a as char
  }

  function TrimSpace(s: string): string {
    if s != [] && IsSpace(s[0]) then TrimSpace(s[1..])
    else if s != [] && IsSpace(s[|s| - 1]) then TrimSpace(s[..|s| - 1])
    else s
  }

  function DotIndex(s: string): (i: nat)
    ensures i <= |s| && '.' !in s[..i] && (i < |s| ==> s[i] == '.')
  {
    if s == [] || s[0] == '.' then 0
    else
      assert s == [s[0]] + s[1..];
      1 + DotIndex(s[1..])
  }

  function Cut(s: string): (string, string) {
    var i := DotIndex(s);
    if i < |s| then (s[..i], s[i + 1..]) else (s, "")
  }

  /** The base-10 conversion: an optional sign, at least one digit, within 64 bits. */
  function ParseInt(s: string): Option<i64> {
    var signed := s != [] && (s[0] == '-' || s[0] == '+');
    var body := if signed then s[1..] else s;
    if body == [] || !AllDigits(body) then None
    else
      var v: int := TextNat(body);
      if signed && s[0] == '-' then (if -v < MIN_INT64 then None else Some(-v))
      else if v > -(MIN_INT64 + 1) then None else Some(v)
  }

  function ParseDecimal(text: string): Option<Decimal> {
    var t := TrimSpace(text);
    if t == [] then None
    else
      var neg := t[0] == '-';
      var (whole, frac) := Cut(if neg then t[1..] else t);
      Assembled(neg, if whole == [] then "0" else whole, frac)
  }

  function Assembled(neg: bool, whole: string, frac: string): Option<Decimal> {
    match ParseInt(whole + frac)
    case None => None
    case Some(u) => Some(Decimal(if neg then Wrap64(-(u as int)) else u, |frac| % 0x100))
  }

  lemma {:induction false} DotAt(a: string, b: string)
    requires '.' !in a
    ensures DotIndex(a + "." + b) == |a| && Cut(a + "." + b) == (a, b)
  {
    var s := a + "." + b;
    if a != [] {
      assert a == [a[0]] + a[1..];
      DotAt(a[1..], b);
      assert s[1..] == a[1..] + "." + b;
    }
    assert s[..|a|] == a && s[|a| + 1..] == b;
  }

  lemma {:induction false} NoDot(s: string)
    requires '.' !in s
    ensures DotIndex(s) == |s| && Cut(s) == (s, "")
  {
    if s != [] {
      assert s == [s[0]] + s[1..];
      NoDot(s[1..]);
    }
  }

  lemma PadDigits(n: nat, width: nat)
    ensures var p := Pad(NatText(n), width); p != [] && AllDigits(p) && TextNat(p) == n
  {
    hide NatText, TextNat;
    NatTextValue(n);
    var text := NatText(n);
    if |text| < width {
      ZerosValue(width - |text|, text);
    }
  }

  lemma DigitsHaveNoDot(s: string)
    requires AllDigits(s)
    ensures '.' !in s
  {
  }

  /** A plain number is cut into its whole and fractional digits. */
  lemma CutPlain(n: nat, scale: nat)
    ensures var (whole, frac) := Cut(Plain(n, scale));
            whole != [] && |frac| == scale && AllDigits(whole + frac) && TextNat(whole + frac) == n
    ensures Plain(n, scale) != [] && IsDigit(Plain(n, scale)[0]) && IsDigit(Plain(n, scale)[|Plain(n, scale)| - 1])
  {
    hide NatText, TextNat, Pad, Cut;
    PadDigits(n, scale + 1);
    NatTextValue(n);
    if scale == 0 {
      DigitsHaveNoDot(NatText(n));
      NoDot(NatText(n));
      assert NatText(n) + "" == NatText(n);
    } else {
      var digits := Pad(NatText(n), scale + 1);
      PadLength(NatText(n), scale + 1);
      CutPoint(digits, scale);
    }
  }

  lemma PadLength(s: string, width: nat)
    ensures |Pad(s, width)| >= width
  {
  }

  lemma CutPoint(digits: string, scale: nat)
    requires AllDigits(digits) && 0 < scale < |digits|
    ensures var (whole, frac) := Cut(Point(digits, scale)); whole + frac == digits && |frac| == scale && whole != []
    ensures var p := Point(digits, scale); |p| == |digits| + 1 && p[0] == digits[0] && p[|p| - 1] == digits[|digits| - 1]
  {
    var k := |digits| - scale;
    DigitsHaveNoDot(digits[..k]);
    DotAt(digits[..k], digits[k..]);
    assert digits[..k] + digits[k..] == digits;
  }

  lemma TrimNothing(s: string)
    requires s != [] && !IsSpace(s[0]) && !IsSpace(s[|s| - 1])
    ensures TrimSpace(s) == s
  {
  }

  function Signed(neg: bool, text: string): string { if neg then "-" + text else text }

  /** The text of a number, with a sign, read back. */
  lemma ParsePlain(neg: bool, n: nat, scale: byte)
    ensures ParseDecimal(Signed(neg, Plain(n, scale)))
         == if n > -(MIN_INT64 + 1) then None else Some(Decimal(if neg then -(n as int) else n, scale))
  {
    hide Plain, TextNat, Cut, IsSpace;
    CutPlain(n, scale);
    var text := Signed(neg, Plain(n, scale));
    NoSpaces(text);
    TrimNothing(text);
    assert neg ==> text[1..] == Plain(n, scale);
    var (whole, frac) := Cut(Plain(n, scale));
    assert (whole + frac)[0] == whole[0];
  }

  lemma NoSpaces(s: string)
    requires s != [] && (IsDigit(s[0]) || s[0] == '-') && IsDigit(s[|s| - 1])
    ensures !IsSpace(s[0]) && !IsSpace(s[|s| - 1])
  {
  }

  // ---- exactly what is parsed ----

  predicate AllSpaces(s: string) {
    forall i :: 0 <= i < |s| ==> IsSpace(s[i])
  }

  /** Outer spaces are taken off, and nothing else. */
  lemma {:induction false} TrimmedShape(s: string) returns (before: string, after: string)
    ensures s == before + TrimSpace(s) + after && AllSpaces(before) && AllSpaces(after)
    ensures TrimSpace(s) != [] ==> !IsSpace(TrimSpace(s)[0]) && !IsSpace(TrimSpace(s)[|TrimSpace(s)| - 1])
    decreases |s|
  {
    hide IsSpace;
    before, after := "", "";
    if s != [] && IsSpace(s[0]) {
      before, after := TrimmedShape(s[1..]);
      assert s == [s[0]] + before + TrimSpace(s) + after;
      before := [s[0]] + before;
    } else if s != [] && IsSpace(s[|s| - 1]) {
      var last := s[|s| - 1];
      before, after := TrimmedShape(s[..|s| - 1]);
      assert s == before + TrimSpace(s) + (after + [last]);
      after := after + [last];
    }
  }

  lemma {:induction false} SpacesTrimmed(before: string, t: string, after: string)
    requires AllSpaces(before) && AllSpaces(after) && t != [] && !IsSpace(t[0]) && !IsSpace(t[|t| - 1])
    ensures TrimSpace(before + t + after) == t
    decreases |before| + |after|
  {
    hide IsSpace;
    var s := before + t + after;
    if before != [] {
      assert s[1..] == before[1..] + t + after;
      SpacesTrimmed(before[1..], t, after);
    } else if after != [] {
      assert s == t + after && s[..|s| - 1] == before + t + after[..|after| - 1];
      SpacesTrimmed(before, t, after[..|after| - 1]);
    } else {
      assert s == t;
    }
  }

  datatype Sign = Bare | Plus | Minus

  function SignText(sign: Sign): string {
    match sign
    case Bare => ""
    case Plus => "+"
    case Minus => "-"
  }

  /** The text between the spaces: a minus, a further sign, digits, and digits behind a point.
      A text without a minus in front has no second minus. */
  function NumberText(neg: bool, sign: Sign, whole: string, frac: string, dot: bool): string {
    (if neg then "-" else "") + (SignText(sign) + whole + if dot then "." + frac else "")
  }

  /** What such a text stands for: the digits as one number, with the further sign; without any
      digit it is zero, unless there is a further sign. */
  function NumberValue(neg: bool, sign: Sign, whole: string, frac: string): Option<Decimal> {
    var n := TextNat(whole + frac);
    var v := if sign == Minus then -(n as int) else n;
    if (sign != Bare && whole + frac == "") || v < MIN_INT64 || v > -(MIN_INT64 + 1) then None
    else Some(Decimal(if neg then Wrap64(-v) else v, |frac| % 0x100))
  }

  predicate NumberShape(neg: bool, sign: Sign, whole: string, frac: string, dot: bool) {
    && AllDigits(whole) && AllDigits(frac) && (dot || frac == "") && (sign == Minus ==> neg)
    && NumberText(neg, sign, whole, frac, dot) != ""
  }

  lemma ParseIntOf(sign: Sign, digits: string)
    requires AllDigits(digits)
    ensures ParseInt(SignText(sign) + digits)
         == var v := if sign == Minus then -(TextNat(digits) as int) else TextNat(digits);
            if digits == "" || v < MIN_INT64 || v > -(MIN_INT64 + 1) then None else Some(v)
  {
    hide TextNat;
    assert sign == Bare ==> SignText(sign) + digits == digits;
    assert sign != Bare ==> (SignText(sign) + digits)[1..] == digits;
  }

  lemma ZeroFirst(frac: string)
    requires AllDigits(frac)
    ensures AllDigits("0" + frac) && TextNat("0" + frac) == TextNat(frac)
  {
    ZerosValue(1, frac);
    assert Zeros(1) == "0";
  }

  lemma BodyCut(sign: Sign, whole: string, frac: string, dot: bool)
    requires AllDigits(whole) && (dot || frac == "")
    ensures Cut(SignText(sign) + whole + if dot then "." + frac else "") == (SignText(sign) + whole, frac)
  {
    hide IsSpace, Cut;
    var head := SignText(sign) + whole;
    var body := head + if dot then "." + frac else "";
    assert '.' !in head;
    if dot {
      DotAt(head, frac);
      assert body == head + "." + frac;
    } else {
      NoDot(head);
      assert body == head;
    }
  }

  lemma BodyAssembled(neg: bool, sign: Sign, whole: string, frac: string)
    requires AllDigits(whole) && AllDigits(frac)
    ensures var head := SignText(sign) + whole;
            Assembled(neg, if head == [] then "0" else head, frac) == NumberValue(neg, sign, whole, frac)
  {
    hide TextNat, ParseInt, IsSpace;
    var head := SignText(sign) + whole;
    assert head + frac == SignText(sign) + (whole + frac);
    ParseIntOf(sign, whole + frac);
    ZeroFirst(frac);
    ParseIntOf(Bare, "0" + frac);
    assert SignText(Bare) + ("0" + frac) == "0" + frac && (whole == "" ==> whole + frac == frac);
  }

  /** Every text of the shape is parsed to what it stands for, or refused if that is nothing. */
  lemma ShapeParsed(neg: bool, sign: Sign, whole: string, frac: string, dot: bool, before: string, after: string)
    requires NumberShape(neg, sign, whole, frac, dot) && AllSpaces(before) && AllSpaces(after)
    ensures ParseDecimal(before + NumberText(neg, sign, whole, frac, dot) + after) == NumberValue(neg, sign, whole, frac)
  {
    hide TextNat, ParseInt, IsSpace, TrimSpace, Cut, NumberValue, Assembled, SignText;
    var t := NumberText(neg, sign, whole, frac, dot);
    NumberEnds(neg, sign, whole, frac, dot);
    SpacesTrimmed(before, t, after);
    var body := SignText(sign) + whole + if dot then "." + frac else "";
    assert neg ==> t[1..] == body;
    assert !neg ==> t == body;
    BodyCut(sign, whole, frac, dot);
    BodyAssembled(neg, sign, whole, frac);
  }

  /** A text made of spaces, a number of the shape, and spaces. */
  predicate IsNumber(text: string, neg: bool, sign: Sign, whole: string, frac: string, dot: bool, before: string, after: string) {
    && NumberShape(neg, sign, whole, frac, dot) && AllSpaces(before) && AllSpaces(after)
    && text == before + NumberText(neg, sign, whole, frac, dot) + after
  }

  /** And nothing else is parsed: a text that yields a decimal has the shape. */
  lemma ParsedHasShape(text: string)
    requires ParseDecimal(text).Some?
    ensures exists neg, sign, whole, frac, dot, before, after :: IsNumber(text, neg, sign, whole, frac, dot, before, after)
  {
    hide TextNat, IsSpace, TrimSpace, Cut, ParseInt, NumberText, NumberShape;
    var before, after := TrimmedShape(text);
    var t := TrimSpace(text);
    var neg := t[0] == '-';
    var body := if neg then t[1..] else t;
    var (head, frac) := Cut(body);
    DigitsOf(if head == [] then "0" else head, frac);
    var sign, whole, dot := BodyShape(neg, body);
    WithMinus(neg, t, body, sign, whole, frac, dot);
    assert IsNumber(text, neg, sign, whole, frac, dot, before, after);
  }

  /** The parts of what stands behind the first minus. */
  lemma BodyShape(neg: bool, body: string) returns (sign: Sign, whole: string, dot: bool)
    requires AllDigits(Cut(body).1) && (!neg ==> body == "" || body[0] != '-')
    requires var head := Cut(body).0;
             head != "" ==> AllDigits(if head[0] == '-' || head[0] == '+' then head[1..] else head)
    ensures var frac := Cut(body).1;
            && AllDigits(whole) && (dot || frac == "") && (sign == Minus ==> neg)
            && body == SignText(sign) + whole + if dot then "." + frac else ""
  {
    hide IsDigit;
    dot := DotIndex(body) < |body|;
    CutShape(body);
    hide Cut;
    var head := Cut(body).0;
    sign := if head == "" then Bare else if head[0] == '+' then Plus else if head[0] == '-' then Minus else Bare;
    whole := if sign == Bare then head else head[1..];
    assert head == SignText(sign) + whole;
    assert body == head + if dot then "." + Cut(body).1 else "";
    assert head != "" ==> head[0] == body[0];
  }

  lemma CutShape(body: string)
    ensures DotIndex(body) < |body| ==> body == Cut(body).0 + ("." + Cut(body).1)
    ensures DotIndex(body) >= |body| ==> body == Cut(body).0 && Cut(body).1 == ""
  {
    var i := DotIndex(body);
    if i < |body| {
      assert body[i] == '.';
      hide DotIndex;
      PointAt(body, i);
    }
  }

  lemma PointAt(s: string, i: nat)
    requires i < |s| && s[i] == '.'
    ensures s == s[..i] + ("." + s[i + 1..])
  {
  }

  lemma WithMinus(neg: bool, t: string, body: string, sign: Sign, whole: string, frac: string, dot: bool)
    requires t != "" && neg == (t[0] == '-') && body == (if neg then t[1..] else t)
    requires AllDigits(whole) && AllDigits(frac) && (dot || frac == "") && (sign == Minus ==> neg)
    requires body == SignText(sign) + whole + if dot then "." + frac else ""
    ensures NumberShape(neg, sign, whole, frac, dot) && t == NumberText(neg, sign, whole, frac, dot)
  {
    hide SignText;
    assert neg ==> t == "-" + body;
    assert !neg ==> t == "" + body;
  }

  /** The digits of a number that ParseInt takes, apart from a sign in front. */
  lemma DigitsOf(head: string, frac: string)
    requires ParseInt(head + frac).Some? && head != ""
    ensures AllDigits(frac) && AllDigits(if head[0] == '-' || head[0] == '+' then head[1..] else head)
  {
    hide TextNat;
    var all := head + frac;
    var signed := all[0] == '-' || all[0] == '+';
    var body := if signed then all[1..] else all;
    forall k | 0 <= k < |frac| ensures IsDigit(frac[k]) {
      assert body[|body| - |frac| + k] == frac[k];
    }
    var rest := if signed then head[1..] else head;
    forall k | 0 <= k < |rest| ensures IsDigit(rest[k]) {
      assert body[k] == rest[k];
    }
  }

  lemma NumberEnds(neg: bool, sign: Sign, whole: string, frac: string, dot: bool)
    requires NumberShape(neg, sign, whole, frac, dot)
    ensures var t := NumberText(neg, sign, whole, frac, dot);
            && t != "" && !IsSpace(t[0]) && !IsSpace(t[|t| - 1]) && (t[0] == '-' <==> neg)
  {
    var t := NumberText(neg, sign, whole, frac, dot);
    var marks := {'-', '+', '.'};
    assert forall i :: 0 <= i < |t| ==> IsDigit(t[i]) || t[i] in marks;
    NoMarkIsSpace();
  }

  lemma NoMarkIsSpace()
    ensures forall c: char :: IsDigit(c) || c == '-' || c == '+' || c == '.' ==> !IsSpace(c)
  {
  }

  // ---- printing every digit ----

  function AbsValue(x: int): nat { if x < 0 then -x else x }

  function IntText(m: i64): string {
    if m < 0 then "-" + NatText(-(m as int)) else NatText(m)
  }

  /** Every digit of the scale is printed, zeros included; -MIN_INT64 wraps to itself. */
  function Fixed(d: Decimal): string {
    var neg := d.units < 0;
    var text := IntText(if neg then Wrap64(-(d.units as int)) else d.units);
    Signed(neg, if d.scale == 0 then text else Point(Pad(text, d.scale + 1), d.scale))
  }

  method FixedDecimal(d: Decimal) returns (text: string)
    ensures text == Fixed(d)
  {
    hide IntText, Pad, Wrap64, NatText, Zeros;
    var neg := d.units < 0;
    var units := d.units;
    if neg {
      units := Wrap64(-(units as int));
    }
    text := IntText(units);
    if d.scale > 0 {
      text := PadLoop(text, d.scale);
      text := text[..|text| - d.scale] + "." + text[|text| - d.scale..];
    }
    if neg {
      text := "-" + text;
    }
  }

  method PadLoop(bare: string, scale: nat) returns (text: string)
    ensures text == Pad(bare, scale + 1) && |text| > scale
  {
    text := bare;
    ghost var k: nat := 0;
    ZeroInFront(0, bare);
    while |text| <= scale
      invariant text == Zeros(k) + bare && (k == 0 || |text| <= scale + 1)
      decreases scale + 1 - |text|
    {
      ZeroInFront(k, bare);
      text, k := "0" + text, k + 1;
    }
  }

  lemma ZeroInFront(k: nat, s: string)
    ensures "0" + (Zeros(k) + s) == Zeros(k + 1) + s && Zeros(0) + s == s
  {
    assert ['0'] + Zeros(k) == Zeros(k + 1);
  }

  lemma FixedPlain(d: Decimal)
    requires d.units != MIN_INT64
    ensures Fixed(d) == Signed(d.units < 0, Plain(AbsValue(d.units), d.scale))
  {
    hide Pad, NatText, Point, Signed;
    assert IntText(if d.units < 0 then Wrap64(-(d.units as int)) else d.units) == NatText(AbsValue(d.units));
  }

  /** The number of digits of a natural number. */
  lemma {:induction false} NatTextLength(n: nat, k: nat)
    requires (k == 0 || TenTo(k) <= n) && n < TenTo(k + 1)
    ensures |NatText(n)| == k + 1
  {
    if k > 0 {
      NatTextLength(n / 10, k - 1);
    }
  }

  /** What is printed for the least integer: its own sign stands among the digits. */
  lemma LeastText()
    ensures |NatText(-MIN_INT64)| == 19 && IntText(Wrap64(-MIN_INT64)) == "-" + NatText(-MIN_INT64)
    ensures NatText(-MIN_INT64)[17] == '0'
  {
    LeastLength();
    var n: nat := -MIN_INT64;
    assert NatText(n) == NatText(n / 10) + [DigitChar(n % 10)];
    assert NatText(n / 10) == NatText(n / 10 / 10) + [DigitChar(n / 10 % 10)];
  }

  lemma LeastLength()
    ensures |NatText(-MIN_INT64)| == 19
  {
    hide NatText;
    PowersOfTen();
    NatTextLength(-MIN_INT64, 18);
  }

  lemma PowersOfTen()
    ensures TenTo(18) == 1_000_000_000_000_000_000 && TenTo(19) == 10_000_000_000_000_000_000
    ensures TenTo(1) == 10 && TenTo(2) == 100
  {
    assert TenTo(6) == 1_000_000;
    TenToAdd(6, 6);
    TenToAdd(6, 12);
    assert TenTo(19) == 10 * TenTo(18);
  }

  lemma ParseNegated(body: string)
    requires body != [] && IsDigit(body[|body| - 1]) && Cut(body).0 != []
    ensures ParseDecimal("-" + body) == Assembled(true, Cut(body).0, Cut(body).1)
  {
    hide Cut, Assembled, IsSpace, IsDigit;
    NoSpaces("-" + body);
    TrimNothing("-" + body);
    assert ("-" + body)[1..] == body;
  }

  lemma CutLeast(padded: string, text: string, scale: nat)
    requires '.' !in text && text != [] && scale < |padded| == (if |text| > scale then |text| else scale + 1)
    requires padded == Zeros(|padded| - |text|) + text
    ensures var body := if scale == 0 then padded else Point(padded, scale);
            && Cut(body).0 != [] && Cut(body).0 + Cut(body).1 == padded && |Cut(body).1| == scale
            && body != [] && body[|body| - 1] == text[|text| - 1]
  {
    hide Cut, DotIndex;
    var k := |padded| - scale;
    PrefixHasNoDot(padded, text, k);
    assert padded[..k] + padded[k..] == padded;
    if scale == 0 {
      NoDot(padded);
      assert padded + "" == padded && padded[..k] == padded;
    } else {
      DotAt(padded[..k], padded[k..]);
    }
  }

  function LeastBody(scale: byte): string {
    var padded := Pad("-" + NatText(-MIN_INT64), scale + 1);
    if scale == 0 then padded else Point(padded, scale)
  }

  lemma FixedLeast(scale: byte)
    ensures Fixed(Decimal(MIN_INT64, scale)) == "-" + LeastBody(scale)
  {
    hide NatText, Point;
    LeastText();
  }

  lemma ParseLeastDigits(scale: byte)
    ensures ParseInt(Pad("-" + NatText(-MIN_INT64), scale + 1)) == if scale < 20 then Some(MIN_INT64) else None
  {
    hide NatText, TextNat;
    LeastText();
    NatTextValue(-MIN_INT64);
    var digits := NatText(-MIN_INT64);
    var text := "-" + digits;
    assert text[1..] == digits;
    if scale >= 20 {
      var padded := Pad(text, scale + 1);
      assert padded[0] == '0' && padded[|padded| - 20] == '-';
      assert !IsDigit('-');
    }
  }

  lemma ParseLeast(scale: byte)
    ensures ParseDecimal(Fixed(Decimal(MIN_INT64, scale)))
         == if scale < 20 then Some(Decimal(MIN_INT64, scale)) else None
  {
    hide NatText, Cut, ParseDecimal, Fixed, Assembled, LeastBody;
    FixedLeast(scale);
    LeastIsCut(scale);
    var body := LeastBody(scale);
    ParseNegated(body);
    AssembledLeast(scale, Cut(body).0, Cut(body).1);
  }

  lemma LeastIsCut(scale: byte)
    ensures var body := LeastBody(scale);
            && Cut(body).0 != [] && Cut(body).0 + Cut(body).1 == Pad("-" + NatText(-MIN_INT64), scale + 1)
            && |Cut(body).1| == scale && body != [] && IsDigit(body[|body| - 1])
  {
    hide NatText, Cut, Point;
    LeastText();
    NatTextValue(-MIN_INT64);
    var text := "-" + NatText(-MIN_INT64);
    DigitsHaveNoDot(NatText(-MIN_INT64));
    PadZeros(text, scale + 1);
    CutLeast(Pad(text, scale + 1), text, scale);
  }

  lemma AssembledLeast(scale: byte, whole: string, frac: string)
    requires whole + frac == Pad("-" + NatText(-MIN_INT64), scale + 1) && |frac| == scale
    ensures Assembled(true, whole, frac) == if scale < 20 then Some(Decimal(MIN_INT64, scale)) else None
  {
    hide NatText, Pad, ParseInt;
    ParseLeastDigits(scale);
  }

  lemma PadZeros(s: string, width: nat)
    ensures Pad(s, width) == Zeros(|Pad(s, width)| - |s|) + s
  {
  }

  lemma PrefixHasNoDot(padded: string, text: string, k: nat)
    requires '.' !in text && |padded| >= |text| && padded == Zeros(|padded| - |text|) + text && k <= |padded|
    ensures '.' !in padded[..k]
  {
    assert forall i :: 0 <= i < |padded| ==> padded[i] == '0' || padded[i] in text;
  }

  /** Printing every digit and parsing is the identity, except for the least 64-bit integer with
      twenty or more fractional digits, which does not parse. */
  lemma FixedRoundTrip(d: Decimal)
    ensures ParseDecimal(Fixed(d)) == Some(d) <==> (d.units != MIN_INT64 || d.scale < 20)
  {
    hide ParseDecimal, Fixed;
    if d.units == MIN_INT64 {
      ParseLeast(d.scale);
      assert d == Decimal(MIN_INT64, d.scale);
    } else {
      FixedPlain(d);
      ParsePlain(d.units < 0, AbsValue(d.units), d.scale);
    }
  }

  // ---- printing without trailing zeros ----

  function TrimZeros(s: string): string {
    if s != [] && s[|s| - 1] == '0' then TrimZeros(s[..|s| - 1]) else s
  }

  function Shown(n: nat, scale: nat): string {
    if scale == 0 then NatText(n) else ShownDigits(Pad(NatText(n), scale + 1), scale)
  }

  function ShownDigits(digits: string, scale: nat): string
    requires |digits| >= scale
  {
    var k := |digits| - scale;
    var frac := TrimZeros(digits[k..]);
    digits[..k] + "." + if frac == [] then "0" else frac
  }

  /** Decimal.String: at least one fractional digit is kept; the magnitude is taken in unsigned
      arithmetic, so the least integer is printed correctly. */
  function Text(d: Decimal): string {
    Signed(d.units < 0, Shown(AbsValue(d.units), d.scale))
  }

  /** The number without the trailing zeros of its fraction, all but one digit of it. */
  function Norm(n: nat, scale: nat): (m: (nat, nat)) {
    if scale > 1 && n % 10 == 0 then Norm(n / 10, scale - 1) else (n, scale)
  }

  lemma {:induction false} NormValue(n: nat, scale: nat)
    requires scale >= 1
    ensures var (m, t) := Norm(n, scale); 1 <= t <= scale && n == m * TenTo(scale - t) && (t == 1 || m % 10 != 0)
  {
    if scale > 1 && n % 10 == 0 {
      NormValue(n / 10, scale - 1);
      var (m, t) := Norm(n, scale);
      Regroup(10, m, TenTo(scale - 1 - t));
      Regroup(m, 10, TenTo(scale - 1 - t));
      assert n == 10 * (n / 10);
    }
  }

  lemma {:induction false} ShownNorm(n: nat, scale: nat)
    requires scale >= 1
    ensures Shown(n, scale) == Plain(Norm(n, scale).0, Norm(n, scale).1)
  {
    hide NatText, Pad, TenTo;
    NormValue(n, scale);
    PadLength(NatText(n), scale + 1);
    PadLast(n, scale + 1);
    if scale > 1 && n % 10 == 0 {
      ShownNorm(n / 10, scale - 1);
      ShownShorter(n, scale);
    } else {
      ShownWhole(n, scale);
    }
  }

  lemma ShownShorter(n: nat, scale: nat)
    requires scale > 1 && n % 10 == 0
    ensures Shown(n, scale) == Shown(n / 10, scale - 1)
  {
    hide NatText, Pad, ShownDigits;
    PadLength(NatText(n), scale + 1);
    PadLength(NatText(n / 10), scale);
    PadLast(n, scale + 1);
    ShownDigitsShorter(Pad(NatText(n / 10), scale), scale);
  }

  lemma ShownDigitsShorter(digits: string, scale: nat)
    requires 0 < scale <= |digits|
    ensures ShownDigits(digits + [DigitChar(0)], scale) == ShownDigits(digits, scale - 1)
  {
    hide TrimZeros;
    var longer := digits + [DigitChar(0)];
    var k := |longer| - scale;
    assert longer[k..] == digits[k..] + ['0'] && longer[..k] == digits[..k];
    TrimOne(digits[k..]);
  }

  lemma TrimOne(s: string)
    ensures TrimZeros(s + ['0']) == TrimZeros(s)
  {
    assert (s + ['0'])[..|s|] == s;
  }

  lemma ShownWhole(n: nat, scale: nat)
    requires scale >= 1 && (scale == 1 || n % 10 != 0)
    ensures Shown(n, scale) == Plain(n, scale)
  {
    hide NatText, Pad;
    PadLength(NatText(n), scale + 1);
    PadLast(n, scale + 1);
    var digits := Pad(NatText(n), scale + 1);
    var frac := digits[|digits| - scale..];
    assert frac == frac[..scale - 1] + [DigitChar(n % 10)];
    TrimDigit(frac[..scale - 1], n % 10);
  }

  lemma TrimDigit(s: string, d: nat)
    requires d < 10
    ensures d != 0 ==> TrimZeros(s + [DigitChar(d)]) == s + [DigitChar(d)] != []
    ensures d == 0 && s == [] ==> TrimZeros(s + [DigitChar(d)]) == [] && s + [DigitChar(d)] == "0"
  {
    TrimOne(s);
  }

  predicate SameValue(a: Decimal, b: Decimal) {
    a.units * TenTo(b.scale) == b.units * TenTo(a.scale)
  }

  // ---- the form of what is printed ----

  /** Digits without needless zeros in front. */
  predicate IsWhole(w: string) {
    w != "" && AllDigits(w) && (|w| > 1 ==> w[0] != '0')
  }

  lemma {:induction false} NatTextWhole(n: nat)
    ensures IsWhole(NatText(n)) && (n > 0 ==> NatText(n)[0] != '0')
  {
    NatTextValue(n);
    if n >= 10 {
      NatTextWhole(n / 10);
    }
  }

  /** The digits of n with a point before the last `scale` of them. */
  predicate IsPlain(text: string, n: nat, scale: nat, w: string, f: string) {
    && IsWhole(w) && AllDigits(f) && |f| == scale && TextNat(w + f) == n
    && text == w + if scale == 0 then "" else "." + f
  }

  lemma PlainShape(n: nat, scale: nat) returns (w: string, f: string)
    ensures IsPlain(Plain(n, scale), n, scale, w, f)
  {
    NatTextValue(n);
    NatTextWhole(n);
    if scale == 0 {
      w, f := NatText(n), "";
      assert w + f == w && w + "" == w;
    } else {
      hide NatText;
      PadDigits(n, scale + 1);
      w, f := Divided(NatText(n), Pad(NatText(n), scale + 1), scale);
      hide Pad, Point, TextNat;
    }
  }

  lemma Divided(text: string, digits: string, scale: nat) returns (w: string, f: string)
    requires scale > 0 && digits == Pad(text, scale + 1) && AllDigits(digits) && IsWhole(text)
    ensures w + f == digits && IsWhole(w) && AllDigits(f) && |f| == scale && Point(digits, scale) == w + ("." + f)
  {
    hide TextNat;
    var k := |digits| - scale;
    w, f := digits[..k], digits[k..];
    assert k > 1 ==> digits == text;
  }

  /** Every digit of the scale is printed behind the point, and at least one before it. */
  lemma FixedShape(d: Decimal) returns (w: string, f: string, text: string)
    requires d.units != MIN_INT64
    ensures Fixed(d) == (if d.units < 0 then "-" else "") + text && IsPlain(text, AbsValue(d.units), d.scale, w, f)
  {
    hide Plain, TextNat, Fixed;
    FixedPlain(d);
    text := Plain(AbsValue(d.units), d.scale);
    w, f := PlainShape(AbsValue(d.units), d.scale);
    assert "" + text == text;
  }

  /** Of the digits behind the point the zeros at the end are left off, but for the first. */
  lemma TextShape(d: Decimal) returns (w: string, f: string, m: nat, text: string)
    ensures Text(d) == (if d.units < 0 then "-" else "") + text && IsPlain(text, m, |f|, w, f)
    ensures |f| <= d.scale && (d.scale > 0 ==> f != "") && (|f| > 1 ==> f[|f| - 1] != '0')
    ensures (if d.units < 0 then -(d.units as int) else d.units) == m * TenTo(d.scale - |f|)
  {
    hide Plain, Norm, Shown;
    var n := AbsValue(d.units);
    text := Shown(n, d.scale);
    assert "" + text == text;
    m := n;
    var t := 0;
    if d.scale == 0 {
      ShownPlain(n);
    } else {
      NormValue(n, d.scale);
      ShownNorm(n, d.scale);
      m, t := Norm(n, d.scale).0, Norm(n, d.scale).1;
    }
    w, f := PlainShape(m, t);
    if f != "" {
      LastDigit(w, f);
    }
  }

  lemma LastDigit(w: string, f: string)
    requires AllDigits(f) && f != ""
    ensures TextNat(w + f) % 10 == f[|f| - 1] as int - 48
  {
    assert (w + f)[|w + f| - 1] == f[|f| - 1];
  }

  /** Parsing what String prints gives a decimal of the same value, for every decimal except
      the least 64-bit integer, which does not parse. */
  lemma TextRoundTrip(d: Decimal)
    ensures ParseDecimal(Text(d)).Some? <==> d.units != MIN_INT64
    ensures d.units != MIN_INT64 ==>
              var e := ParseDecimal(Text(d)).value; SameValue(e, d) && e.scale <= d.scale && (d.scale == 0 ==> e == d)
  {
    hide ParseDecimal, Plain, TenTo, Norm;
    var n := AbsValue(d.units);
    if d.scale == 0 {
      assert Shown(n, 0) == Plain(n, 0) by { ShownPlain(n); }
      ParsePlain(d.units < 0, n, 0);
    } else {
      NormValue(n, d.scale);
      ShownNorm(n, d.scale);
      var (m, t) := Norm(n, d.scale);
      NormSmaller(n, m, d.scale - t);
      ParsePlain(d.units < 0, m, t);
      NormSameValue(n, m, d.scale, t);
      if d.units == MIN_INT64 {
        LeastNormal(m, d.scale, t);
      } else if d.units < 0 {
        Negated(m, TenTo(d.scale));
        Negated(n, TenTo(t));
      }
    }
  }

  lemma Negated(x: int, y: int)
    ensures (-x) * y == -(x * y)
  {
  }

  lemma ShownPlain(n: nat)
    ensures Shown(n, 0) == Plain(n, 0)
  {
  }

  lemma NormSmaller(n: nat, m: nat, k: nat)
    requires n == m * TenTo(k)
    ensures m <= n
  {
    var p := TenTo(k);
    assert m * p >= m;
  }

  lemma LeastNormal(m: nat, scale: nat, t: nat)
    requires 1 <= t <= scale && (m, t) == Norm(-MIN_INT64, scale)
    ensures m == -MIN_INT64
  {
  }

  lemma NormSameValue(n: nat, m: nat, scale: nat, t: nat)
    requires t <= scale && n == m * TenTo(scale - t)
    ensures m * TenTo(scale) == n * TenTo(t)
  {
    TenToAdd(scale - t, t);
    Regroup(m, TenTo(scale - t), TenTo(t));
  }

  /** The digits and the scale that are printed. */
  function Printed(n: nat, scale: nat): (nat, nat) {
    if scale == 0 then (n, 0) else Norm(n, scale)
  }

  lemma ShownPrinted(n: nat, scale: nat)
    ensures Shown(n, scale) == Plain(Printed(n, scale).0, Printed(n, scale).1)
  {
    hide Norm;
    if scale > 0 {
      ShownNorm(n, scale);
    }
  }

  lemma PrintedEqual(m: nat, s: nat, n: nat, t: nat)
    ensures Printed(m, s) == Printed(n, t) <==> (m * TenTo(t) == n * TenTo(s) && (s == 0 <==> t == 0))
  {
    hide Norm, TenTo;
    if s > 0 && t > 0 {
      NormEqual(m, s, n, t);
    } else if s > 0 {
      NormValue(m, s);
    } else if t > 0 {
      NormValue(n, t);
    } else {
      TenToZero();
    }
  }

  /** Two decimals print alike exactly when they have the same value and both or neither have
      fractional digits. */
  lemma PrintEqualIffSameValue(a: Decimal, b: Decimal)
    ensures Text(a) == Text(b) <==> SameValue(a, b) && (a.scale == 0 <==> b.scale == 0)
  {
    hide Plain, TenTo, Printed, Shown;
    var m, n := AbsValue(a.units), AbsValue(b.units);
    ShownPrinted(m, a.scale);
    ShownPrinted(n, b.scale);
    SignedEqual(a.units < 0, Printed(m, a.scale), b.units < 0, Printed(n, b.scale));
    PrintedEqual(m, a.scale, n, b.scale);
    SameSign(a.units, TenTo(b.scale), b.units, TenTo(a.scale));
  }

  lemma SameSign(x: int, p: nat, y: int, q: nat)
    requires p >= 1 && q >= 1
    ensures x * p == y * q <==> (AbsValue(x) * p == AbsValue(y) * q && (x < 0 <==> y < 0))
  {
    Negated(x, p);
    Negated(y, q);
    assert (x > 0 ==> x * p > 0) && (x < 0 ==> (-x) * p > 0) && (y > 0 ==> y * q > 0) && (y < 0 ==> (-y) * q > 0);
  }

  /** The text of a signed number determines its sign, digits and scale. */
  lemma SignedEqual(s: bool, x: (nat, nat), t: bool, y: (nat, nat))
    ensures Signed(s, Plain(x.0, x.1)) == Signed(t, Plain(y.0, y.1)) <==> (s == t && x == y)
  {
    hide Plain, TextNat, Cut;
    CutPlain(x.0, x.1);
    CutPlain(y.0, y.1);
    var a, b := Signed(s, Plain(x.0, x.1)), Signed(t, Plain(y.0, y.1));
    assert s ==> a[1..] == Plain(x.0, x.1) && a[0] == '-';
    assert t ==> b[1..] == Plain(y.0, y.1) && b[0] == '-';
    assert !IsDigit('-');
  }

  lemma NormEqual(m: nat, s: nat, n: nat, t: nat)
    requires s >= 1 && t >= 1
    ensures Norm(m, s) == Norm(n, t) <==> m * TenTo(t) == n * TenTo(s)
  {
    hide TenTo, Norm;
    NormValue(m, s);
    NormValue(n, t);
    var (m1, s1) := Norm(m, s);
    var (n1, t1) := Norm(n, t);
    Aligned(m, m1, s, s1, t);
    Aligned(n, n1, t, t1, s);
    if s1 <= t1 {
      Cancel(m1, s, s1, n1, t, t1);
    } else {
      Cancel(n1, t, t1, m1, s, s1);
    }
  }

  lemma Aligned(m: nat, m1: nat, s: nat, s1: nat, t: nat)
    requires s1 <= s && m == m1 * TenTo(s - s1)
    ensures m * TenTo(t) == m1 * TenTo(s + t - s1)
  {
    TenToAdd(s - s1, t);
    Regroup(m1, TenTo(s - s1), TenTo(t));
  }

  lemma Cancel(m1: nat, s: nat, s1: nat, n1: nat, t: nat, t1: nat)
    requires 1 <= s1 <= s && 1 <= t1 <= t && s1 <= t1 && (t1 == 1 || n1 % 10 != 0)
    ensures m1 * TenTo(s + t - s1) == n1 * TenTo(t + s - t1) <==> (m1 == n1 && s1 == t1)
  {
    hide TenTo;
    var k: nat := s + t - t1;
    TenToAdd(t1 - s1, k);
    Regroup(m1, TenTo(t1 - s1), TenTo(k));
    CancelFactor(m1 * TenTo(t1 - s1), n1, TenTo(k));
    if t1 > s1 {
      TenToAdd(1, t1 - s1 - 1);
      TenToOne();
      TenFold(m1, TenTo(t1 - s1 - 1));
    } else {
      TenToZero();
    }
  }

  lemma TenToOne() ensures TenTo(1) == 10 {}

  lemma TenToZero() ensures TenTo(0) == 1 {}

  lemma TenFold(m: nat, p: nat)
    ensures (m * (10 * p)) % 10 == 0
  {
    Regroup(m, 10, p);
    assert m * (10 * p) == 10 * (m * p);
  }

  lemma CancelFactor(x: nat, y: nat, p: nat)
    requires p >= 1
    ensures x * p == y * p <==> x == y
  {
    if x < y {
      MoreTimes(x, y - x - 1, p);
    } else if y < x {
      MoreTimes(y, x - y - 1, p);
    }
  }

  lemma MoreTimes(x: nat, d: nat, p: nat)
    ensures (x + (d + 1)) * p == x * p + d * p + p >= x * p + p
  {
    NonNegative(d, p);
  }

  lemma NonNegative(d: nat, p: nat)
    ensures d * p >= 0
  {
  }
}
