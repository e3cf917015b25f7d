/** Candle history: the record whose end only its encoding lengths reveal, the events decoded
    from it, and the collection of a reply that arrives in several parts, newest first. */
module History {
  import opened Bytes
  import opened Codec
  import opened Payload
  import opened Records
  import Splitting

  // ---- the R_HISTORY record ----

  datatype Candle = Candle(time: i32, open: i32, close: i32, high: i32, low: i32, field6: i32, volume: i32,
                           openInterest: Option<i32>)

  datatype Candles = Candles(secID: u16, board: u16, period: byte, flag: byte, items: seq<Candle>, status: int)

  function ReadInts(n: nat, s: seq<byte>): (r: Option<(seq<i32>, nat)>)
    ensures r.Some? ==> |r.value.0| == n && n <= r.value.1 <= |s|
  {
    if n == 0 then Some(([], 0))
    else
      match ReadInt32(s)
      case None => None
      case Some((v, k)) =>
        match ReadInts(n - 1, s[k..])
        case None => None
        case Some((vs, m)) => Some(([v] + vs, k + m))
  }

  function IntsBytes(vs: seq<i32>): seq<byte> {
    if vs == [] then [] else PackedBytes(vs[0]) + IntsBytes(vs[1..])
  }

  lemma {:induction false} IntsRoundTrip(vs: seq<i32>, rest: seq<byte>)
    ensures ReadInts(|vs|, IntsBytes(vs) + rest) == Some((vs, |IntsBytes(vs)|))
    ensures |vs| <= |IntsBytes(vs)|
  {
    hide ReadInt32, PackedBytes;
    if vs != [] {
      var b, more := PackedBytes(vs[0]), IntsBytes(vs[1..]) + rest;
      assert IntsBytes(vs) + rest == b + more;
      Int32RoundTrip(vs[0], more);
      assert (b + more)[|b|..] == more;
      IntsRoundTrip(vs[1..], rest);
      assert [vs[0]] + vs[1..] == vs;
    } else {
      assert IntsBytes(vs) + rest == rest;
    }
  }

  function CandleInts(c: Candle): (vs: seq<i32>)
    ensures |vs| == if c.openInterest.Some? then 8 else 7
  {
    [c.time, c.open, c.close, c.high, c.low, c.field6, c.volume]
    + if c.openInterest.Some? then [c.openInterest.value] else []
  }

  function CandleOf(vs: seq<i32>): Candle
    requires |vs| == 7 || |vs| == 8
  {
    Candle(vs[0], vs[1], vs[2], vs[3], vs[4], vs[5], vs[6], if |vs| == 8 then Some(vs[7]) else None)
  }

  function CandleSize(flag: byte): nat { if flag != 0 then 8 else 7 }

  /** Candles until at most five bytes are left, which must be exactly the status. */
  function ParseItems(s: seq<byte>, flag: byte): Option<(seq<Candle>, int)>
    decreases |s|
  {
    if s == [] then None
    else if |s| <= 5 then
      match ReadInt32(s)
      case None => None
      case Some((v, n)) => if n != |s| || v < 0 || v > 3 then None else Some(([], v))
    else
      match ReadInts(CandleSize(flag), s)
      case None => None
      case Some((vs, n)) =>
        match ParseItems(s[n..], flag)
        case None => None
        case Some((items, status)) => Some(([CandleOf(vs)] + items, status))
  }

  function ParseCandles(body: seq<byte>): Option<Candles> {
    if |body| < 6 then None
    else
      match ParseItems(body[6..], body[5])
      case None => None
      case Some((items, status)) =>
        Some(Candles(Be16(body[..2]), Be16(body[2..4]), body[4], body[5], items, status))
  }

  /** Reads the packed integers of one candle. */
  method ReadCandle(r: Reader, n: nat) returns (vs: Option<seq<i32>>)
    requires r.Valid()
    modifies r
    ensures r.Valid()
    ensures var f := ReadInts(n, old(r.Remaining()));
            if f.Some? then vs == Some(f.value.0) && r.off == old(r.off) + f.value.1 else vs == None
  {
    hide ReadInt32, ReadInts;
    ghost var start, s0 := r.off, r.Remaining();
    var out: seq<i32> := [];
    ghost var rest := s0;
    IntsAfterTurn([], n, rest);
    for i := 0 to n
      invariant r.Valid() && r.off >= start && rest == r.Remaining()
      invariant ReadInts(n, s0) == IntsAfter(out, r.off - start, ReadInts(n - i, rest))
    {
      IntsAfterTurn(out, n - i, rest);
      var v := r.Int32();
      if v == None {
        return None;
      }
      rest := rest[ReadInt32(rest).value.1..];
      out := out + [v.value];
    }
    IntsAfterTurn(out, 0, rest);
    vs := Some(out);
  }

  function IntsAfter(out: seq<i32>, used: nat, f: Option<(seq<i32>, nat)>): Option<(seq<i32>, nat)> {
    match f case None => None case Some((vs, n)) => Some((out + vs, used + n))
  }

  lemma IntsAfterTurn(out: seq<i32>, n: nat, s: seq<byte>)
    ensures IntsAfter([], 0, ReadInts(n, s)) == ReadInts(n, s)
    ensures n == 0 ==> ReadInts(n, s) == Some(([], 0)) && out + [] == out
    ensures n > 0 && ReadInt32(s) == None ==> ReadInts(n, s) == None
    ensures n > 0 && ReadInt32(s).Some? ==>
              var (v, k) := ReadInt32(s).value;
              forall used: nat :: IntsAfter(out, used, ReadInts(n, s)) == IntsAfter(out + [v], used + k, ReadInts(n - 1, s[k..]))
  {
    hide ReadInt32;
    if ReadInts(n, s).Some? {
      var vs := ReadInts(n, s).value.0;
      assert [] + vs == vs;
      assert n > 0 ==> out + vs == out + [vs[0]] + vs[1..];
    }
  }

  method ParseHistory(body: seq<byte>) returns (c: Option<Candles>)
    ensures c == ParseCandles(body)
  {
    hide ParseItems;
    var r := new Reader(body);
    var secID := r.Uint16();
    if secID == None { return None; }
    assert r.Remaining() == body[2..];
    var board := r.Uint16();
    if board == None { return None; }
    assert r.Remaining() == body[4..] && body[2..][..2] == body[2..4];
    var period := r.Byte();
    if period == None { return None; }
    assert r.Remaining() == body[5..];
    var flag := r.Byte();
    if flag == None { return None; }
    assert r.Remaining() == body[6..] && period.value == body[4] && flag.value == body[5];
    var tail := ParseTail(r, flag.value);
    if tail == None { return None; }
    c := Some(Candles(secID.value, board.value, period.value, flag.value, tail.value.0, tail.value.1));
  }

  /** The loop over candles and the closing status. */
  method ParseTail(r: Reader, flag: byte) returns (tail: Option<(seq<Candle>, int)>)
    requires r.Valid()
    modifies r
    ensures tail == ParseItems(old(r.Remaining()), flag)
  {
    hide ReadInt32, ReadInts, ParseItems, After, CandleOf;
    var items: seq<Candle> := [];
    ghost var rest := r.Remaining();
    ItemsTurn([], rest, flag);
    while r.Len() > 0
      invariant r.Valid() && rest == r.Remaining()
      invariant ParseItems(old(r.Remaining()), flag) == After(items, ParseItems(rest, flag))
      decreases r.Len()
    {
      ItemsTurn(items, rest, flag);
      if r.Len() <= 5 {
        var status := r.Int32();
        if status == None || r.Len() != 0 || status.value < 0 || status.value > 3 {
          return None;
        }
        return Some((items, status.value));
      }
      var vs := ReadCandle(r, CandleSize(flag));
      if vs == None {
        return None;
      }
      items := items + [CandleOf(vs.value)];
      rest := rest[ReadInts(CandleSize(flag), rest).value.1..];
    }
    ItemsTurn(items, rest, flag);
    tail := None;
  }

  function After(items: seq<Candle>, f: Option<(seq<Candle>, int)>): Option<(seq<Candle>, int)> {
    match f case None => None case Some((more, status)) => Some((items + more, status))
  }

  /** The end of a record: exactly one status of 0..3. */
  function Ending(items: seq<Candle>, s: seq<byte>): Option<(seq<Candle>, int)> {
    match ReadInt32(s)
    case None => None
    case Some((v, n)) => if n != |s| || v < 0 || v > 3 then None else Some((items, v))
  }

  /** One turn of the parser's loop, behind the candles read so far. */
  lemma ItemsTurn(items: seq<Candle>, s: seq<byte>, flag: byte)
    ensures After([], ParseItems(s, flag)) == ParseItems(s, flag)
    ensures s == [] ==> After(items, ParseItems(s, flag)) == None
    ensures 0 < |s| <= 5 ==> After(items, ParseItems(s, flag)) == Ending(items, s)
    ensures |s| > 5 && ReadInts(CandleSize(flag), s) == None ==> After(items, ParseItems(s, flag)) == None
    ensures |s| > 5 && ReadInts(CandleSize(flag), s).Some? ==>
              var (vs, n) := ReadInts(CandleSize(flag), s).value;
              After(items, ParseItems(s, flag)) == After(items + [CandleOf(vs)], ParseItems(s[n..], flag))
  {
    hide ReadInt32, ReadInts, CandleOf;
    assert items + [] == items;
    match ParseItems(s, flag)
    case None =>
    case Some((more, _)) =>
      assert [] + more == more;
      if |s| > 5 {
        assert items + more == items + [more[0]] + more[1..];
      }
  }

  function ItemsBytes(items: seq<Candle>): seq<byte> {
    if items == [] then [] else IntsBytes(CandleInts(items[0])) + ItemsBytes(items[1..])
  }

  function CandlesBytes(c: Candles): seq<byte>
    requires 0 <= c.status <= 3
  {
    Be16Bytes(c.secID) + Be16Bytes(c.board) + [c.period, c.flag] + (ItemsBytes(c.items) + PackedBytes(c.status))
  }

  /** A record the server can send: a status of 0..3 and open interest exactly when flagged. */
  predicate WellFormed(c: Candles) {
    0 <= c.status <= 3 && forall x <- c.items :: x.openInterest.Some? <==> c.flag != 0
  }

  lemma StatusBytes(status: int)
    requires 0 <= status <= 3
    ensures |PackedBytes(status)| == 1 && ReadInt32(PackedBytes(status)) == Some((status, 1))
  {
    assert Magnitude(status) / 16 == 0;
    assert PackedBytes(status) + [] == PackedBytes(status);
    Int32RoundTrip(status, []);
  }

  lemma CandleReadsBack(x: Candle, rest: seq<byte>)
    ensures var vs := CandleInts(x);
            ReadInts(|vs|, IntsBytes(vs) + rest) == Some((vs, |IntsBytes(vs)|)) && CandleOf(vs) == x
    ensures |IntsBytes(CandleInts(x))| >= 7
  {
    IntsRoundTrip(CandleInts(x), rest);
  }

  lemma {:induction false} ItemsRoundTrip(items: seq<Candle>, flag: byte, status: int)
    requires 0 <= status <= 3 && forall x <- items :: x.openInterest.Some? <==> flag != 0
    ensures ParseItems(ItemsBytes(items) + PackedBytes(status), flag) == Some((items, status))
  {
    hide ReadInts, IntsBytes, CandleInts, CandleOf, ReadInt32, PackedBytes;
    StatusBytes(status);
    if items == [] {
      assert ItemsBytes(items) + PackedBytes(status) == PackedBytes(status);
    } else {
      assert items[0] in items && forall x <- items[1..] :: x in items;
      var b, more := IntsBytes(CandleInts(items[0])), ItemsBytes(items[1..]) + PackedBytes(status);
      assert ItemsBytes(items) + PackedBytes(status) == b + more;
      CandleReadsBack(items[0], more);
      assert (b + more)[|b|..] == more;
      ItemsRoundTrip(items[1..], flag, status);
      assert [items[0]] + items[1..] == items;
      assert |CandleInts(items[0])| == CandleSize(flag);
    }
  }

  /** A history body of any number of candles parses back to exactly itself. */
  lemma CandlesRoundTrip(c: Candles)
    requires WellFormed(c)
    ensures ParseCandles(CandlesBytes(c)) == Some(c)
  {
    hide ParseItems, ItemsBytes, PackedBytes;
    var b := CandlesBytes(c);
    ItemsRoundTrip(c.items, c.flag, c.status);
    assert b[6..] == ItemsBytes(c.items) + PackedBytes(c.status);
    assert b[..2] == Be16Bytes(c.secID) && b[2..4] == Be16Bytes(c.board);
  }

  // ---- the parser and the splitter agree on where the record ends ----

  lemma {:induction false} IntsAreFields(n: nat, s: seq<byte>)
    ensures var f, i := ReadFields(Repeat(KInt32, n), s), ReadInts(n, s);
            f.Some? == i.Some? && (f.Some? ==> f.value.1 == i.value.1)
  {
    hide ReadInt32;
    if n > 0 && ReadInt32(s).Some? {
      assert Repeat(KInt32, n)[1..] == Repeat(KInt32, n - 1);
      IntsAreFields(n - 1, s[ReadInt32(s).value.1..]);
    }
  }

  lemma CandleKindsAreInts(flag: byte)
    ensures CandleKinds(flag != 0) == Repeat(KInt32, CandleSize(flag))
  {
    var k := KInt32;
    assert Repeat(k, 2) == [k, k];
    assert Repeat(k, 4) == [k, k, k, k];
    assert Repeat(k, 6) == [k, k, k, k, k, k];
    assert Repeat(k, 7) == CANDLE_KINDS;
    assert Repeat(k, 8) == [k] + CANDLE_KINDS == CANDLE_KINDS + [k];
  }

  /** The value in the status position. */
  function StatusOf(s: seq<byte>, flag: byte): int
    decreases |s|
  {
    if |s| <= 5 then match ReadInt32(s) case None => -1 case Some((v, _)) => v
    else
      match ReadInts(CandleSize(flag), s)
      case None => -1
      case Some((_, n)) => if n == 0 then -1 else StatusOf(s[n..], flag)
  }

  lemma {:induction false} ItemsAcceptedExactly(s: seq<byte>, flag: byte)
    ensures ParseItems(s, flag).Some?
       <==> s != [] && HistoryLen(s, flag != 0) == Some(|s|) && 0 <= StatusOf(s, flag) <= 3
    decreases |s|
  {
    hide ReadInt32, ReadInts, ReadFields, Repeat;
    if |s| > 5 {
      CandleKindsAreInts(flag);
      IntsAreFields(CandleSize(flag), s);
      match ReadInts(CandleSize(flag), s)
      case None =>
      case Some((_, n)) =>
        ItemsAcceptedExactly(s[n..], flag);
        StatusNeeded(s[n..], flag);
    }
  }

  lemma StatusNeeded(s: seq<byte>, flag: byte)
    ensures s == [] ==> StatusOf(s, flag) == -1
  {
  }

  /** ParseCandles accepts exactly the bodies the splitter takes whole as a history record
      that end in a status of 0..3; a body without a status is split but not parsed. */
  lemma ParseAcceptsExactly(body: seq<byte>, z: Inflater)
    ensures ParseCandles(body).Some?
       <==> && BodyStep(TAG_CANDLES, body, false, z) == Take(0, |body|)
            && |body| > 6 && 0 <= StatusOf(body[6..], body[5]) <= 3
  {
    hide ParseItems, HistoryLen, StatusOf;
    Splitting.StepCases(TAG_CANDLES, body, false, z);
    if |body| >= 6 {
      ItemsAcceptedExactly(body[6..], body[5]);
    }
  }

  /** A payload that is one history record splits into exactly that record. */
  lemma HistorySplits(c: Candles, z: Inflater)
    requires WellFormed(c)
    ensures var b := CandlesBytes(c);
            SplitFrom([TAG_CANDLES] + b, 0, false, z) == Split([Record(TAG_CANDLES, b)], None)
  {
    hide ParseCandles, BodyStep, Emit, SplitFrom, CandlesBytes, StatusOf;
    var b := CandlesBytes(c);
    CandlesRoundTrip(c);
    ParseAcceptsExactly(b, z);
    assert ([TAG_CANDLES] + b)[1..] == b && b[0..|b|] == b && b[|b|..] == [];
    Splitting.SplitUnfold([TAG_CANDLES] + b, 0, false, z);
    Splitting.EmitPlain(TAG_CANDLES, b, z);
    Splitting.SplitEmpty(1 + |b|, false, z);
  }

  // ---- events ----

  datatype Pit = Pit(board: u16, decimals: byte, isDefault: bool)

  datatype Listing = Listing(seccode: string, pits: seq<Pit>)

  datatype CandleKind = CandleKind(id: byte, period: i32)

  /** What the catalog knows when a reply is decoded; without a catalog everything is empty. */
  datatype Market = Market(secs: map<u16, Listing>, boards: map<u16, string>, kinds: seq<CandleKind>)

  /** The length of a candle period: the first kind of that number with a positive length; only
      kind 1 is known (one minute) without the dictionary. */
  function PeriodSeconds(kinds: seq<CandleKind>, period: byte): (r: Option<nat>)
    ensures r.Some? ==> r.value > 0
  {
    if kinds == [] then if period == 1 then Some(60) else None
    else if kinds[0].id == period && kinds[0].period > 0 then Some(kinds[0].period)
    else PeriodSeconds(kinds[1..], period)
  }

  method FindPeriod(m: Market, period: byte) returns (r: Option<nat>)
    ensures r == PeriodSeconds(m.kinds, period)
  {
    for i := 0 to |m.kinds|
      invariant PeriodSeconds(m.kinds, period) == PeriodSeconds(m.kinds[i..], period)
    {
      if m.kinds[i].id == period && m.kinds[i].period > 0 {
        return Some(m.kinds[i].period);
      }
    }
    r := if period == 1 then Some(60) else None;
  }

  function PitOn(pits: seq<Pit>, board: u16): Option<Pit> {
    if pits == [] then None else if pits[0].board == board then Some(pits[0]) else PitOn(pits[1..], board)
  }

  function DefaultPit(pits: seq<Pit>): Option<Pit> {
    if pits == [] then None
    else match MarkedPit(pits) case Some(p) => Some(p) case None => Some(pits[0])
  }

  function MarkedPit(pits: seq<Pit>): Option<Pit> {
    if pits == [] then None else if pits[0].isDefault then Some(pits[0]) else MarkedPit(pits[1..])
  }

  /** The decimals of the pit on the candle's board, or else of the default pit. */
  function Decimals(pits: seq<Pit>, board: u16): byte {
    match PitOn(pits, board)
    case Some(p) => p.decimals
    case None => match DefaultPit(pits) case Some(p) => p.decimals case None => 0
  }

  /** Decimals as an event looks them up: zero decimals are looked up a second time, on the
      candle's own board alone. */
  function EventScale(m: Market, c: Candles): byte {
    if c.secID !in m.secs then 0
    else
      var pits := m.secs[c.secID].pits;
      var d := Decimals(pits, c.board);
      if d == 0 && PitOn(pits, c.board).Some? then PitOn(pits, c.board).value.decimals else d
  }

  /** The second look-up never finds anything else. */
  lemma SecondLookupIdle(m: Market, c: Candles)
    ensures EventScale(m, c) == if c.secID in m.secs then Decimals(m.secs[c.secID].pits, c.board) else 0
  {
    if c.secID in m.secs {
      var pits := m.secs[c.secID].pits;
      match PitOn(pits, c.board) { case Some(_) => case None => }
    }
  }

  datatype Name = Name(board: string, seccode: string)

  function NameOf(m: Market, c: Candles): Name {
    if c.secID !in m.secs then Name("", "")
    else Name(if c.board in m.boards then m.boards[c.board] else "", m.secs[c.secID].seccode)
  }

  /** A decoded candle: its time in candle periods, the instant made of it in seconds (none in a
      series whose period is unknown), and absolute prices with `scale` decimals. */
  datatype Bar = Bar(units: int, at: Option<int>, scale: byte, open: int, close: int, high: int, low: int,
                     volume: int, openInterest: Option<i32>)

  /** Seconds are multiplied out in 64 bits; `bias` takes the server's clock to UTC. */
  function InstantOf(units: int, period: Option<nat>, bias: int): Option<int> {
    if period.None? then None else Some(Wrap64(units * period.value) + bias)
  }

  function BarOf(m: Market, bias: int, part: Candles, c: Candle, units: int): Bar {
    Bar(units, InstantOf(units, PeriodSeconds(m.kinds, part.period), bias), EventScale(m, part),
        c.open, c.open + c.close, c.open + c.high, c.open + c.low, c.volume, c.openInterest)
  }

  /** The time of item i: the first item's absolute time plus the deltas up to i. */
  function UnitsAt(items: seq<Candle>, i: nat): int
    requires i < |items|
  {
    if i == 0 then items[0].time else UnitsAt(items, i - 1) + items[i].time
  }

  /** The bars of a part in wire order, newest first. */
  function Decoded(m: Market, bias: int, part: Candles): (r: seq<Bar>)
    ensures |r| == |part.items|
  {
    seq(|part.items|, i requires 0 <= i < |part.items| => BarOf(m, bias, part, part.items[i], UnitsAt(part.items, i)))
  }

  function Reversed<T>(s: seq<T>): (r: seq<T>)
    ensures |r| == |s|
  {
    seq(|s|, i requires 0 <= i < |s| => s[|s| - 1 - i])
  }

  lemma ReversedConcat<T>(a: seq<T>, b: seq<T>)
    ensures Reversed(a + b) == Reversed(b) + Reversed(a)
  {
  }

  method ReverseInPlace<T>(a: array<T>)
    modifies a
    ensures a[..] == Reversed(old(a[..]))
  {
    ghost var was := a[..];
    var i, j := 0, a.Length - 1;
    while i < j
      invariant 0 <= i <= j + 1 && i + j == a.Length - 1
      invariant forall k :: 0 <= k < i || j < k < a.Length ==> a[k] == was[a.Length - 1 - k]
      invariant forall k :: i <= k <= j ==> a[k] == was[k]
    {
      a[i], a[j] := a[j], a[i];
      i, j := i + 1, j - 1;
    }
  }

  /** A series under its name; `warnings` lists the periods it could not date. */
  datatype Series = Series(name: Name, secID: u16, period: byte, status: int, bias: int, warnings: seq<byte>, bars: seq<Bar>)

  function Warned(m: Market, part: Candles): seq<byte> {
    if PeriodSeconds(m.kinds, part.period).None? then [part.period] else []
  }

  method Describe(m: Market, c: Candles) returns (name: Name, scale: byte)
    ensures name == NameOf(m, c) && scale == EventScale(m, c)
  {
    name, scale := Name("", ""), 0;
    if c.secID in m.secs {
      var sec := m.secs[c.secID];
      name := Name(if c.board in m.boards then m.boards[c.board] else "", sec.seccode);
      scale := Decimals(sec.pits, c.board);
      if scale == 0 {
        var pit := PitOn(sec.pits, c.board);
        if pit.Some? {
          scale := pit.value.decimals;
        }
      }
    }
  }

  method Accumulate(m: Market, bias: int, c: Candles, period: Option<nat>, scale: byte) returns (out: seq<Bar>)
    requires period == PeriodSeconds(m.kinds, c.period) && scale == EventScale(m, c)
    ensures out == Decoded(m, bias, c)
  {
    hide PeriodSeconds, EventScale, Wrap64;
    out := [];
    var units := 0;
    for i := 0 to |c.items|
      invariant out == Decoded(m, bias, c)[..i]
      invariant i > 0 ==> units == UnitsAt(c.items, i - 1)
    {
      var item := c.items[i];
      if i == 0 {
        units := item.time;
      } else {
        units := units + item.time;
      }
      var at := if period == None then None else Some(Wrap64(units * period.value) + bias);
      out := out + [Bar(units, at, scale, item.open, item.open + item.close, item.open + item.high, item.open + item.low,
                        item.volume, item.openInterest)];
    }
  }

  /** The event of one part, its bars turned round into chronological order. */
  method Event(m: Market, bias: int, c: Candles) returns (s: Series)
    ensures s == Series(NameOf(m, c), c.secID, c.period, c.status, bias, Warned(m, c), Reversed(Decoded(m, bias, c)))
  {
    hide Decoded, PeriodSeconds, EventScale, NameOf;
    var name, scale := Describe(m, c);
    var period := FindPeriod(m, c.period);
    var warnings := if period == None then [c.period] else [];
    var out := Accumulate(m, bias, c, period, scale);
    var a := new Bar[|out|](i requires 0 <= i < |out| => out[i]);
    assert a[..] == out;
    ReverseInPlace(a);
    s := Series(name, c.secID, c.period, c.status, bias, warnings, a[..]);
  }

  // ---- what an event means ----

  /** A candle as the exchange knows it: its time in periods and its absolute prices. */
  datatype Known = Known(units: int, open: int, close: int, high: int, low: int, field6: i32, volume: i32, openInterest: Option<i32>)

  predicate Small(x: int) { MIN_INT32 <= x <= -(MIN_INT32 + 1) }

  /** The differences that are sent fit into 32 bits. */
  predicate Sendable(ks: seq<Known>, i: nat)
    requires i < |ks|
  {
    && Small(if i == 0 then ks[i].units else ks[i].units - ks[i - 1].units) && Small(ks[i].open)
    && Small(ks[i].close - ks[i].open) && Small(ks[i].high - ks[i].open) && Small(ks[i].low - ks[i].open)
  }

  /** Candle i of a part: its time as a difference to the candle before it, and close, high and
      low as differences to its open. */
  function SentCandle(ks: seq<Known>, i: nat): Candle
    requires i < |ks| && Sendable(ks, i)
  {
    Candle(if i == 0 then ks[i].units else ks[i].units - ks[i - 1].units, ks[i].open, ks[i].close - ks[i].open,
           ks[i].high - ks[i].open, ks[i].low - ks[i].open, ks[i].field6, ks[i].volume, ks[i].openInterest)
  }

  lemma {:induction false} UnitsKnown(items: seq<Candle>, ks: seq<Known>, i: nat)
    requires |items| == |ks| && i < |ks|
    requires forall k: nat :: k < |ks| ==> Sendable(ks, k) && items[k] == SentCandle(ks, k)
    ensures UnitsAt(items, i) == ks[i].units
  {
    assert items[i] == SentCandle(ks, i);
    if i > 0 {
      UnitsKnown(items, ks, i - 1);
    }
  }

  /** Candles sent as differences are decoded to the candles they were, each value in its own
      place, dated by the period and scaled by the pit. */
  lemma EventMeaning(m: Market, bias: int, part: Candles, ks: seq<Known>, i: nat)
    requires |part.items| == |ks| && i < |ks|
    requires forall k: nat :: k < |ks| ==> Sendable(ks, k) && part.items[k] == SentCandle(ks, k)
    ensures var bar := Decoded(m, bias, part)[i];
            && bar.units == ks[i].units && bar.open == ks[i].open && bar.close == ks[i].close
            && bar.high == ks[i].high && bar.low == ks[i].low
            && bar.volume == ks[i].volume && bar.openInterest == ks[i].openInterest
            && (bar.at.Some? <==> PeriodSeconds(m.kinds, part.period).Some?)
            && (bar.at.Some? ==> bar.at.value == Wrap64(ks[i].units * PeriodSeconds(m.kinds, part.period).value) + bias)
            && bar.scale == if part.secID in m.secs then Decimals(m.secs[part.secID].pits, part.board) else 0
  {
    hide PeriodSeconds, EventScale, Wrap64;
    UnitsKnown(part.items, ks, i);
    SecondLookupIdle(m, part);
    assert part.items[i] == SentCandle(ks, i);
  }

  /** The pit that decides: the first of the board, else the first default one, else the first. */
  predicate Decides(pits: seq<Pit>, board: u16, i: nat)
    requires i < |pits|
  {
    || (pits[i].board == board && forall k :: 0 <= k < i ==> pits[k].board != board)
    || (&& (forall p <- pits :: p.board != board)
        && ((pits[i].isDefault && forall k :: 0 <= k < i ==> !pits[k].isDefault)
            || (i == 0 && forall p <- pits :: !p.isDefault)))
  }

  lemma {:induction false} FirstOnBoard(pits: seq<Pit>, board: u16, i: nat)
    ensures i < |pits| && pits[i].board == board && (forall k :: 0 <= k < i ==> pits[k].board != board) ==>
              PitOn(pits, board) == Some(pits[i])
    ensures (forall p <- pits :: p.board != board) ==> PitOn(pits, board) == None
  {
    if pits != [] {
      assert pits[0] in pits && forall p <- pits[1..] :: p in pits;
      if i > 0 {
        FirstOnBoard(pits[1..], board, i - 1);
      } else {
        FirstOnBoard(pits[1..], board, 0);
      }
    }
  }

  lemma {:induction false} FirstMarked(pits: seq<Pit>, i: nat)
    ensures i < |pits| && pits[i].isDefault && (forall k :: 0 <= k < i ==> !pits[k].isDefault) ==> MarkedPit(pits) == Some(pits[i])
    ensures (forall p <- pits :: !p.isDefault) ==> MarkedPit(pits) == None
  {
    if pits != [] {
      assert pits[0] in pits && forall p <- pits[1..] :: p in pits;
      FirstMarked(pits[1..], if i > 0 then i - 1 else 0);
    }
  }

  lemma DecimalsOfDeciding(pits: seq<Pit>, board: u16, i: nat)
    ensures i < |pits| && Decides(pits, board, i) ==> Decimals(pits, board) == pits[i].decimals
    ensures Decimals([], board) == 0
  {
    FirstOnBoard(pits, board, i);
    FirstMarked(pits, i);
  }

  /** The period is that of the first kind with the number and a positive length; without one
      only number 1 has a length, sixty seconds. */
  lemma {:induction false} PeriodChosen(kinds: seq<CandleKind>, period: byte, i: nat)
    ensures i < |kinds| && kinds[i].id == period && kinds[i].period > 0
            && (forall k :: 0 <= k < i ==> !(kinds[k].id == period && kinds[k].period > 0)) ==>
              PeriodSeconds(kinds, period) == Some(kinds[i].period)
    ensures (forall k <- kinds :: !(k.id == period && k.period > 0)) ==>
              PeriodSeconds(kinds, period) == if period == 1 then Some(60) else None
  {
    if kinds != [] {
      assert kinds[0] in kinds && forall k <- kinds[1..] :: k in kinds;
      PeriodChosen(kinds[1..], period, if i > 0 then i - 1 else 0);
    }
  }

  // ---- combining the parts of one reply ----

  /** The decoded bars of all parts in arrival order. */
  function Arrived(m: Market, bias: int, parts: seq<Candles>): seq<Bar> {
    if parts == [] then [] else Arrived(m, bias, parts[..|parts| - 1]) + Decoded(m, bias, parts[|parts| - 1])
  }

  /** The warnings of all parts, each kept where it came first. */
  function AllWarned(m: Market, parts: seq<Candles>): seq<byte> {
    if parts == [] then []
    else
      var earlier, more := AllWarned(m, parts[..|parts| - 1]), Warned(m, parts[|parts| - 1]);
      if more != [] && more[0] !in earlier then earlier + more else earlier
  }

  /** Every undated period is warned of, and only once. */
  lemma {:induction false} WarnedOnce(m: Market, parts: seq<Candles>)
    ensures var w := AllWarned(m, parts);
            && (forall i, j :: 0 <= i < j < |w| ==> w[i] != w[j])
            && forall n: byte :: n in w <==> exists p <- parts :: p.period == n && PeriodSeconds(m.kinds, n).None?
  {
    hide PeriodSeconds;
    if parts != [] {
      var last := parts[|parts| - 1];
      WarnedOnce(m, parts[..|parts| - 1]);
      assert parts == parts[..|parts| - 1] + [last];
    }
  }

  /** What a reply in several parts comes to: name, identity and status of its last part, every
      warning once, and all the candles received, turned round. */
  function Combined(m: Market, bias: int, parts: seq<Candles>): Series
    requires parts != []
  {
    var last := parts[|parts| - 1];
    Series(NameOf(m, last), last.secID, last.period, last.status, bias, AllWarned(m, parts), Reversed(Arrived(m, bias, parts)))
  }

  /** The bars are put in front part by part, never turned round again. */
  method CombineCandles(m: Market, bias: int, parts: seq<Candles>) returns (r: Option<Series>)
    ensures r.None? <==> parts == []
    ensures r.Some? ==> r.value == Combined(m, bias, parts)
  {
    hide NameOf, Warned, Decoded;
    if parts == [] {
      return None;
    }
    var s := Series(Name("", ""), 0, 0, 0, 0, [], []);
    for i := 0 to |parts|
      invariant s.bars == Reversed(Arrived(m, bias, parts[..i])) && s.warnings == AllWarned(m, parts[..i])
      invariant i > 0 ==> s == Series(NameOf(m, parts[i - 1]), parts[i - 1].secID, parts[i - 1].period, parts[i - 1].status,
                                      bias, s.warnings, s.bars)
    {
      var part := parts[i];
      var ev := Event(m, bias, part);
      assert parts[..i + 1][..i] == parts[..i];
      ReversedConcat(Arrived(m, bias, parts[..i]), Decoded(m, bias, part));
      var warnings := s.warnings;
      if ev.warnings != [] && ev.warnings[0] !in warnings {
        warnings := warnings + ev.warnings;
      }
      s := ev.(warnings := warnings, bars := ev.bars + s.bars);
    }
    assert parts[..|parts|] == parts;
    r := Some(s);
  }

  predicate NewestFirst(bars: seq<Bar>) {
    forall i, j :: 0 <= i < j < |bars| ==> bars[i].units > bars[j].units
  }

  predicate Chronological(bars: seq<Bar>) {
    forall i, j :: 0 <= i < j < |bars| ==> bars[i].units < bars[j].units
  }

  lemma ReversedChronological(bars: seq<Bar>)
    ensures Chronological(Reversed(bars)) <==> NewestFirst(bars)
  {
    var r := Reversed(bars);
    if Chronological(r) {
      forall i, j | 0 <= i < j < |bars| ensures bars[i].units > bars[j].units {
        assert r[|r| - 1 - j] == bars[j] && r[|r| - 1 - i] == bars[i];
      }
    }
  }

  /** The first item of a part carries its time, every later one a step back from the item
      before it. */
  predicate StepsBack(items: seq<Candle>) {
    forall i :: 0 < i < |items| ==> items[i].time < 0
  }

  /** The oldest time of the nearest part with candles, counted from the last one. */
  function OldestSoFar(parts: seq<Candles>): Option<int> {
    if parts == [] then None
    else
      var items := parts[|parts| - 1].items;
      if items == [] then OldestSoFar(parts[..|parts| - 1]) else Some(UnitsAt(items, |items| - 1))
  }

  /** Every part steps back, and starts before the oldest candle received before it. */
  predicate PartsGoBack(parts: seq<Candles>) {
    parts == []
    || (var earlier, items := parts[..|parts| - 1], parts[|parts| - 1].items;
        && PartsGoBack(earlier) && StepsBack(items)
        && (items != [] && OldestSoFar(earlier).Some? ==> items[0].time < OldestSoFar(earlier).value))
  }

  lemma {:induction false} UnitsFall(items: seq<Candle>, i: nat, j: nat)
    requires i < j < |items| && StepsBack(items)
    ensures UnitsAt(items, i) > UnitsAt(items, j)
  {
    if i < j - 1 {
      UnitsFall(items, i, j - 1);
    }
  }

  lemma DecodedUnits(m: Market, bias: int, part: Candles, i: nat)
    requires i < |part.items|
    ensures Decoded(m, bias, part)[i].units == UnitsAt(part.items, i)
  {
  }

  lemma DecodedFalls(m: Market, bias: int, part: Candles)
    ensures NewestFirst(Decoded(m, bias, part)) <==> StepsBack(part.items)
  {
    hide Decoded;
    var bars, items := Decoded(m, bias, part), part.items;
    forall i: nat | i < |bars| ensures bars[i].units == UnitsAt(items, i) {
      DecodedUnits(m, bias, part, i);
    }
    if StepsBack(items) {
      forall i, j | 0 <= i < j < |bars| ensures bars[i].units > bars[j].units {
        UnitsFall(items, i, j);
      }
    } else {
      var i :| 0 < i < |items| && items[i].time >= 0;
      assert bars[i].units == bars[i - 1].units + items[i].time;
    }
  }

  lemma JoinedFalls(a: seq<Bar>, b: seq<Bar>)
    ensures NewestFirst(a + b)
            <==> NewestFirst(a) && NewestFirst(b) && (a != [] && b != [] ==> a[|a| - 1].units > b[0].units)
  {
    var all := a + b;
    if NewestFirst(all) {
      forall i, j | 0 <= i < j < |a| ensures a[i].units > a[j].units {
        assert all[i] == a[i] && all[j] == a[j];
      }
      forall i, j | 0 <= i < j < |b| ensures b[i].units > b[j].units {
        assert all[|a| + i] == b[i] && all[|a| + j] == b[j];
      }
      if a != [] && b != [] {
        assert all[|a| - 1] == a[|a| - 1] && all[|a|] == b[0];
      }
    }
  }

  lemma {:induction false} ArrivedFalls(m: Market, bias: int, parts: seq<Candles>)
    ensures NewestFirst(Arrived(m, bias, parts)) <==> PartsGoBack(parts)
    ensures var bars := Arrived(m, bias, parts);
            OldestSoFar(parts) == if bars == [] then None else Some(bars[|bars| - 1].units)
  {
    hide NewestFirst, StepsBack, Decoded, UnitsAt;
    if parts == [] {
      NothingFalls();
    } else {
      var n := |parts| - 1;
      var last := parts[n];
      ArrivedFalls(m, bias, parts[..n]);
      DecodedFalls(m, bias, last);
      if last.items != [] {
        DecodedEnds(m, bias, last);
      }
      JoinedFalls(Arrived(m, bias, parts[..n]), Decoded(m, bias, last));
    }
  }

  lemma DecodedEnds(m: Market, bias: int, part: Candles)
    requires part.items != []
    ensures var bars, items := Decoded(m, bias, part), part.items;
            && |bars| == |items| && bars[0].units == items[0].time
            && bars[|items| - 1].units == UnitsAt(items, |items| - 1)
  {
    hide PeriodSeconds, EventScale;
  }

  lemma NothingFalls()
    ensures NewestFirst([])
  {
  }

  /** The combined series is strictly chronological exactly when in every part each candle steps
      back from the one before it, and each part starts before the oldest candle received. */
  lemma CombinedChronological(m: Market, bias: int, parts: seq<Candles>)
    ensures Chronological(Reversed(Arrived(m, bias, parts))) <==> PartsGoBack(parts)
  {
    ReversedChronological(Arrived(m, bias, parts));
    ArrivedFalls(m, bias, parts);
  }

  predicate InstantsAscend(bars: seq<Bar>) {
    forall i, j :: 0 <= i < j < |bars| ==> bars[i].at.Some? && bars[j].at.Some? && bars[i].at.value < bars[j].at.value
  }

  predicate DatedBy(bars: seq<Bar>, period: nat, bias: int) {
    forall b <- bars :: b.at == Some(b.units * period + bias)
  }

  lemma {:induction false} ArrivedDated(m: Market, bias: int, parts: seq<Candles>, period: nat)
    requires forall p <- parts :: PeriodSeconds(m.kinds, p.period) == Some(period)
    requires forall b <- Arrived(m, bias, parts) :: MIN_INT64 <= b.units * period < -MIN_INT64
    ensures DatedBy(Arrived(m, bias, parts), period, bias)
  {
    hide PeriodSeconds, EventScale, UnitsAt;
    if parts != [] {
      var earlier, last := parts[..|parts| - 1], parts[|parts| - 1];
      assert forall p <- earlier :: p in parts;
      assert last in parts;
      var before, bars := Arrived(m, bias, earlier), Decoded(m, bias, last);
      assert Arrived(m, bias, parts) == before + bars;
      ArrivedDated(m, bias, earlier, period);
      forall b | b in bars ensures b.at == Some(b.units * period + bias) {
        assert b in Arrived(m, bias, parts);
        assert b.at == InstantOf(b.units, Some(period), bias);
        Unwrapped(b.units * period);
      }
    }
  }

  lemma Unwrapped(x: int)
    requires MIN_INT64 <= x < -MIN_INT64
    ensures Wrap64(x) == x
  {
  }

  lemma LaterInstant(a: int, b: int, period: nat, bias: int)
    requires period > 0
    ensures a * period + bias < b * period + bias <==> a < b
  {
  }

  /** In a dated series whose seconds fit into 64 bits the instants ascend under the same
      condition, whatever the length of the period and the bias. */
  lemma DatedChronological(m: Market, bias: int, parts: seq<Candles>, period: nat)
    requires period > 0 && forall p <- parts :: PeriodSeconds(m.kinds, p.period) == Some(period)
    requires forall b <- Arrived(m, bias, parts) :: MIN_INT64 <= b.units * period < -MIN_INT64
    ensures InstantsAscend(Reversed(Arrived(m, bias, parts))) <==> PartsGoBack(parts)
  {
    hide Arrived, PartsGoBack, PeriodSeconds;
    var arrived := Arrived(m, bias, parts);
    var bars := Reversed(arrived);
    ArrivedDated(m, bias, parts, period);
    CombinedChronological(m, bias, parts);
    forall i, j | 0 <= i < j < |bars|
      ensures bars[i].at.Some? && bars[j].at.Some?
              && (bars[i].at.value < bars[j].at.value <==> bars[i].units < bars[j].units)
    {
      assert bars[i] in arrived && bars[j] in arrived;
      LaterInstant(bars[i].units, bars[j].units, period, bias);
    }
  }

  // ---- the collectors of requests in flight ----

  datatype Key = Key(secID: u16, board: u16, period: byte)

  datatype Reply = Data(series: Series) | Failed

  class Collector {
    var parts: seq<Candles>
    /** The result channel of capacity one. */
    var ch: Option<Reply>

    constructor ()
      ensures parts == [] && ch == None
    {
      parts, ch := [], None;
    }
  }

  function KeyOf(part: Candles): Key { Key(part.secID, part.board, part.period) }

  class HistoryDesk {
    var history: map<Key, Collector>

    /** A registered collector is waiting, holds only unfinished parts of its own key, and is
        registered once. */
    ghost predicate Valid()
      reads this, history.Values
    {
      && (forall k <- history :: history[k].ch == None)
      && (forall k <- history :: forall p <- history[k].parts :: KeyOf(p) == k && p.status == 2)
      && (forall k <- history, l <- history :: history[k] == history[l] ==> k == l)
    }

    constructor ()
      ensures Valid() && history == map[]
    {
      history := map[];
    }

    /** A second request for the same series is refused while one is in flight. */
    method Register(key: Key) returns (r: Option<Collector>)
      requires Valid()
      modifies this
      ensures Valid() && r.None? == (key in old(history))
      ensures r.None? ==> history == old(history)
      ensures r.Some? ==> fresh(r.value) && r.value.parts == [] && history == old(history)[key := r.value]
    {
      if key in history {
        return None;
      }
      var c := new Collector();
      history := history[key := c];
      r := Some(c);
    }

    /** Called for every decoded part. A part with status 2 is kept; any other status completes
        the request with all its parts combined and removes it. */
    method AddPart(m: Market, bias: int, part: Candles)
      requires Valid()
      modifies this, if KeyOf(part) in history then {history[KeyOf(part)]} else {}
      ensures Valid()
      ensures var key := KeyOf(part);
              if key !in old(history) then history == old(history)
              else if part.status == 2 then
                history == old(history) && history[key].parts == old(history[key].parts) + [part]
              else
                && history == old(history) - {key}
                && old(history[key]).ch == Some(Data(Combined(m, bias, old(history[key].parts) + [part])))
    {
      var key := KeyOf(part);
      if key !in history {
        return;
      }
      var coll := history[key];
      coll.parts := coll.parts + [part];
      if part.status == 2 {
        return;
      }
      history := history - {key};
      var series := CombineCandles(m, bias, coll.parts);
      if coll.ch == None {
        coll.ch := Some(Data(series.value));
      }
    }

    /** A cancelled request removes only its own registration. */
    method Drop(key: Key, coll: Collector)
      requires Valid()
      modifies this
      ensures Valid()
      ensures history == if key in old(history) && old(history)[key] == coll then old(history) - {key} else old(history)
    {
      if key in history && history[key] == coll {
        history := history - {key};
      }
    }

    /** A new session fails every request in flight. */
    method FailAll()
      requires Valid()
      modifies this, history.Values
      ensures Valid() && history == map[]
      ensures forall k <- old(history) :: old(history)[k].ch == Some(Failed)
    {
      ghost var all := history;
      while history != map[]
        invariant history.Keys <= all.Keys && forall k <- history :: history[k] == all[k]
        invariant forall k <- all :: k !in history ==> all[k].ch == Some(Failed)
        invariant forall k <- all, l <- all :: all[k] == all[l] ==> k == l
        decreases history.Keys
      {
        var key :| key in history;
        assert history[key] in history.Values;
        history[key].ch := Some(Failed);
        history := history - {key};
      }
    }
  }
}
