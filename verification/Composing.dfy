/** The records written field by field, in the order and with the bounds of the wire, against
    the parsers that read them. */
module Composing {
  import opened Bytes
  import opened Codec
  import opened Records
  import opened Parsers
  import Splitting

  // ---- single fields ----

  /** A text that comes back: no NUL in it and not too long. */
  predicate Fits(t: seq<byte>, max: nat) { |t| <= max && 0 !in t }

  function TextBytes(t: seq<byte>, q: seq<byte>): seq<byte> { t + ([0] + q) }

  lemma TextComesBack(t: seq<byte>, max: nat, q: seq<byte>)
    ensures Fits(t, max) ==> Text(TextBytes(t, q), max) == Some((t, q))
    ensures !Fits(t, max) ==> Text(TextBytes(t, q), max) == None || Text(TextBytes(t, q), max).value.0 != t
  {
    var s := TextBytes(t, q);
    var n := |t| + 1;
    assert s[..|t|] == t && s[n..] == q && s[|t|] == 0;
    TextRead(s, max, t, n);
    if Text(s, max).Some? && Text(s, max).value.0 == t {
      TextRead(s, max, t, ReadString(s, max).value.1);
    }
  }

  /** How each kind of field comes back, in front of anything. */
  lemma FieldsComeBack()
    ensures forall w: u16, q {:trigger Word(Be16Bytes(w) + q)} :: Word(Be16Bytes(w) + q) == Some((w, q))
    ensures forall b: byte, q {:trigger OneByte([b] + q)} :: OneByte([b] + q) == Some((b, q))
    ensures forall v: i32, q {:trigger Int(PackedBytes(v) + q)} :: Int(PackedBytes(v) + q) == Some((v, q))
    ensures forall v: i64, q {:trigger Wide(PackedBytes(v) + q)} ::
              Wide(PackedBytes(v) + q) == Some((if v == MIN_INT32 then MIN_INT64 else v, q))
    ensures forall t, max, q {:trigger Text(TextBytes(t, q), max)} ::
              Fits(t, max) ==> Text(TextBytes(t, q), max) == Some((t, q))
    ensures forall t, max, q {:trigger Text(TextBytes(t, q), max)} ::
              !Fits(t, max) ==> Text(TextBytes(t, q), max) == None || Text(TextBytes(t, q), max).value.0 != t
  {
    hide ReadPacked, PackedBytes, Text, Fits, TextBytes;
    Written();
    forall v: i64, q ensures Wide(PackedBytes(v) + q) == Some((if v == MIN_INT32 then MIN_INT64 else v, q)) {
      PackedReadsBack(v, q, true);
      assert (PackedBytes(v) + q)[|PackedBytes(v)|..] == q;
    }
    forall t, max, q
      ensures Fits(t, max) ==> Text(TextBytes(t, q), max) == Some((t, q))
      ensures !Fits(t, max) ==> Text(TextBytes(t, q), max) == None || Text(TextBytes(t, q), max).value.0 != t
    {
      TextComesBack(t, max, q);
    }
  }

  // ---- repeated fields ----

  function TradeBytes(t: Trade, q: seq<byte>): seq<byte> {
    Be16Bytes(t.board) + (PackedBytes(t.tradeNo) + (PackedBytes(t.time) + (PackedBytes(t.price) + (PackedBytes(t.volume)
      + ([t.period] + ([t.side] + (PackedBytes(t.x) + (PackedBytes(t.y) + q))))))))
  }

  function TradesBytes(ts: seq<Trade>, q: seq<byte>): seq<byte> {
    if ts == [] then Be16Bytes(0xffff) + q else Be16Bytes(ts[0].secID) + TradeBytes(ts[0], TradesBytes(ts[1..], q))
  }

  predicate TradeFits(t: Trade) { t.secID != 0xffff && t.tradeNo != MIN_INT32 }

  lemma TradeComesBack(t: Trade, q: seq<byte>)
    ensures ReadTrade(t.secID, TradeBytes(t, q)) == Some((t.(tradeNo := if t.tradeNo == MIN_INT32 then MIN_INT64 else t.tradeNo), q))
  {
    hide Word, Wide, Int, OneByte, PackedBytes, Be16Bytes;
    FieldsComeBack();
  }

  lemma {:induction false} TradesComeBack(ts: seq<Trade>, q: seq<byte>)
    ensures ReadTrades(TradesBytes(ts, q)) == Some((ts, q)) <==> forall t <- ts :: TradeFits(t)
  {
    hide Word, Wide, Int, OneByte, Be16Bytes, TradeBytes, ReadTrade, Text;
    FieldsComeBack();
    if ts != [] {
      var more := TradesBytes(ts[1..], q);
      TradeComesBack(ts[0], more);
      TradesComeBack(ts[1..], q);
      assert ts == [ts[0]] + ts[1..];
      assert (forall t <- ts :: TradeFits(t)) <==> TradeFits(ts[0]) && forall t <- ts[1..] :: TradeFits(t);
      FirstAndRest(ts[0].(tradeNo := if ts[0].tradeNo == MIN_INT32 then MIN_INT64 else ts[0].tradeNo), ReadTrades(more), ts);
    }
  }

  /** A list that is read starts with what was read first. */
  lemma FirstAndRest<T>(x: T, f: Option<(seq<T>, seq<byte>)>, all: seq<T>)
    requires all != []
    ensures f.Some? ==> ([x] + f.value.0 == all <==> x == all[0] && f.value.0 == all[1..])
  {
    if f.Some? && [x] + f.value.0 == all {
      assert all[0] == x && all[1..] == ([x] + f.value.0)[1..] == f.value.0;
    }
  }

  function StrikesBytes(items: seq<Strike>, q: seq<byte>): seq<byte> {
    if items == [] then TextBytes([], q)
    else TextBytes(items[0].code, [items[0].cp] + (PackedBytes(items[0].price) + StrikesBytes(items[1..], q)))
  }

  predicate StrikeFits(x: Strike) { x.code != [] && Fits(x.code, 26) }

  lemma {:induction false} StrikesComeBack(items: seq<Strike>, q: seq<byte>)
    ensures ReadItems(StrikesBytes(items, q)) == Some((items, q)) <==> forall x <- items :: StrikeFits(x)
  {
    hide Text, Int, OneByte, PackedBytes, TextBytes, Fits;
    FieldsComeBack();
    if items == [] {
      EmptyFits(26);
    } else {
      var x, more := items[0], StrikesBytes(items[1..], q);
      StrikesComeBack(items[1..], q);
      assert items == [x] + items[1..];
      assert (forall y <- items :: StrikeFits(y)) <==> StrikeFits(x) && forall y <- items[1..] :: StrikeFits(y);
      FirstAndRest(x, ReadItems(more), items);
      OtherStrike(items, [x.cp] + (PackedBytes(x.price) + more));
    }
  }

  lemma EmptyFits(max: nat)
    ensures Fits([], max)
  {
  }

  /** A strike whose code does not come back is not read as itself. */
  lemma OtherStrike(items: seq<Strike>, tail: seq<byte>)
    requires items != []
    ensures var s, r := TextBytes(items[0].code, tail), ReadItems(TextBytes(items[0].code, tail));
            r.Some? && r.value.0 == items ==> Text(s, 26).Some? && Text(s, 26).value.0 == items[0].code != []
  {
    hide Text, Int, OneByte, TextBytes;
  }

  function OptionalBytes(v: Option<i32>, q: seq<byte>): seq<byte> {
    if v.Some? then PackedBytes(v.value) + q else q
  }

  function LevelBytes(l: Level, q: seq<byte>): seq<byte> {
    (if l.mark.Some? then [l.mark.value] else [])
    + OptionalBytes(l.int1, OptionalBytes(l.int2,
        if l.text.Some? then TextBytes(l.text.value, OptionalBytes(l.int3, q)) else OptionalBytes(l.int3, q)))
  }

  function LevelsBytes(ls: seq<Level>, q: seq<byte>): seq<byte> {
    if ls == [] then [0xff] + q else [ls[0].flags] + LevelBytes(ls[0], LevelsBytes(ls[1..], q))
  }

  /** Exactly the announced fields are there. */
  predicate Announced(l: Level) {
    && (l.mark.Some? <==> l.flags % 2 == 1) && (l.int1.Some? <==> l.flags / 2 % 2 == 1)
    && (l.int2.Some? <==> l.flags / 4 % 2 == 1) && (l.text.Some? <==> l.flags / 8 % 2 == 1)
    && (l.int3.Some? <==> l.flags / 16 % 2 == 1)
  }

  predicate LevelFits(l: Level) {
    l.flags < 0x20 && Announced(l) && (l.text.Some? ==> Fits(l.text.value, 4))
  }

  lemma NothingInFront(q: seq<byte>)
    ensures [] + q == q
  {
  }

  /** A level is read as itself exactly if its fields are the announced ones and its text fits. */
  lemma LevelComesBack(l: Level, q: seq<byte>)
    ensures LevelFits(l) ==> ReadLevel(l.flags, LevelBytes(l, q)) == Some((l, q))
    ensures l.flags < 0x20 && !LevelFits(l) ==>
              ReadLevel(l.flags, LevelBytes(l, q)) == None || ReadLevel(l.flags, LevelBytes(l, q)).value.0 != l
  {
    hide Text, Int, OneByte, PackedBytes, TextBytes, Fits;
    FieldsComeBack();
    NothingInFront(OptionalBytes(l.int1, OptionalBytes(l.int2,
      if l.text.Some? then TextBytes(l.text.value, OptionalBytes(l.int3, q)) else OptionalBytes(l.int3, q))));
  }

  lemma {:induction false} LevelsComeBack(ls: seq<Level>, q: seq<byte>)
    ensures ReadLevels(LevelsBytes(ls, q)) == Some((ls, q)) <==> forall l <- ls :: LevelFits(l)
  {
    hide OneByte, ReadLevel, LevelBytes, Announced, Text, Int, Word, Wide;
    FieldsComeBack();
    if ls != [] {
      var more := LevelsBytes(ls[1..], q);
      LevelComesBack(ls[0], more);
      LevelsComeBack(ls[1..], q);
      assert ls == [ls[0]] + ls[1..];
      if ReadLevel(ls[0].flags, LevelBytes(ls[0], more)).Some? {
        var (x, t) := ReadLevel(ls[0].flags, LevelBytes(ls[0], more)).value;
        FirstAndRest(x, ReadLevels(t), ls);
      }
    }
  }

  // ---- the records ----

  function TagOf(p: Parsed): byte {
    match p
    case Message(_, _, _, _) => 0x01
    case SecRate(_, _) => 0x0a
    case MktPermit(_, _) => 0x0e
    case ServerMessage(_, _, _, _) => 0x0f
    case Overnight(_) => 0x18
    case News(_) => 0x35
    case TradeDate(_) => 0x3d
    case TickList(_) => 0x5a
    case AmBookRecord(_, _) => 0x5c
    case Union(_, _, _, _) => 0x68
    case FortsSession(_) => 0x6b
    case EdpRate(_, _, _, _) => 0x6e
    case Family(_, _, _, _) => 0x6f
    case EndOfFamilies(_, _) => 0x70
    case EndOfFamily(_, _, _, _) => 0x71
    case StrikeList(_, _, _, _) => 0x78
  }

  function Flag(on: bool): byte { if on then 1 else 0 }

  function HeaderBytes(h: Header, q: seq<byte>): seq<byte> {
    PackedBytes(h.id) + (PackedBytes(h.timestamp) + TextBytes(h.source, TextBytes(h.title, [h.flag] + q)))
  }

  /** A record in front of q. */
  function Composed(p: Parsed, q: seq<byte>): seq<byte> {
    match p
    case Message(kind, from, date, text) => [kind] + TextBytes(from, PackedBytes(date) + TextBytes(text, q))
    case SecRate(secID, value) => Be16Bytes(secID) + (PackedBytes(value) + q)
    case MktPermit(secID, permit) => Be16Bytes(secID) + ([Flag(permit)] + q)
    case ServerMessage(typ, status, text, transaction) => [typ] + ([status] + TextBytes(text, PackedBytes(transaction) + q))
    case Overnight(on) => [Flag(on)] + q
    case News(header) => HeaderBytes(header, q)
    case TradeDate(date) => PackedBytes(date) + q
    case TickList(trades) => TradesBytes(trades, q)
    case AmBookRecord(secID, levels) => Be16Bytes(secID) + LevelsBytes(levels, q)
    case Union(id, name, category, unicat) => PackedBytes(id) + TextBytes(name, TextBytes(category, [unicat] + q))
    case FortsSession(session) => PackedBytes(session) + q
    case EdpRate(pair, name, flag, rate) => TextBytes(pair, TextBytes(name, [flag] + (PackedBytes(rate) + q)))
    case Family(secID, code, first, second) => Be16Bytes(secID) + TextBytes(code, PackedBytes(first) + (PackedBytes(second) + q))
    case EndOfFamilies(secID, text) => Be16Bytes(secID) + TextBytes(text, q)
    case EndOfFamily(secID, code, status, text) => Be16Bytes(secID) + TextBytes(code, PackedBytes(status) + TextBytes(text, q))
    case StrikeList(secID, family, items, final) => Be16Bytes(secID) + (PackedBytes(family) + StrikesBytes(items, [final] + q))
  }

  /** The records that the wire can carry unchanged. */
  predicate Storable(p: Parsed) {
    match p
    case Message(_, from, _, text) => Fits(from, 20) && Fits(text, 1024)
    case SecRate(_, value) => value != MIN_INT32
    case ServerMessage(typ, status, text, transaction) =>
      (typ == 1 || typ == 2) && status != 4 && Fits(text, 512) && transaction != MIN_INT32
    case News(header) => Fits(header.source, 16) && Fits(header.title, 128)
    case TickList(trades) => forall t <- trades :: TradeFits(t)
    case AmBookRecord(_, levels) => forall l <- levels :: LevelFits(l)
    case Union(id, name, category, _) => id != MIN_INT32 && Fits(name, 20) && Fits(category, 32)
    case EdpRate(pair, name, _, _) => Fits(pair, 4) && Fits(name, 25)
    case Family(_, code, _, _) => Fits(code, 6)
    case EndOfFamilies(_, text) => Fits(text, 512)
    case EndOfFamily(_, code, _, text) => Fits(code, 6) && Fits(text, 512)
    case StrikeList(_, _, items, _) => forall x <- items :: StrikeFits(x)
    case _ => true
  }

  lemma NumbersComeBack(p: Parsed, q: seq<byte>)
    requires p.SecRate? || p.MktPermit? || p.Overnight? || p.TradeDate? || p.FortsSession?
    ensures ReadRecord(TagOf(p), Composed(p, q)) == Some((p, q)) <==> Storable(p)
  {
    hide Text, Int, OneByte, Word, Wide, PackedBytes, TextBytes, Fits, Be16Bytes;
    FieldsComeBack();
  }

  lemma TextsComeBack(p: Parsed, q: seq<byte>)
    requires p.Message? || p.EndOfFamilies? || p.Family?
    ensures ReadRecord(TagOf(p), Composed(p, q)) == Some((p, q)) <==> Storable(p)
  {
    hide Text, Int, OneByte, Word, Wide, PackedBytes, TextBytes, Fits, Be16Bytes;
    FieldsComeBack();
  }

  lemma LongTextsComeBack(p: Parsed, q: seq<byte>)
    requires p.EndOfFamily? || p.ServerMessage?
    ensures ReadRecord(TagOf(p), Composed(p, q)) == Some((p, q)) <==> Storable(p)
  {
    hide Text, Int, OneByte, Word, Wide, PackedBytes, TextBytes, Fits, Be16Bytes;
    FieldsComeBack();
  }

  lemma NamesComeBack(p: Parsed, q: seq<byte>)
    requires p.News? || p.Union? || p.EdpRate?
    ensures ReadRecord(TagOf(p), Composed(p, q)) == Some((p, q)) <==> Storable(p)
  {
    hide Text, Int, OneByte, Word, Wide, PackedBytes, TextBytes, Fits, Be16Bytes;
    FieldsComeBack();
  }

  lemma TickListComesBack(trades: seq<Trade>, q: seq<byte>)
    ensures ReadRecord(0x5a, TradesBytes(trades, q)) == Some((TickList(trades), q)) <==> forall t <- trades :: TradeFits(t)
  {
    TradesComeBack(trades, q);
    hide *;
    ReadsTicks(TradesBytes(trades, q));
  }

  lemma ReadsTicks(s: seq<byte>)
    ensures ReadTrades(s) == None ==> ReadRecord(0x5a, s) == None
    ensures ReadTrades(s).Some? ==> ReadRecord(0x5a, s) == Some((TickList(ReadTrades(s).value.0), ReadTrades(s).value.1))
  {
    hide ReadTrades;
  }

  lemma AmBookComesBack(secID: u16, levels: seq<Level>, q: seq<byte>)
    ensures ReadRecord(0x5c, Be16Bytes(secID) + LevelsBytes(levels, q)) == Some((AmBookRecord(secID, levels), q))
            <==> forall l <- levels :: LevelFits(l)
  {
    LevelsComeBack(levels, q);
    FieldsComeBack();
    hide *;
    ReadsLevels(Be16Bytes(secID) + LevelsBytes(levels, q));
  }

  lemma ReadsLevels(s: seq<byte>)
    ensures Word(s).Some? ==>
              var (secID, t) := Word(s).value;
              && (ReadLevels(t) == None ==> ReadRecord(0x5c, s) == None)
              && (ReadLevels(t).Some? ==>
                    ReadRecord(0x5c, s) == Some((AmBookRecord(secID, ReadLevels(t).value.0), ReadLevels(t).value.1)))
  {
    hide ReadLevels, Word;
  }

  lemma StrikeListComesBack(secID: u16, family: i32, items: seq<Strike>, final: byte, q: seq<byte>)
    ensures var s := Be16Bytes(secID) + (PackedBytes(family) + StrikesBytes(items, [final] + q));
            ReadRecord(0x78, s) == Some((StrikeList(secID, family, items, final), q)) <==> forall x <- items :: StrikeFits(x)
  {
    var t := StrikesBytes(items, [final] + q);
    StrikesComeBack(items, [final] + q);
    FieldsComeBack();
    if ReadItems(t).Some? {
      EndByte(ReadItems(t).value.1, final, q);
    }
    hide *;
    ReadsStrikes(Be16Bytes(secID) + (PackedBytes(family) + t));
  }

  lemma ReadsStrikes(s: seq<byte>)
    ensures Word(s).Some? && Int(Word(s).value.1).Some? ==>
              var (secID, t) := Word(s).value;
              var (family, u) := Int(t).value;
              && (ReadItems(u) == None ==> ReadRecord(0x78, s) == None)
              && (ReadItems(u).Some? ==>
                    var (items, v) := ReadItems(u).value;
                    && (OneByte(v) == None ==> ReadRecord(0x78, s) == None)
                    && (OneByte(v).Some? ==>
                          ReadRecord(0x78, s) == Some((StrikeList(secID, family, items, OneByte(v).value.0), OneByte(v).value.1))))
  {
    hide ReadItems, Word, Int, OneByte;
  }

  lemma EndByte(t: seq<byte>, final: byte, q: seq<byte>)
    ensures OneByte(t) == Some((final, q)) <==> t == [final] + q
  {
    if OneByte(t) == Some((final, q)) {
      assert t == [t[0]] + t[1..];
    }
  }

  /** A record written field by field is read back as itself, whatever follows it, exactly if its
      texts fit their fields, its wide numbers are not the one that is not kept, and no entry of
      its list looks like the end of the list. */
  lemma ComposedExactly(p: Parsed, q: seq<byte>)
    ensures ReadRecord(TagOf(p), Composed(p, q)) == Some((p, q)) <==> Storable(p)
  {
    hide Text, Int, OneByte, Word, Wide, PackedBytes, TextBytes, Fits, Be16Bytes, ReadRecord,
         TradeFits, LevelFits, StrikeFits, TradesBytes, LevelsBytes, StrikesBytes;
    match p
    case TickList(trades) => TickListComesBack(trades, q);
    case AmBookRecord(secID, levels) => AmBookComesBack(secID, levels, q);
    case StrikeList(secID, family, items, final) => StrikeListComesBack(secID, family, items, final, q);
    case Message(_, _, _, _) => TextsComeBack(p, q);
    case EndOfFamilies(_, _) => TextsComeBack(p, q);
    case Family(_, _, _, _) => TextsComeBack(p, q);
    case EndOfFamily(_, _, _, _) => LongTextsComeBack(p, q);
    case ServerMessage(_, _, _, _) => LongTextsComeBack(p, q);
    case News(_) => NamesComeBack(p, q);
    case Union(_, _, _, _) => NamesComeBack(p, q);
    case EdpRate(_, _, _, _) => NamesComeBack(p, q);
    case _ => NumbersComeBack(p, q);
  }

  /** From field to field: a storable record that is written into a payload comes out of the
      splitter as one record whose body parses to what was written. */
  lemma RecordSent(p: Parsed, rest: seq<byte>, off: nat, z: Inflater)
    requires Storable(p) && Splitting.ZlibLike(z)
    ensures var body := Composed(p, []);
            var more := SplitFrom(rest, off + 1 + |body|, false, z);
            && SplitFrom([TagOf(p)] + (body + rest), off, false, z) == Split([Record(TagOf(p), body)] + more.recs, more.err)
            && Parse(TagOf(p), body) == Some(p)
  {
    hide SplitFrom, BodyStep, ReadRecord, Composed, Splitting.ZlibLike, Emit, Storable, Strict;
    var tag, body := TagOf(p), Composed(p, []);
    ComposedExactly(p, []);
    SplitterAndParserAgree(tag, body, rest, z);
    var s := [tag] + (body + rest);
    assert s[1..] == body + rest && (body + rest)[0..|body|] == body && (body + rest)[|body|..] == rest;
    Splitting.SplitUnfold(s, off, false, z);
    Splitting.EmitPlain(tag, body, z);
  }

  // ---- order books ----

  /** Levels with absolute prices as the differences that are sent. */
  function QuotesBytes(qs: seq<Quote>, price: i64, q: seq<byte>): seq<byte>
    requires QuotesFit(qs, price)
  {
    if qs == [] then [0xff] + q
    else
      [qs[0].side] + (PackedBytes(qs[0].price - price) + (PackedBytes(qs[0].qty) + QuotesBytes(qs[1..], qs[0].price, q)))
  }

  /** Buys and sells whose prices differ from one to the next by 32-bit numbers; a level below 1
      is a deletion. */
  predicate QuotesFit(qs: seq<Quote>, price: i64) {
    qs == []
    || (&& (qs[0].side == 66 || qs[0].side == 83) && Int32(qs[0].price - price) && (qs[0].deleted <==> qs[0].price < 1)
        && QuotesFit(qs[1..], qs[0].price))
  }

  lemma QuoteRead(s: seq<byte>, side: byte, t: seq<byte>, delta: i32, u: seq<byte>, qty: i32, v: seq<byte>, price: i64,
                  more: seq<Quote>, q: seq<byte>)
    requires OneByte(s) == Some((side, t)) && Int(t) == Some((delta, u)) && Int(u) == Some((qty, v)) && (side == 66 || side == 83)
    requires ReadQuotes(v, Wrap64(price + delta)) == Some((more, q))
    ensures var p := Wrap64(price + delta); ReadQuotes(s, price) == Some(([Quote(side, p, qty, p < 1)] + more, q))
  {
    hide OneByte, Int, Wrap64;
  }

  lemma {:induction false} QuotesComeBack(qs: seq<Quote>, price: i64, q: seq<byte>)
    requires QuotesFit(qs, price)
    ensures ReadQuotes(QuotesBytes(qs, price, q), price) == Some((qs, q))
  {
    hide Int, PackedBytes, ReadQuotes, QuotesBytes;
    FieldsComeBack();
    if qs == [] {
      NoQuotes(price, q);
    } else {
      var x, more := qs[0], QuotesBytes(qs[1..], qs[0].price, q);
      QuotesComeBack(qs[1..], x.price, q);
      assert qs == [x] + qs[1..];
      Unwrapped(price, x.price);
      QuotesUnfold(qs, price, q);
      hide OneByte, Wrap64, Int32;
      var d: i32 := x.price - price;
      QuoteRead([x.side] + (PackedBytes(d) + (PackedBytes(x.qty) + more)), x.side, PackedBytes(d) + (PackedBytes(x.qty) + more),
                d, PackedBytes(x.qty) + more, x.qty, more, price, qs[1..], q);
    }
  }

  lemma NoQuotes(price: i64, q: seq<byte>)
    ensures ReadQuotes(QuotesBytes([], price, q), price) == Some(([], q))
  {
    assert ([0xff] + q)[1..] == q;
  }

  lemma Unwrapped(price: i64, p: i64)
    ensures Wrap64(price + (p - price)) == p
  {
  }

  lemma QuotesUnfold(qs: seq<Quote>, price: i64, q: seq<byte>)
    requires qs != [] && QuotesFit(qs, price)
    ensures QuotesBytes(qs, price, q)
         == [qs[0].side] + (PackedBytes(qs[0].price - price) + (PackedBytes(qs[0].qty) + QuotesBytes(qs[1..], qs[0].price, q)))
  {
  }

  /** An order book of absolute prices is read back as it was. */
  lemma BookComesBack(secID: u16, board: u16, qs: seq<Quote>, q: seq<byte>)
    requires QuotesFit(qs, 0)
    ensures ParseQuotesBody(Be16Bytes(secID) + (Be16Bytes(board) + QuotesBytes(qs, 0, q))) == Some(((secID, board, qs), q))
  {
    QuotesComeBack(qs, 0, q);
    FieldsComeBack();
    hide *;
    ReadsBook(Be16Bytes(secID) + (Be16Bytes(board) + QuotesBytes(qs, 0, q)));
  }

  lemma ReadsBook(s: seq<byte>)
    ensures Word(s).Some? && Word(Word(s).value.1).Some? && ReadQuotes(Word(Word(s).value.1).value.1, 0).Some? ==>
              var (secID, t) := Word(s).value;
              var (board, u) := Word(t).value;
              var (quotes, v) := ReadQuotes(u, 0).value;
              ParseQuotesBody(s) == Some(((secID, board, quotes), v))
  {
    hide Word, ReadQuotes;
  }

  // ---- news uploads ----

  /** What an upload is made of: a header exactly if the lowest flag is set, a package exactly if
      the next one is, and with a package but no header an identifier in front of it. */
  predicate UploadFits(u: Upload, z: Inflater) {
    && (u.header.Some? <==> u.flags % 2 == 1)
    && (u.header.Some? ==> Fits(u.header.value.source, 16) && Fits(u.header.value.title, 128))
    && (u.package.Some? <==> u.flags / 2 % 2 == 1) && (u.newsID.Some? <==> u.package.Some? && u.header.None?)
    && (u.package.Some? ==> |u.package.value| <= -(MIN_INT32 + 1))
    && (u.package.Some? && u.header.None? ==> PackageLen(z, u.package.value) == Some(|u.package.value|))
  }

  function PackagePart(u: Upload, four: seq<byte>): seq<byte> {
    if u.package.None? then []
    else if u.header.Some? then
      if |u.package.value| <= -(MIN_INT32 + 1) then PackedBytes(|u.package.value|) + u.package.value else []
    else (if u.newsID.Some? then PackedBytes(u.newsID.value) else []) + (four + u.package.value)
  }

  function UploadBytes(u: Upload, four: seq<byte>): seq<byte> {
    [u.flags] + (if u.header.Some? then HeaderBytes(u.header.value, PackagePart(u, four)) else PackagePart(u, four))
  }

  lemma HeaderComesBack(h: Parsers.Header, q: seq<byte>)
    requires Fits(h.source, 16) && Fits(h.title, 128)
    ensures ReadHeader(HeaderBytes(h, q)) == Some((h, q))
  {
    hide Int, OneByte, Text, Word, Wide, PackedBytes, TextBytes, Fits;
    FieldsComeBack();
  }

  lemma PackageComesBack(u: Upload, four: seq<byte>, z: Inflater)
    requires UploadFits(u, z) && |four| == 4
    ensures ReadPackage(u.flags, u.header, PackagePart(u, four), z) == Some((u, []))
  {
    hide Int, OneByte, Text, Word, Wide, PackedBytes, Fits, PackageLen;
    FieldsComeBack();
    if u.package.Some? {
      var p := u.package.value;
      assert p[..|p|] == p && p[|p|..] == [] && (four + p)[4..] == p;
    }
  }

  /** An upload in any of its forms is read back as it was, identifier, header and package; the
      four bytes between identifier and package are passed over. */
  lemma UploadComesBack(u: Upload, four: seq<byte>, z: Inflater)
    requires UploadFits(u, z) && |four| == 4
    ensures ReadUpload(UploadBytes(u, four), z) == Some((u, []))
  {
    hide ReadHeader, ReadPackage, HeaderBytes, PackagePart, Fits, PackageLen;
    PackageComesBack(u, four, z);
    if u.header.Some? {
      HeaderComesBack(u.header.value, PackagePart(u, four));
    }
    var s := UploadBytes(u, four);
    assert OneByte(s) == Some((u.flags, s[1..]));
    assert s[1..] == if u.header.Some? then HeaderBytes(u.header.value, PackagePart(u, four)) else PackagePart(u, four);
  }

  // ---- the records that are only split ----

  /** Exactly which tags are understood. */
  lemma TagsUnderstood(tag: byte, s: seq<byte>, bounded: bool, z: Inflater)
    ensures BodyStep(tag, s, bounded, z) == AtTag
       <==> tag !in {0x01, 0x02, 0x03, 0x04, 0x05, 0x06, 0x07, 0x08, 0x09, 0x0a, 0x0b, 0x0c, 0x0d, 0x0e, 0x0f, 0x10, 0x18,
                     0x28, 0x34, 0x35, 0x36, 0x3a, 0x3b, 0x3d, 0x54, 0x5a, 0x5b, 0x5c, 0x5e, 0x5f, 0x62, 0x66, 0x67, 0x68,
                     0x69, 0x6b, 0x6e, 0x6f, 0x70, 0x71, 0x78, 0x7c}
  {
    hide BodyStep;
    Splitting.StepCases(tag, s, bounded, z);
  }

  /** Twelve tags have a big-endian length of two bytes; what follows it is their body, and a
      body that is not all there is malformed. */
  lemma SizedTags(tag: byte, s: seq<byte>, bounded: bool, z: Inflater)
    requires tag in {0x02, 0x03, 0x04, 0x08, 0x10, 0x28, 0x3a, 0x3b, 0x54, 0x5e, 0x5f, 0x66}
    ensures |s| >= 2 ==>
              var n := 0x100 * (s[0] as int) + s[1] as int;
              BodyStep(tag, s, bounded, z) == if 2 + n <= |s| then Take(2, 2 + n) else Short
    ensures |s| < 2 ==> BodyStep(tag, s, bounded, z) == Short
  {
  }

  /** Attribute records take three bytes, two tags two, and one none at all; a record of 0x7c
      states its length in one byte. */
  lemma FixedTags(tag: byte, s: seq<byte>, bounded: bool, z: Inflater)
    ensures tag in {0x0b, 0x0c, 0x0d, 0x0e} ==> BodyStep(tag, s, bounded, z) == if |s| >= 3 then Take(0, 3) else Short
    ensures tag in {0x62, 0x67} ==> BodyStep(tag, s, bounded, z) == if |s| >= 2 then Take(0, 2) else Short
    ensures tag == 0x18 ==> BodyStep(tag, s, bounded, z) == if |s| >= 1 then Take(0, 1) else Short
    ensures tag == 0x05 ==> BodyStep(tag, s, bounded, z) == Take(0, 0)
    ensures tag == 0x7c ==>
              BodyStep(tag, s, bounded, z) == if |s| >= 1 && 1 + s[0] as int <= |s| then Take(1, 1 + s[0] as int) else Short
  {
    hide BodyStep, ReadFields;
    Splitting.StepCases(tag, s, bounded, z);
    RawFields(1, s);
    RawFields(2, s);
    RawFields(3, s);
    NoFields(s);
  }

  lemma RawFields(n: nat, s: seq<byte>)
    ensures ReadFields([KRaw(n)], s).Some? <==> |s| >= n
    ensures |s| >= n ==> ReadFields([KRaw(n)], s).value.1 == n
  {
    var ks := [KRaw(n)];
    assert ks[1..] == [];
    if |s| >= n {
      NoFields(s[n..]);
    }
  }

  lemma NoFields(s: seq<byte>)
    ensures ReadFields([], s) == Some(([], 0))
  {
  }

  datatype Board = Board(id: u16, kind: byte, code: seq<byte>, name: seq<byte>, word: u16, x: byte, text: seq<byte>, y: byte, w: byte)

  function ReadBoard(s: seq<byte>): Option<(Board, seq<byte>)> {
    var (id, s) :- Word(s);
    var (kind, s) :- OneByte(s);
    var (code, s) :- Text(s, 7);
    var (name, s) :- Text(s, 30);
    var (word, s) :- Word(s);
    var (x, s) :- OneByte(s);
    var (text, s) :- Text(s, 8);
    var (y, s) :- OneByte(s);
    var (w, s) :- OneByte(s);
    Some((Board(id, kind, code, name, word, x, text, y, w), s))
  }

  function BoardBytes(b: Board, q: seq<byte>): seq<byte> {
    Be16Bytes(b.id) + ([b.kind] + TextBytes(b.code, TextBytes(b.name, Be16Bytes(b.word)
      + ([b.x] + TextBytes(b.text, [b.y] + ([b.w] + q))))))
  }

  /** A board record written field by field is read back exactly if its texts fit, and the
      splitter takes from any payload what the reading takes. */
  lemma BoardComesBack(b: Board, q: seq<byte>, s: seq<byte>, bounded: bool, z: Inflater)
    ensures ReadBoard(BoardBytes(b, q)) == Some((b, q)) <==> Fits(b.code, 7) && Fits(b.name, 30) && Fits(b.text, 8)
    ensures Left(BodyStep(0x34, s, bounded, z), s) == Rest(ReadBoard(s))
  {
    BoardFields(b, q);
    BoardSkims(s);
    hide BodyStep, ReadFields, ReadBoard;
    var ks := [KWord, KByte, KString(7), KString(30), KWord, KByte, KString(8), KByte, KByte];
    assert Layout(0x34) == Some(ks) && ks[0..] == ks;
    Splitting.StepCases(0x34, s, bounded, z);
    SkimIsRead(ks, 0, s);
  }

  lemma BoardFields(b: Board, q: seq<byte>)
    ensures ReadBoard(BoardBytes(b, q)) == Some((b, q)) <==> Fits(b.code, 7) && Fits(b.name, 30) && Fits(b.text, 8)
  {
    hide Text, Int, OneByte, Word, Wide, TextBytes, Fits, Be16Bytes;
    FieldsComeBack();
  }

  lemma BoardSkims(s: seq<byte>)
    ensures Skim([KWord, KByte, KString(7), KString(30), KWord, KByte, KString(8), KByte, KByte], 0, s) == Rest(ReadBoard(s))
  {
    hide Text, OneByte, Word, Skim;
    SkimSteps([KWord, KByte, KString(7), KString(30), KWord, KByte, KString(8), KByte, KByte]);
  }

  /** A record of 0x69 ends with its first byte 0xff; without one it is reported as unknown, at
      the byte after its tag. */
  lemma UrtExactly(s: seq<byte>, bounded: bool, z: Inflater, i: nat)
    ensures i < |s| && s[i] == 0xff && 0xff !in s[..i] ==> BodyStep(0x69, s, bounded, z) == Take(0, i + 1)
    ensures 0xff !in s ==> BodyStep(0x69, s, bounded, z) == AtBody
  {
    hide BodyStep, SectionLen, ReadFields;
    Splitting.StepCases(0x69, s, bounded, z);
    NoFields(s);
    assert s[0..] == s;
    UrtLength(s, i);
  }

  lemma {:induction false} UrtLength(s: seq<byte>, i: nat)
    ensures i < |s| && s[i] == 0xff && 0xff !in s[..i] ==> SectionLen(UrtUpdate, s) == Some(i + 1)
    ensures 0xff !in s ==> SectionLen(UrtUpdate, s) == None
    decreases |s|
  {
    hide ReadFields;
    if s != [] {
      ByteField(s);
      if s[0] != 0xff {
        UrtLength(s[1..], if i > 0 then i - 1 else 0);
        assert 0 < i < |s| ==> s[..i] == [s[0]] + s[1..][..i - 1];
        assert s == [s[0]] + s[1..];
      }
      assert 0 < i < |s| ==> s[0] == s[..i][0];
    }
  }

  lemma ByteField(s: seq<byte>)
    requires s != []
    ensures ReadFields([KByte], s).Some? && ReadFields([KByte], s).value.1 == 1
  {
    var ks := [KByte];
    assert ks[1..] == [];
    NoFields(s[1..]);
  }
}
