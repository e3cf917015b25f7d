/** The parsers of single records, each with its own reads and checks, against the splitter that
    found the end of the record without them. */
module Parsers {
  import opened Bytes
  import opened Codec
  import opened Payload
  import opened Records
  import Splitting

  // ---- reads that leave the rest ----

  function OneByte(s: seq<byte>): (r: Option<(byte, seq<byte>)>)
    ensures r.Some? ==> |r.value.1| < |s|
  {
    if |s| < 1 then None else Some((s[0], s[1..]))
  }

  function Word(s: seq<byte>): (r: Option<(u16, seq<byte>)>)
    ensures r.Some? ==> |r.value.1| < |s|
  {
    if |s| < 2 then None else Some((Be16(s[..2]), s[2..]))
  }

  function Int(s: seq<byte>): (r: Option<(i32, seq<byte>)>)
    ensures r.Some? ==> |r.value.1| < |s|
  {
    var (v, n) :- ReadInt32(s);
    Some((v, s[n..]))
  }

  function Wide(s: seq<byte>): (r: Option<(i64, seq<byte>)>)
    ensures r.Some? ==> |r.value.1| < |s|
  {
    var (v, n) :- ReadInt64(s);
    Some((v, s[n..]))
  }

  function Text(s: seq<byte>, max: nat): (r: Option<(seq<byte>, seq<byte>)>)
    ensures r.Some? ==> |r.value.1| < |s|
  {
    var (t, n) :- ReadString(s, max);
    Some((t, s[n..]))
  }

  /** A read that succeeds does not look at what follows. */
  lemma Extends(q: seq<byte>)
    ensures forall s {:trigger OneByte(s + q)} :: OneByte(s).Some? ==> OneByte(s + q) == Some((OneByte(s).value.0, OneByte(s).value.1 + q))
    ensures forall s {:trigger Word(s + q)} :: Word(s).Some? ==> Word(s + q) == Some((Word(s).value.0, Word(s).value.1 + q))
    ensures forall s {:trigger Int(s + q)} :: Int(s).Some? ==> Int(s + q) == Some((Int(s).value.0, Int(s).value.1 + q))
    ensures forall s {:trigger Wide(s + q)} :: Wide(s).Some? ==> Wide(s + q) == Some((Wide(s).value.0, Wide(s).value.1 + q))
    ensures forall s, max {:trigger Text(s + q, max)} :: Text(s, max).Some? ==>
              Text(s + q, max) == Some((Text(s, max).value.0, Text(s, max).value.1 + q))
  {
    hide ReadPacked, ReadString;
    forall s, n: nat | n <= |s| ensures (s + q)[n..] == s[n..] + q && SameStart(s, s + q, n) {
      assert (s + q)[..n] == s[..n];
    }
    forall s | Int(s).Some? ensures Int(s + q) == Some((Int(s).value.0, Int(s).value.1 + q)) {
      ReadPackedLocal(s, s + q, false);
    }
    forall s | Wide(s).Some? ensures Wide(s + q) == Some((Wide(s).value.0, Wide(s).value.1 + q)) {
      ReadPackedLocal(s, s + q, true);
    }
    forall s, max | Text(s, max).Some? ensures Text(s + q, max) == Some((Text(s, max).value.0, Text(s, max).value.1 + q)) {
      ReadStringLocal(s, s + q, max);
    }
  }

  // ---- the records ----

  datatype Trade = Trade(secID: u16, board: u16, tradeNo: i64, time: i32, price: i32, volume: i32, period: byte, side: byte,
                         x: i32, y: i32)
  datatype Strike = Strike(code: seq<byte>, cp: byte, price: i32)

  /** A field of a book level is absent when its flag is not set. */
  datatype Level = Level(flags: byte, mark: Option<byte>, int1: Option<i32>, int2: Option<i32>, text: Option<seq<byte>>,
                         int3: Option<i32>)

  datatype Header = Header(id: i32, timestamp: i32, source: seq<byte>, title: seq<byte>, flag: byte)

  datatype Parsed =
    | Message(kind: byte, from: seq<byte>, date: i32, text: seq<byte>)
    | SecRate(secID: u16, value: i64)
    | MktPermit(secID: u16, permit: bool)
    | ServerMessage(typ: byte, status: byte, text: seq<byte>, transaction: i64)
    | Overnight(on: bool)
    | News(header: Header)
    | TradeDate(date: i32)
    | TickList(trades: seq<Trade>)
    | AmBookRecord(secID: u16, levels: seq<Level>)
    | Union(id: i64, name: seq<byte>, category: seq<byte>, unicat: byte)
    | FortsSession(session: i32)
    | EdpRate(pair: seq<byte>, name: seq<byte>, flag: byte, rate: i32)
    | Family(secID: u16, code: seq<byte>, first: i32, second: i32)
    | EndOfFamilies(secID: u16, text: seq<byte>)
    | EndOfFamily(secID: u16, code: seq<byte>, status32: i32, text: seq<byte>)
    | StrikeList(secID: u16, family: i32, items: seq<Strike>, final: byte)

  /** A record and the bytes left after it. */
  type Reading = Option<(Parsed, seq<byte>)>

  function ReadMessage(s: seq<byte>): Reading {
    var (kind, s) :- OneByte(s);
    var (from, s) :- Text(s, 20);
    var (date, s) :- Int(s);
    var (text, s) :- Text(s, 1024);
    Some((Message(kind, from, date, text), s))
  }

  function ReadSecRate(s: seq<byte>): Reading {
    var (secID, s) :- Word(s);
    var (value, s) :- Wide(s);
    Some((SecRate(secID, value), s))
  }

  function ReadMktPermit(s: seq<byte>): Reading {
    var (secID, s) :- Word(s);
    var (value, s) :- OneByte(s);
    Some((MktPermit(secID, value != 0), s))
  }

  /** Other types, and status 4, have a tail that is not understood. */
  function ReadServerMessage(s: seq<byte>): Reading {
    var (typ, s) :- OneByte(s);
    var (status, s) :- OneByte(s);
    var (text, s) :- Text(s, 512);
    var (transaction, s) :- Wide(s);
    if (typ != 1 && typ != 2) || status == 4 then None
    else Some((ServerMessage(typ, status, text, transaction), s))
  }

  function ReadOvernight(s: seq<byte>): Reading {
    var (flag, s) :- OneByte(s);
    Some((Overnight(flag != 0), s))
  }

  function ReadHeader(s: seq<byte>): Option<(Header, seq<byte>)> {
    var (id, s) :- Int(s);
    var (timestamp, s) :- Int(s);
    var (source, s) :- Text(s, 16);
    var (title, s) :- Text(s, 128);
    var (flag, s) :- OneByte(s);
    Some((Header(id, timestamp, source, title, flag), s))
  }

  function ReadNews(s: seq<byte>): Reading {
    var (header, s) :- ReadHeader(s);
    Some((News(header), s))
  }

  function ReadTradeDate(s: seq<byte>): Reading {
    var (date, s) :- Int(s);
    Some((TradeDate(date), s))
  }

  function ReadUnion(s: seq<byte>): Reading {
    var (id, s) :- Wide(s);
    var (name, s) :- Text(s, 20);
    var (category, s) :- Text(s, 32);
    var (unicat, s) :- OneByte(s);
    Some((Union(id, name, category, unicat), s))
  }

  function ReadFortsSession(s: seq<byte>): Reading {
    var (session, s) :- Int(s);
    Some((FortsSession(session), s))
  }

  function ReadEdpRate(s: seq<byte>): Reading {
    var (pair, s) :- Text(s, 4);
    var (name, s) :- Text(s, 25);
    var (flag, s) :- OneByte(s);
    var (rate, s) :- Int(s);
    Some((EdpRate(pair, name, flag, rate), s))
  }

  function ReadFamily(s: seq<byte>): Reading {
    var (secID, s) :- Word(s);
    var (code, s) :- Text(s, 6);
    var (first, s) :- Int(s);
    var (second, s) :- Int(s);
    Some((Family(secID, code, first, second), s))
  }

  function ReadEndOfFamilies(s: seq<byte>): Reading {
    var (secID, s) :- Word(s);
    var (text, s) :- Text(s, 512);
    Some((EndOfFamilies(secID, text), s))
  }

  function ReadEndOfFamily(s: seq<byte>): Reading {
    var (secID, s) :- Word(s);
    var (code, s) :- Text(s, 6);
    var (status, s) :- Int(s);
    var (text, s) :- Text(s, 512);
    Some((EndOfFamily(secID, code, status, text), s))
  }

  /** The fields of a trade after its secid. */
  function ReadTrade(secID: u16, s: seq<byte>): (r: Option<(Trade, seq<byte>)>)
    ensures r.Some? ==> |r.value.1| < |s|
  {
    var (board, s) :- Word(s);
    var (tradeNo, s) :- Wide(s);
    var (time, s) :- Int(s);
    var (price, s) :- Int(s);
    var (volume, s) :- Int(s);
    var (period, s) :- OneByte(s);
    var (side, s) :- OneByte(s);
    var (x, s) :- Int(s);
    var (y, s) :- Int(s);
    Some((Trade(secID, board, tradeNo, time, price, volume, period, side, x, y), s))
  }

  /** Trades up to the secid 0xffff. */
  function ReadTrades(s: seq<byte>): Option<(seq<Trade>, seq<byte>)>
    decreases |s|
  {
    var (secID, t) :- Word(s);
    if secID == 0xffff then Some(([], t))
    else
      var (trade, t) :- ReadTrade(secID, t);
      var (more, t) :- ReadTrades(t);
      Some(([trade] + more, t))
  }

  function ReadTickList(s: seq<byte>): Reading {
    var (trades, s) :- ReadTrades(s);
    Some((TickList(trades), s))
  }

  function Optional<T>(present: bool, r: Option<(T, seq<byte>)>, s: seq<byte>): Option<(Option<T>, seq<byte>)> {
    if present then
      var (v, t) :- r;
      Some((Some(v), t))
    else Some((None, s))
  }

  /** The fields of a level that its flags announce. */
  function ReadLevel(flags: byte, s: seq<byte>): (r: Option<(Level, seq<byte>)>)
    ensures r.Some? ==> |r.value.1| <= |s|
  {
    var (mark, s) :- Optional(flags % 2 == 1, OneByte(s), s);
    var (int1, s) :- Optional(flags / 2 % 2 == 1, Int(s), s);
    var (int2, s) :- Optional(flags / 4 % 2 == 1, Int(s), s);
    var (text, s) :- Optional(flags / 8 % 2 == 1, Text(s, 4), s);
    var (int3, s) :- Optional(flags / 16 % 2 == 1, Int(s), s);
    Some((Level(flags, mark, int1, int2, text, int3), s))
  }

  function ReadLevels(s: seq<byte>): Option<(seq<Level>, seq<byte>)>
    decreases |s|
  {
    var (flags, t) :- OneByte(s);
    if flags == 0xff then Some(([], t))
    else if flags >= 0x20 then None
    else
      var (level, t) :- ReadLevel(flags, t);
      var (more, t) :- ReadLevels(t);
      Some(([level] + more, t))
  }

  function ReadAmBook(s: seq<byte>): Reading {
    var (secID, s) :- Word(s);
    var (levels, s) :- ReadLevels(s);
    Some((AmBookRecord(secID, levels), s))
  }

  /** Strikes up to the empty code. */
  function ReadItems(s: seq<byte>): Option<(seq<Strike>, seq<byte>)>
    decreases |s|
  {
    var (code, t) :- Text(s, 26);
    if code == [] then Some(([], t))
    else
      var (cp, t) :- OneByte(t);
      var (price, t) :- Int(t);
      var (more, t) :- ReadItems(t);
      Some(([Strike(code, cp, price)] + more, t))
  }

  function ReadStrikeList(s: seq<byte>): Reading {
    var (secID, s) :- Word(s);
    var (family, s) :- Int(s);
    var (items, s) :- ReadItems(s);
    var (final, s) :- OneByte(s);
    Some((StrikeList(secID, family, items, final), s))
  }

  /** The records with one parser, R_QUOTES aside. */
  predicate Parsable(tag: byte) {
    tag in {0x01, 0x0a, 0x0e, 0x0f, 0x18, 0x35, 0x3d, 0x5a, 0x5c, 0x68, 0x6b, 0x6e, 0x6f, 0x70, 0x71, 0x78}
  }

  function ReadRecord(tag: byte, s: seq<byte>): Reading
    requires Parsable(tag)
  {
    match tag
    case 0x01 => ReadMessage(s)
    case 0x0a => ReadSecRate(s)
    case 0x0e => ReadMktPermit(s)
    case 0x0f => ReadServerMessage(s)
    case 0x18 => ReadOvernight(s)
    case 0x35 => ReadNews(s)
    case 0x3d => ReadTradeDate(s)
    case 0x5a => ReadTickList(s)
    case 0x5c => ReadAmBook(s)
    case 0x68 => ReadUnion(s)
    case 0x6b => ReadFortsSession(s)
    case 0x6e => ReadEdpRate(s)
    case 0x6f => ReadFamily(s)
    case 0x70 => ReadEndOfFamilies(s)
    case 0x71 => ReadEndOfFamily(s)
    case _ => ReadStrikeList(s)
  }

  // ---- the bytes the splitter walks over ----

  function Rest<T>(o: Option<(T, seq<byte>)>): Option<seq<byte>> {
    var (_, s) :- o;
    Some(s)
  }

  function Value<T>(o: Option<(T, seq<byte>)>): Option<T> {
    var (v, _) :- o;
    Some(v)
  }

  function SkipOne(k: Kind, s: seq<byte>): Option<seq<byte>> {
    match k
    case KByte => Rest(OneByte(s))
    case KWord => Rest(Word(s))
    case KRaw(n) => if |s| < n then None else Some(s[n..])
    case KString(max) => Rest(Text(s, max))
    case KInt32 => Rest(Int(s))
    case KInt64 => Rest(Wide(s))
  }

  /** What is left after the fields ks[i..]. */
  function Skim(ks: seq<Kind>, i: nat, s: seq<byte>): Option<seq<byte>>
    requires i <= |ks|
    decreases |ks| - i
  {
    if i == |ks| then Some(s)
    else
      var s :- SkipOne(ks[i], s);
      Skim(ks, i + 1, s)
  }

  function After<T>(o: Option<(T, nat)>, s: seq<byte>): Option<seq<byte>>
    requires o.Some? ==> o.value.1 <= |s|
  {
    var (_, n) :- o;
    Some(s[n..])
  }

  lemma SkipIsField(k: Kind, s: seq<byte>)
    ensures SkipOne(k, s) == After(ReadField(k, s), s)
  {
    hide ReadString, ReadPacked, ReadInt32;
  }

  lemma {:induction false} SkimIsRead(ks: seq<Kind>, i: nat, s: seq<byte>)
    requires i <= |ks|
    ensures Skim(ks, i, s) == After(ReadFields(ks[i..], s), s)
    decreases |ks| - i
  {
    hide ReadField, SkipOne;
    if i < |ks| {
      SkipIsField(ks[i], s);
      assert ks[i..][0] == ks[i] && ks[i..][1..] == ks[i + 1..];
      if ReadField(ks[i], s).Some? {
        var n := ReadField(ks[i], s).value.1;
        SkimIsRead(ks, i + 1, s[n..]);
        SliceTwice(s, n);
      }
    }
  }

  lemma SliceTwice(s: seq<byte>, n: nat)
    requires n <= |s|
    ensures forall m: nat :: m <= |s| - n ==> s[n..][m..] == s[n + m..]
  {
  }

  lemma SkimSteps(ks: seq<Kind>)
    ensures forall i: nat, s: seq<byte> {:trigger Skim(ks, i, s)} :: i <= |ks| ==>
              Skim(ks, i, s) == if i == |ks| then Some(s)
                                else match SkipOne(ks[i], s) case None => None case Some(t) => Skim(ks, i + 1, t)
  {
  }

  lemma MessageSkims(s: seq<byte>)
    ensures Skim([KByte, KString(20), KInt32, KString(1024)], 0, s) == Rest(ReadMessage(s))
  {
    hide Wide, Text, Int, Word, OneByte, Skim;
    SkimSteps([KByte, KString(20), KInt32, KString(1024)]);
  }

  lemma SecRateSkims(s: seq<byte>)
    ensures Skim([KWord, KInt64], 0, s) == Rest(ReadSecRate(s))
  {
    hide Wide, Text, Int, Word, OneByte, Skim;
    SkimSteps([KWord, KInt64]);
  }

  lemma NewsSkims(s: seq<byte>)
    ensures Skim(NEWS_HEADER, 0, s) == Rest(ReadNews(s))
  {
    hide Wide, Text, Int, Word, OneByte, Skim;
    SkimSteps(NEWS_HEADER);
  }

  lemma TradeDateSkims(s: seq<byte>)
    ensures Skim([KInt32], 0, s) == Rest(ReadTradeDate(s))
  {
    hide Wide, Text, Int, Word, OneByte, Skim;
    SkimSteps([KInt32]);
  }

  lemma UnionSkims(s: seq<byte>)
    ensures Skim([KInt64, KString(20), KString(32), KByte], 0, s) == Rest(ReadUnion(s))
  {
    hide Wide, Text, Int, Word, OneByte, Skim;
    SkimSteps([KInt64, KString(20), KString(32), KByte]);
  }

  lemma EdpRateSkims(s: seq<byte>)
    ensures Skim([KString(4), KString(25), KByte, KInt32], 0, s) == Rest(ReadEdpRate(s))
  {
    hide Wide, Text, Int, Word, OneByte, Skim;
    SkimSteps([KString(4), KString(25), KByte, KInt32]);
  }

  lemma FamilySkims(s: seq<byte>)
    ensures Skim([KWord, KString(6), KInt32, KInt32], 0, s) == Rest(ReadFamily(s))
  {
    hide Wide, Text, Int, Word, OneByte, Skim;
    SkimSteps([KWord, KString(6), KInt32, KInt32]);
  }

  lemma EndOfFamiliesSkims(s: seq<byte>)
    ensures Skim([KWord, KString(512)], 0, s) == Rest(ReadEndOfFamilies(s))
  {
    hide Wide, Text, Int, Word, OneByte, Skim;
    SkimSteps([KWord, KString(512)]);
  }

  lemma EndOfFamilySkims(s: seq<byte>)
    ensures Skim([KWord, KString(6), KInt32, KString(512)], 0, s) == Rest(ReadEndOfFamily(s))
  {
    hide Wide, Text, Int, Word, OneByte, Skim;
    SkimSteps([KWord, KString(6), KInt32, KString(512)]);
  }

  lemma FieldsSkim(tag: byte, s: seq<byte>)
    requires tag in {0x01, 0x0a, 0x35, 0x3d, 0x68, 0x6e, 0x6f, 0x70, 0x71}
    ensures Layout(tag).Some? && Skim(Layout(tag).value, 0, s) == Rest(ReadRecord(tag, s))
  {
    hide Skim, Rest, ReadMessage, ReadSecRate, ReadNews, ReadTradeDate, ReadUnion, ReadEdpRate, ReadFamily, ReadEndOfFamilies,
      ReadEndOfFamily;
    match tag
    case 0x01 => MessageSkims(s);
    case 0x0a => SecRateSkims(s);
    case 0x35 => NewsSkims(s);
    case 0x3d => TradeDateSkims(s);
    case 0x68 => UnionSkims(s);
    case 0x6e => EdpRateSkims(s);
    case 0x6f => FamilySkims(s);
    case 0x70 => EndOfFamiliesSkims(s);
    case _ => EndOfFamilySkims(s);
  }

  /** What a step leaves of the bytes after the tag. */
  function Left(t: Step, s: seq<byte>): Option<seq<byte>> {
    if t.Take? && t.end <= |s| then Some(s[t.end..]) else None
  }

  lemma LayoutLeft(tag: byte, s: seq<byte>)
    requires Parsable(tag) && Layout(tag).Some?
    ensures Left(FieldsStep(Layout(tag).value, s), s) == Rest(ReadRecord(tag, s))
  {
    hide Layout, Skim, ReadFields, ReadRecord;
    LayoutTags(tag);
    var ks := Layout(tag).value;
    SkimIsRead(ks, 0, s);
    assert ks[0..] == ks;
    if tag == 0x0e || tag == 0x18 {
      RawLeft(tag, s);
    } else {
      FieldsSkim(tag, s);
    }
  }

  lemma LayoutTags(tag: byte)
    requires Parsable(tag) && Layout(tag).Some?
    ensures tag in {0x01, 0x0a, 0x35, 0x3d, 0x68, 0x6e, 0x6f, 0x70, 0x71, 0x0e, 0x18}
  {
  }

  /** The splitter takes these records as raw bytes. */
  lemma RawLeft(tag: byte, s: seq<byte>)
    requires tag in {0x0e, 0x18}
    ensures Layout(tag).Some? && Left(FieldsStep(Layout(tag).value, s), s) == Rest(ReadRecord(tag, s))
  {
    hide Skim, ReadFields;
    var ks := if tag == 0x0e then [KRaw(3)] else [KRaw(1)];
    assert Layout(tag) == Some(ks);
    SkimSteps(ks);
    SkimIsRead(ks, 0, s);
    assert ks[0..] == ks;
    assert |s| >= 3 ==> s[2..][1..] == s[3..];
  }

  lemma ServerMessageLeft(s: seq<byte>)
    ensures Left(ServerMessageStep(s), s) == Rest(ReadServerMessage(s))
  {
    hide Wide, Text, Skim, ReadFields;
    SkimSteps(SERVER_MESSAGE);
    SkimIsRead(SERVER_MESSAGE, 0, s);
    assert SERVER_MESSAGE[0..] == SERVER_MESSAGE;
    assert |s| >= 2 ==> s[1..][0] == s[1];
  }

  lemma FortsLeft(s: seq<byte>)
    ensures Left(FortsSessionStep(s, false), s) == Rest(ReadFortsSession(s))
  {
    hide ReadInt32;
  }

  // ---- repeated fields ----

  function SectionLeft(x: Section, s: seq<byte>): Option<seq<byte>> {
    match SectionLen(x, s) case None => None case Some(n) => Some(s[n..])
  }

  function TurnLeft(x: Section, turn: Turn, s: seq<byte>): Option<seq<byte>> {
    match turn
    case Bad => None
    case Last(ks) => Skim(ks, 0, s)
    case More(ks) =>
      var t :- Skim(ks, 0, s);
      SectionLeft(x, t)
  }

  lemma SectionTurn(x: Section, s: seq<byte>)
    ensures SectionLeft(x, s) == TurnLeft(x, NextTurn(x, s), s)
  {
    hide NextTurn, ReadFields, Skim;
    var turn := NextTurn(x, s);
    if !turn.Bad? {
      SkimIsRead(turn.ks, 0, s);
      assert turn.ks[0..] == turn.ks;
      if ReadFields(turn.ks, s).Some? {
        var n := ReadFields(turn.ks, s).value.1;
        assert Skim(turn.ks, 0, s) == Some(s[n..]);
        if turn.More? {
          TurnAdvances(x, s);
          SliceTwice(s, n);
          assert SectionLen(x, s) == match SectionLen(x, s[n..]) case None => None case Some(m) => Some(n + m);
        } else {
          assert SectionLen(x, s) == Some(n);
        }
      }
    }
  }

  lemma {:induction false} TradesLeft(s: seq<byte>)
    ensures SectionLeft(Ticks, s) == Rest(ReadTrades(s))
    decreases |s|
  {
    hide Wide, Int, OneByte, Skim, SectionLeft;
    SectionTurn(Ticks, s);
    SkimSteps([KWord]);
    SkimSteps(TICK_KINDS);
    if Word(s).Some? && ReadTrade(Word(s).value.0, Word(s).value.1).Some? {
      TradesLeft(ReadTrade(Word(s).value.0, Word(s).value.1).value.1);
    }
  }

  function ItemsEnd(items: Option<(seq<Strike>, seq<byte>)>): Option<seq<byte>> {
    var (_, t) :- items;
    Rest(OneByte(t))
  }

  lemma {:induction false} ItemsLeft(s: seq<byte>)
    ensures SectionLeft(Strikes, s) == ItemsEnd(ReadItems(s))
    decreases |s|
  {
    hide Int, OneByte, Skim, SectionLeft, ReadString;
    SectionTurn(Strikes, s);
    SkimSteps([KString(26), KByte]);
    SkimSteps([KString(26), KByte, KInt32]);
    var code := Text(s, 26);
    if code.Some? && OneByte(code.value.1).Some? && Int(OneByte(code.value.1).value.1).Some? {
      ItemsLeft(Int(OneByte(code.value.1).value.1).value.1);
    }
  }

  lemma {:induction false} SkimConcat(a: seq<Kind>, b: seq<Kind>, i: nat, s: seq<byte>)
    requires i <= |a|
    ensures Skim(a + b, i, s) == match Skim(a, i, s) case None => None case Some(t) => Skim(b, 0, t)
    decreases |a| - i
  {
    hide SkipOne;
    if i == |a| {
      SkimSuffix(a, b, 0, s);
    } else if SkipOne(a[i], s).Some? {
      SkimConcat(a, b, i + 1, SkipOne(a[i], s).value);
    }
  }

  lemma {:induction false} SkimSuffix(a: seq<Kind>, b: seq<Kind>, j: nat, s: seq<byte>)
    requires j <= |b|
    ensures Skim(a + b, |a| + j, s) == Skim(b, j, s)
    decreases |b| - j
  {
    hide SkipOne;
    if j < |b| && SkipOne(b[j], s).Some? {
      SkimSuffix(a, b, j + 1, SkipOne(b[j], s).value);
    }
  }

  function OptionalKind(present: bool, k: Kind): seq<Kind> { if present then [k] else [] }

  lemma OptionalSkims(present: bool, k: Kind, more: seq<Kind>, s: seq<byte>) returns (t: Option<seq<byte>>)
    ensures k == KByte ==> t == Rest(Optional(present, OneByte(s), s))
    ensures k == KInt32 ==> t == Rest(Optional(present, Int(s), s))
    ensures k == KString(4) ==> t == Rest(Optional(present, Text(s, 4), s))
    ensures Skim(OptionalKind(present, k) + more, 0, s) == match t case None => None case Some(u) => Skim(more, 0, u)
  {
    hide OneByte, Int, Text;
    t := if present then SkipOne(k, s) else Some(s);
    SkimConcat(OptionalKind(present, k), more, 0, s);
  }

  lemma LevelSkims(flags: byte, s: seq<byte>)
    ensures Skim(AmBookKinds(flags)[1..], 0, s) == Rest(ReadLevel(flags, s))
  {
    hide Text, Int, OneByte, Skim, SkipOne, AmBookKinds, OptionalKind, Optional;
    var k1, k2 := OptionalKind(flags % 2 == 1, KByte), OptionalKind(flags / 2 % 2 == 1, KInt32);
    var k3, k4 := OptionalKind(flags / 4 % 2 == 1, KInt32), OptionalKind(flags / 8 % 2 == 1, KString(4));
    var k5 := OptionalKind(flags / 16 % 2 == 1, KInt32);
    var r5 := k5 + [];
    var r4 := k4 + r5;
    var r3 := k3 + r4;
    var r2 := k2 + r3;
    LevelTail(flags, k1, k2, k3, k4, k5);
    assert r5 == k5;
    var t1 := OptionalSkims(flags % 2 == 1, KByte, r2, s);
    if t1 == None { return; }
    var t2 := OptionalSkims(flags / 2 % 2 == 1, KInt32, r3, t1.value);
    if t2 == None { return; }
    var t3 := OptionalSkims(flags / 4 % 2 == 1, KInt32, r4, t2.value);
    if t3 == None { return; }
    var t4 := OptionalSkims(flags / 8 % 2 == 1, KString(4), r5, t3.value);
    if t4 == None { return; }
    var t5 := OptionalSkims(flags / 16 % 2 == 1, KInt32, [], t4.value);
    SkimSteps([]);
  }

  lemma LevelTail(flags: byte, k1: seq<Kind>, k2: seq<Kind>, k3: seq<Kind>, k4: seq<Kind>, k5: seq<Kind>)
    requires k1 == OptionalKind(flags % 2 == 1, KByte) && k2 == OptionalKind(flags / 2 % 2 == 1, KInt32)
    requires k3 == OptionalKind(flags / 4 % 2 == 1, KInt32) && k4 == OptionalKind(flags / 8 % 2 == 1, KString(4))
    requires k5 == OptionalKind(flags / 16 % 2 == 1, KInt32)
    ensures AmBookKinds(flags)[1..] == k1 + (k2 + (k3 + (k4 + k5)))
  {
    assert AmBookKinds(flags) == [KByte] + k1 + k2 + k3 + k4 + k5;
  }

  lemma {:induction false} LevelsLeft(s: seq<byte>)
    ensures SectionLeft(AmBook, s) == Rest(ReadLevels(s))
    decreases |s|
  {
    hide Skim, SectionLeft, ReadLevel, AmBookKinds;
    SectionTurn(AmBook, s);
    SkimSteps([KByte]);
    if OneByte(s).Some? && s[0] < 0x20 {
      var ks := AmBookKinds(s[0]);
      LevelSkims(s[0], s[1..]);
      LevelKinds(s[0]);
      SkimConcat([KByte], ks[1..], 0, s);
      assert [KByte] + ks[1..] == ks;
      if ReadLevel(s[0], s[1..]).Some? {
        LevelsLeft(ReadLevel(s[0], s[1..]).value.1);
      }
    }
  }

  lemma LevelKinds(flags: byte)
    ensures AmBookKinds(flags) != [] && AmBookKinds(flags)[0] == KByte
  {
  }

  function HeadLeft(ks: seq<Kind>, x: Section, s: seq<byte>): Option<seq<byte>> {
    var t :- Skim(ks, 0, s);
    SectionLeft(x, t)
  }

  lemma SectionStepLeft(ks: seq<Kind>, x: Section, s: seq<byte>)
    ensures Left(SectionStep(ks, x, s), s) == HeadLeft(ks, x, s)
  {
    hide ReadFields, SectionLen, Skim;
    SkimIsRead(ks, 0, s);
    assert ks[0..] == ks;
    if ReadFields(ks, s).Some? {
      SliceTwice(s, ReadFields(ks, s).value.1);
    }
  }

  lemma SectionRecordLeft(tag: byte, s: seq<byte>)
    requires tag in {0x5a, 0x5c, 0x78}
    ensures SectionOf(tag).Some?
    ensures Left(SectionStep(SectionOf(tag).value.0, SectionOf(tag).value.1, s), s) == Rest(ReadRecord(tag, s))
  {
    hide Skim, SectionLeft, ReadTrades, ReadItems, ReadLevels, SectionStep, Word, Int, OneByte;
    var (ks, x) := SectionOf(tag).value;
    SectionStepLeft(ks, x, s);
    SkimSteps(ks);
    match tag
    case 0x5a => TradesLeft(s);
    case 0x5c =>
      if Word(s).Some? {
        LevelsLeft(Word(s).value.1);
      }
    case _ =>
      if Word(s).Some? && Int(Word(s).value.1).Some? {
        ItemsLeft(Int(Word(s).value.1).value.1);
      }
  }

  /** The splitter and the record's own parser accept the same bytes and stop at the same place. */
  lemma StepIsParse(tag: byte, s: seq<byte>, z: Inflater)
    requires Parsable(tag)
    ensures Left(BodyStep(tag, s, false, z), s) == Rest(ReadRecord(tag, s))
    ensures BodyStep(tag, s, false, z).Take? ==> BodyStep(tag, s, false, z).from == 0
  {
    hide BodyStep, Layout, ReadRecord, FieldsStep, SectionStep, ServerMessageStep, FortsSessionStep;
    Splitting.StepCases(tag, s, false, z);
    ParsableTags(tag);
    StepsFromZero(s, tag);
    if tag == 0x0f {
      ServerMessageLeft(s);
      ParserOf(tag, s);
    } else if tag == 0x6b {
      FortsLeft(s);
      ParserOf(tag, s);
    } else if Layout(tag).Some? {
      LayoutLeft(tag, s);
    } else {
      SectionRecordLeft(tag, s);
    }
  }

  lemma ParsableTags(tag: byte)
    requires Parsable(tag)
    ensures Layout(tag).Some? || tag in {0x0f, 0x6b, 0x5a, 0x5c, 0x78}
    ensures tag in {0x0f, 0x6b, 0x5a, 0x5c, 0x78} ==> Layout(tag) == None
  {
  }

  lemma ParserOf(tag: byte, s: seq<byte>)
    requires tag in {0x0f, 0x6b}
    ensures ReadRecord(tag, s) == if tag == 0x0f then ReadServerMessage(s) else ReadFortsSession(s)
  {
  }

  lemma StepsFromZero(s: seq<byte>, tag: byte)
    ensures ServerMessageStep(s).Take? ==> ServerMessageStep(s).from == 0
    ensures FortsSessionStep(s, false).Take? ==> FortsSessionStep(s, false).from == 0
    ensures forall ks :: FieldsStep(ks, s).Take? ==> FieldsStep(ks, s).from == 0
    ensures forall ks, x :: SectionStep(ks, x, s).Take? ==> SectionStep(ks, x, s).from == 0
  {
    hide ReadFields, SectionLen, ReadInt32;
  }

  // ---- a body read alone and in its payload ----

  lemma {:induction false} TradesExtend(s: seq<byte>, q: seq<byte>)
    requires ReadTrades(s).Some?
    ensures ReadTrades(s + q) == Some((ReadTrades(s).value.0, ReadTrades(s).value.1 + q))
    decreases |s|
  {
    hide Wide, Int, Word, OneByte;
    Extends(q);
    if Word(s).value.0 != 0xffff {
      TradesExtend(ReadTrade(Word(s).value.0, Word(s).value.1).value.1, q);
    }
  }

  lemma {:induction false} ItemsExtend(s: seq<byte>, q: seq<byte>)
    requires ReadItems(s).Some?
    ensures ReadItems(s + q) == Some((ReadItems(s).value.0, ReadItems(s).value.1 + q))
    decreases |s|
  {
    hide Int, Text, OneByte;
    Extends(q);
    if Text(s, 26).value.0 != [] {
      ItemsExtend(Int(OneByte(Text(s, 26).value.1).value.1).value.1, q);
    }
  }

  lemma OptionalExtends(q: seq<byte>)
    ensures forall p, s {:trigger Optional(p, OneByte(s + q), s + q)} :: Optional(p, OneByte(s), s).Some? ==>
              Optional(p, OneByte(s + q), s + q) == Some((Optional(p, OneByte(s), s).value.0, Optional(p, OneByte(s), s).value.1 + q))
    ensures forall p, s {:trigger Optional(p, Int(s + q), s + q)} :: Optional(p, Int(s), s).Some? ==>
              Optional(p, Int(s + q), s + q) == Some((Optional(p, Int(s), s).value.0, Optional(p, Int(s), s).value.1 + q))
    ensures forall p, s {:trigger Optional(p, Text(s + q, 4), s + q)} :: Optional(p, Text(s, 4), s).Some? ==>
              Optional(p, Text(s + q, 4), s + q) == Some((Optional(p, Text(s, 4), s).value.0, Optional(p, Text(s, 4), s).value.1 + q))
  {
    hide Int, Text, OneByte;
    Extends(q);
  }

  lemma LevelExtends(flags: byte, s: seq<byte>, q: seq<byte>)
    requires ReadLevel(flags, s).Some?
    ensures ReadLevel(flags, s + q) == Some((ReadLevel(flags, s).value.0, ReadLevel(flags, s).value.1 + q))
  {
    hide Int, Text, OneByte, Optional;
    OptionalExtends(q);
  }

  lemma {:induction false} LevelsExtend(s: seq<byte>, q: seq<byte>)
    requires ReadLevels(s).Some?
    ensures ReadLevels(s + q) == Some((ReadLevels(s).value.0, ReadLevels(s).value.1 + q))
    decreases |s|
  {
    hide OneByte, ReadLevel;
    Extends(q);
    var (flags, t) := OneByte(s).value;
    if flags != 0xff {
      LevelExtends(flags, t, q);
      LevelsExtend(ReadLevel(flags, t).value.1, q);
    }
  }

  lemma ListExtends(tag: byte, s: seq<byte>, q: seq<byte>)
    requires tag in {0x5a, 0x5c, 0x78} && ReadRecord(tag, s).Some?
    ensures ReadRecord(tag, s + q) == Some((ReadRecord(tag, s).value.0, ReadRecord(tag, s).value.1 + q))
  {
    hide Int, Word, OneByte, ReadTrades, ReadItems, ReadLevels;
    Extends(q);
    match tag
    case 0x5a => TradesExtend(s, q);
    case 0x5c => LevelsExtend(Word(s).value.1, q);
    case _ => ItemsExtend(Int(Word(s).value.1).value.1, q);
  }

  lemma FieldsExtend(tag: byte, s: seq<byte>, q: seq<byte>)
    requires tag in {0x01, 0x0a, 0x0e, 0x0f, 0x18, 0x35, 0x3d} && ReadRecord(tag, s).Some?
    ensures ReadRecord(tag, s + q) == Some((ReadRecord(tag, s).value.0, ReadRecord(tag, s).value.1 + q))
  {
    hide Wide, Text, Int, Word, OneByte;
    Extends(q);
  }

  lemma MoreFieldsExtend(tag: byte, s: seq<byte>, q: seq<byte>)
    requires tag in {0x68, 0x6b, 0x6e, 0x6f, 0x70, 0x71} && ReadRecord(tag, s).Some?
    ensures ReadRecord(tag, s + q) == Some((ReadRecord(tag, s).value.0, ReadRecord(tag, s).value.1 + q))
  {
    hide Wide, Text, Int, Word, OneByte;
    Extends(q);
  }

  lemma ReadExtends(tag: byte, s: seq<byte>, q: seq<byte>)
    requires Parsable(tag) && ReadRecord(tag, s).Some?
    ensures ReadRecord(tag, s + q) == Some((ReadRecord(tag, s).value.0, ReadRecord(tag, s).value.1 + q))
  {
    hide ReadRecord;
    if tag in {0x5a, 0x5c, 0x78} {
      ListExtends(tag, s, q);
    } else if tag in {0x68, 0x6b, 0x6e, 0x6f, 0x70, 0x71} {
      MoreFieldsExtend(tag, s, q);
    } else {
      FieldsExtend(tag, s, q);
    }
  }

  /** A body is what the splitter takes from the bytes that start with it exactly when the
      record's own parser reads it to its end; and what the parser finds in the body alone is
      what it would find in the payload. */
  lemma SplitterAndParserAgree(tag: byte, body: seq<byte>, q: seq<byte>, z: Inflater)
    requires Parsable(tag) && Splitting.ZlibLike(z)
    ensures BodyStep(tag, body + q, false, z) == Take(0, |body|)
            <==> ReadRecord(tag, body).Some? && ReadRecord(tag, body).value.1 == []
    ensures ReadRecord(tag, body).Some? ==>
              ReadRecord(tag, body + q) == Some((ReadRecord(tag, body).value.0, ReadRecord(tag, body).value.1 + q))
  {
    hide BodyStep, ReadRecord, Parsable;
    ParsableTag(tag);
    StepIsParse(tag, body + q, z);
    StepIsParse(tag, body, z);
    assert SameStart(body + q, body, |body|) by {
      assert (body + q)[..|body|] == body;
    }
    if ReadRecord(tag, body).Some? {
      ReadExtends(tag, body, q);
      Ends(body, q, ReadRecord(tag, body).value.1, BodyStep(tag, body + q, false, z));
    }
    if BodyStep(tag, body + q, false, z) == Take(0, |body|) {
      Splitting.StepLocal(tag, body + q, body, z);
    }
  }

  lemma ParsableTag(tag: byte)
    requires Parsable(tag)
    ensures tag != TAG_CANDLES
  {
  }

  lemma Ends(body: seq<byte>, q: seq<byte>, t: seq<byte>, step: Step)
    requires Left(step, body + q) == Some(t + q) && step.from == 0 && step.end <= |body + q|
    ensures step == Take(0, |body|) <==> t == []
  {
    assert |(body + q)[step.end..]| == |t| + |q|;
  }

  /** The parsers that insist on the end of the body. */
  predicate Strict(tag: byte) {
    tag in {0x01, 0x0a, 0x0e, 0x0f, 0x35, 0x5a, 0x6f, 0x70, 0x71, 0x78}
  }

  function Parse(tag: byte, body: seq<byte>): Option<Parsed>
    requires Parsable(tag)
  {
    var (p, t) :- ReadRecord(tag, body);
    if Strict(tag) && t != [] then None else Some(p)
  }

  /** Every body that the splitter emits is accepted whole by its parser. */
  lemma EmittedBodyParsed(tag: byte, body: seq<byte>, q: seq<byte>, z: Inflater)
    requires Parsable(tag) && Splitting.ZlibLike(z) && BodyStep(tag, body + q, false, z) == Take(0, |body|)
    ensures Parse(tag, body).Some? && ReadRecord(tag, body) == Some((Parse(tag, body).value, []))
  {
    hide BodyStep, ReadRecord, Strict, Parsable;
    SplitterAndParserAgree(tag, body, q, z);
  }

  // ---- R_NEWS_UPLOAD ----

  datatype Upload = Upload(flags: byte, header: Option<Header>, newsID: Option<i32>, package: Option<seq<byte>>)

  /** A header comes with a package of stated size; without one the package follows an
      identifier and four more bytes, and ends where its compressed stream does. */
  function ReadUpload(s: seq<byte>, z: Inflater): Option<(Upload, seq<byte>)> {
    var (flags, s) :- OneByte(s);
    if flags % 2 == 1 then
      var (header, s) :- ReadHeader(s);
      ReadPackage(flags, Some(header), s, z)
    else ReadPackage(flags, None, s, z)
  }

  function ReadPackage(flags: byte, header: Option<Header>, s: seq<byte>, z: Inflater): Option<(Upload, seq<byte>)> {
    if flags / 2 % 2 == 0 then Some((Upload(flags, header, None, None), s))
    else
      var (v, s) :- Int(s);
      if flags % 2 == 1 then
        if v < 0 || v > |s| then None else Some((Upload(flags, header, None, Some(s[..v])), s[v..]))
      else if |s| < 4 then None
      else
        var n :- PackageLen(z, s[4..]);
        Some((Upload(flags, header, Some(v), Some(s[4..][..n])), s[4..][n..]))
  }

  lemma PackageLeft(s: seq<byte>, at: nat, header: Option<Header>, z: Inflater)
    requires 1 <= at <= |s| && s[0] / 2 % 2 == 1
    ensures Left(Splitting.NewsPackageStep(s, at, z), s) == Rest(ReadPackage(s[0], header, s[at..], z))
  {
    hide ReadInt32, PackageLen;
    SliceTwice(s, at);
    if ReadInt32(s[at..]).Some? {
      var n := at + ReadInt32(s[at..]).value.1;
      SliceTwice(s, n);
      if |s| - n >= 4 {
        SliceTwice(s, n + 4);
      }
    }
  }

  lemma HeaderSkims(s: seq<byte>)
    ensures Skim(NEWS_HEADER, 0, s) == Rest(ReadHeader(s))
  {
    hide Wide, Text, Int, Word, OneByte, Skim;
    SkimSteps(NEWS_HEADER);
  }

  lemma UploadLeft(s: seq<byte>, z: Inflater)
    ensures Left(NewsUploadStep(s, z), s) == Rest(ReadUpload(s, z))
    ensures NewsUploadStep(s, z).Take? ==> NewsUploadStep(s, z).from == 0
  {
    hide ReadFields, ReadHeader, ReadPackage, NewsUploadStep, Splitting.NewsPackageStep;
    StepOfUpload(s, z);
    if |s| >= 1 {
      if s[0] % 2 == 1 {
        HeaderEnds(s[1..]);
        if ReadHeader(s[1..]).Some? {
          var at := 1 + ReadFields(NEWS_HEADER, s[1..]).value.1;
          assert s[1..][at - 1..] == s[at..];
          UploadEnd(s, at, Some(ReadHeader(s[1..]).value.0), z);
        }
      } else {
        NoHeader(s[1..]);
        UploadEnd(s, 1, None, z);
      }
    }
  }

  lemma HeaderEnds(s: seq<byte>)
    ensures Rest(ReadHeader(s)) == After(ReadFields(NEWS_HEADER, s), s)
  {
    hide ReadFields, ReadHeader, Skim;
    SkimIsRead(NEWS_HEADER, 0, s);
    HeaderSkims(s);
    assert NEWS_HEADER[0..] == NEWS_HEADER;
  }

  lemma NoHeader(s: seq<byte>)
    ensures ReadFields([], s) == Some(([], 0))
  {
  }

  lemma UploadEnd(s: seq<byte>, at: nat, header: Option<Header>, z: Inflater)
    requires 1 <= at <= |s|
    ensures Left(if s[0] / 2 % 2 == 0 then Take(0, at) else Splitting.NewsPackageStep(s, at, z), s)
         == Rest(ReadPackage(s[0], header, s[at..], z))
  {
    hide Splitting.NewsPackageStep;
    if s[0] / 2 % 2 == 1 {
      PackageLeft(s, at, header, z);
    }
  }

  lemma StepOfUpload(s: seq<byte>, z: Inflater)
    ensures |s| < 1 ==> NewsUploadStep(s, z) == Short
    ensures |s| >= 1 ==>
              var f := ReadFields(if s[0] % 2 == 1 then NEWS_HEADER else [], s[1..]);
              && (f == None ==> NewsUploadStep(s, z) == Short)
              && (f.Some? ==> NewsUploadStep(s, z) == if s[0] / 2 % 2 == 0 then Take(0, 1 + f.value.1)
                                                      else Splitting.NewsPackageStep(s, 1 + f.value.1, z))
    ensures NewsUploadStep(s, z).Take? ==> NewsUploadStep(s, z).from == 0
  {
    hide ReadFields, ReadInt32, PackageLen;
  }

  /** The splitter takes exactly a body that its parser reads to its end. */
  lemma UploadAgrees(body: seq<byte>, q: seq<byte>, z: Inflater)
    requires Splitting.ZlibLike(z)
    ensures BodyStep(TAG_NEWS_UPLOAD, body + q, false, z) == Take(0, |body|)
            <==> ReadUpload(body, z).Some? && ReadUpload(body, z).value.1 == []
  {
    hide BodyStep, NewsUploadStep, ReadUpload;
    Splitting.StepCases(TAG_NEWS_UPLOAD, body, false, z);
    UploadLeft(body, z);
    var t := BodyStep(TAG_NEWS_UPLOAD, body, false, z);
    if t.Take? {
      StepInRange(TAG_NEWS_UPLOAD, body, false, z);
      Splitting.StepPrefix(TAG_NEWS_UPLOAD, body, q, z);
    }
    if BodyStep(TAG_NEWS_UPLOAD, body + q, false, z) == Take(0, |body|) {
      assert (body + q)[..|body|] == body[..|body|];
      Splitting.StepLocal(TAG_NEWS_UPLOAD, body + q, body, z);
    }
  }

  // ---- R_QUOTES ----

  datatype Quote = Quote(side: byte, price: i64, qty: i32, deleted: bool)

  const TAG_QUOTES: byte := 0x07
  const BUY: byte := 66
  const SELL: byte := 83

  /** The levels of an order book with the running price; any other side is refused. */
  function ReadQuotes(s: seq<byte>, price: i64): Option<(seq<Quote>, seq<byte>)>
    decreases |s|
  {
    var (side, t) :- OneByte(s);
    if side == 0xff then Some(([], t))
    else if side != BUY && side != SELL then None
    else
      var (delta, t) :- Int(t);
      var (qty, t) :- Int(t);
      var p := Wrap64(price + delta);
      var (more, t) :- ReadQuotes(t, p);
      Some(([Quote(side, p, qty, p < 1)] + more, t))
  }

  function ParseQuotesBody(body: seq<byte>): Option<((u16, u16, seq<Quote>), seq<byte>)> {
    var (secID, s) :- Word(body);
    var (board, s) :- Word(s);
    var (quotes, s) :- ReadQuotes(s, 0);
    Some(((secID, board, quotes), s))
  }

  /** The sides that the splitter passes over without looking at them. */
  function Sides(s: seq<byte>): Option<(seq<byte>, seq<byte>)>
    decreases |s|
  {
    var (side, t) :- OneByte(s);
    if side == 0xff then Some(([], t))
    else
      var (_, t) :- Int(t);
      var (_, t) :- Int(t);
      var (more, t) :- Sides(t);
      Some(([side] + more, t))
  }

  predicate Tradable(sides: seq<byte>) {
    forall b <- sides :: b == BUY || b == SELL
  }

  lemma {:induction false} SidesLeft(s: seq<byte>)
    ensures SectionLeft(Quotes, s) == Rest(Sides(s))
    decreases |s|
  {
    hide Int, Skim, SectionLeft;
    SectionTurn(Quotes, s);
    SkimSteps([KByte]);
    SkimSteps([KByte, KInt32, KInt32]);
    if |s| > 0 && Int(s[1..]).Some? && Int(Int(s[1..]).value.1).Some? {
      SidesLeft(Int(Int(s[1..]).value.1).value.1);
    }
  }

  lemma NothingTraded()
    ensures Tradable([])
  {
  }

  lemma TradableFirst(side: byte, more: seq<byte>)
    ensures Tradable([side] + more) <==> (side == BUY || side == SELL) && Tradable(more)
  {
    var all := [side] + more;
    assert all[0] == side && all[1..] == more;
    if Tradable(all) {
      assert side in all;
      assert forall b <- more :: b in all;
    }
  }

  lemma {:induction false} QuotesNeedSides(s: seq<byte>, price: i64)
    ensures ReadQuotes(s, price).Some? <==> Sides(s).Some? && Tradable(Sides(s).value.0)
    ensures ReadQuotes(s, price).Some? ==> ReadQuotes(s, price).value.1 == Sides(s).value.1
    decreases |s|
  {
    hide Int, Tradable;
    NothingTraded();
    if |s| > 0 && s[0] != 0xff && Int(s[1..]).Some? && Int(Int(s[1..]).value.1).Some? {
      var t := Int(Int(s[1..]).value.1).value.1;
      var p := Wrap64(price + Int(s[1..]).value.0);
      QuotesNeedSides(t, p);
      if Sides(t).Some? {
        var more := Sides(t).value.0;
        TradableFirst(s[0], more);
      }
    }
  }

  /** The sides of the levels of a split body. */
  function BodySides(body: seq<byte>): Option<(seq<byte>, seq<byte>)> {
    var (_, s) :- Word(body);
    var (_, s) :- Word(s);
    Sides(s)
  }

  lemma QuotesLeft(s: seq<byte>, z: Inflater)
    ensures Left(BodyStep(TAG_QUOTES, s, false, z), s) == Rest(BodySides(s))
    ensures BodyStep(TAG_QUOTES, s, false, z).Take? ==> BodyStep(TAG_QUOTES, s, false, z).from == 0
  {
    hide BodyStep, SectionStep, Skim, Word, Sides, SectionLeft;
    Splitting.StepCases(TAG_QUOTES, s, false, z);
    StepsFromZero(s, TAG_QUOTES);
    var (ks, x) := SectionOf(TAG_QUOTES).value;
    SectionStepLeft(ks, x, s);
    SkimSteps(ks);
    if Word(s).Some? && Word(Word(s).value.1).Some? {
      SidesLeft(Word(Word(s).value.1).value.1);
    }
  }

  /** The parser accepts what the splitter takes exactly when every side before the end mark is
      a buy or a sell, and then both stop at the same place. */
  lemma QuotesAcceptedExactly(s: seq<byte>, z: Inflater)
    ensures var t, p := BodyStep(TAG_QUOTES, s, false, z), ParseQuotesBody(s);
            && (p.Some? <==> t.Take? && BodySides(s).Some? && Tradable(BodySides(s).value.0))
            && (t.Take? ==> t.from == 0 && BodySides(s).Some? && Left(t, s) == Some(BodySides(s).value.1))
            && (p.Some? ==> p.value.1 == BodySides(s).value.1)
  {
    hide BodyStep, Word, Sides, ReadQuotes, Tradable;
    QuotesLeft(s, z);
    QuotesInRange(s, z);
    if Word(s).Some? && Word(Word(s).value.1).Some? {
      QuotesNeedSides(Word(Word(s).value.1).value.1, 0);
    }
  }

  lemma QuotesInRange(s: seq<byte>, z: Inflater)
    ensures BodyStep(TAG_QUOTES, s, false, z).Take? ==> BodyStep(TAG_QUOTES, s, false, z).end <= |s|
  {
    hide BodyStep;
    if BodyStep(TAG_QUOTES, s, false, z).Take? {
      StepInRange(TAG_QUOTES, s, false, z);
    }
  }

  lemma ZeroInt(rest: seq<byte>)
    ensures Int([0] + rest) == Some((0, rest))
  {
    Int32RoundTrip(0, rest);
    assert PackedBytes(0) == [0];
    assert ([0] + rest)[1..] == rest;
  }

  lemma OneSide(side: byte)
    requires side != 0xff
    ensures Sides([side] + ([0] + ([0] + [0xff]))) == Some(([side], []))
  {
    hide Int;
    ZeroInt([0] + [0xff]);
    ZeroInt([0xff]);
    var end: seq<byte> := [0xff];
    assert end[1..] == [] && Sides(end) == Some(([], []));
    assert ([side] + ([0] + ([0] + end)))[1..] == [0] + ([0] + end);
    assert [side] + [] == [side];
  }

  /** A level of side 'X' is split and not parsed. */
  lemma UnknownSideRefused(z: Inflater)
    ensures var body := [0, 26, 0, 1, 0x58, 0, 0, 0xff];
            BodyStep(TAG_QUOTES, body, false, z) == Take(0, 8) && ParseQuotesBody(body) == None
  {
    hide BodyStep, Sides, Int;
    var body: seq<byte> := [0, 26, 0, 1, 0x58, 0, 0, 0xff];
    var level: seq<byte> := [0x58] + ([0] + ([0] + [0xff]));
    assert body[2..][2..] == level;
    OneSide(0x58);
    QuotesLeft(body, z);
    QuotesInRange(body, z);
  }

  // ---- the loops ----

  method TakeByte(r: Reader) returns (v: Option<byte>)
    requires r.Valid()
    modifies r
    ensures r.Valid() && v == Value(OneByte(old(r.Remaining())))
    ensures v.Some? ==> r.Remaining() == OneByte(old(r.Remaining())).value.1
  {
    v := r.Byte();
  }

  method TakeWord(r: Reader) returns (v: Option<u16>)
    requires r.Valid()
    modifies r
    ensures r.Valid() && v == Value(Word(old(r.Remaining())))
    ensures v.Some? ==> r.Remaining() == Word(old(r.Remaining())).value.1
  {
    v := r.Uint16();
  }

  method TakeInt(r: Reader) returns (v: Option<i32>)
    requires r.Valid()
    modifies r
    ensures r.Valid() && v == Value(Int(old(r.Remaining())))
    ensures v.Some? ==> r.Remaining() == Int(old(r.Remaining())).value.1
  {
    hide ReadInt32;
    v := r.Int32();
  }

  method TakeWide(r: Reader) returns (v: Option<i64>)
    requires r.Valid()
    modifies r
    ensures r.Valid() && v == Value(Wide(old(r.Remaining())))
    ensures v.Some? ==> r.Remaining() == Wide(old(r.Remaining())).value.1
  {
    hide ReadPacked;
    v := r.Int64();
  }

  method TakeCString(r: Reader, max: nat) returns (v: Option<seq<byte>>)
    requires r.Valid()
    modifies r
    ensures r.Valid() && v == Value(Text(old(r.Remaining()), max))
    ensures v.Some? ==> r.Remaining() == Text(old(r.Remaining()), max).value.1
  {
    hide ReadString;
    v := r.CString(max);
  }

  /** What a loop has gathered in front of what is still to be read. */
  function Gathered<T>(out: seq<T>, f: Option<(seq<T>, seq<byte>)>): Option<(seq<T>, seq<byte>)> {
    var (more, t) :- f;
    Some((out + more, t))
  }

  lemma GatheredNone<T>(f: Option<(seq<T>, seq<byte>)>)
    ensures Gathered([], f) == f
  {
    if f.Some? {
      assert [] + f.value.0 == f.value.0;
    }
  }

  lemma GatheredOne<T>(out: seq<T>, x: T, f: Option<(seq<T>, seq<byte>)>)
    ensures Gathered(out, Gathered([x], f)) == Gathered(out + [x], f)
  {
    if f.Some? {
      assert out + ([x] + f.value.0) == out + [x] + f.value.0;
    }
  }

  method TakeTrade(r: Reader, secID: u16) returns (t: Option<Trade>)
    requires r.Valid()
    modifies r
    ensures r.Valid() && t == Value(ReadTrade(secID, old(r.Remaining())))
    ensures t.Some? ==> r.Remaining() == ReadTrade(secID, old(r.Remaining())).value.1
  {
    hide Word, Wide, Int, OneByte;
    var board :- TakeWord(r);
    var tradeNo :- TakeWide(r);
    var time :- TakeInt(r);
    var price :- TakeInt(r);
    var volume :- TakeInt(r);
    var period :- TakeByte(r);
    var side :- TakeByte(r);
    var x :- TakeInt(r);
    var y :- TakeInt(r);
    t := Some(Trade(secID, board, tradeNo, time, price, volume, period, side, x, y));
  }

  method TakeTrades(r: Reader) returns (trades: Option<seq<Trade>>)
    requires r.Valid()
    modifies r
    ensures r.Valid() && trades == Value(ReadTrades(old(r.Remaining())))
    ensures trades.Some? ==> r.Remaining() == ReadTrades(old(r.Remaining())).value.1
  {
    hide Word, ReadTrade;
    ghost var all := ReadTrades(r.Remaining());
    var out: seq<Trade> := [];
    GatheredNone(all);
    while true
      invariant r.Valid() && all == Gathered(out, ReadTrades(r.Remaining()))
      decreases |r.Remaining()|
    {
      ghost var rest := r.Remaining();
      var secID :- TakeWord(r);
      if secID == 0xffff {
        assert out + [] == out;
        return Some(out);
      }
      var trade :- TakeTrade(r, secID);
      GatheredOne(out, trade, ReadTrades(r.Remaining()));
      out := out + [trade];
    }
  }

  method TakeItems(r: Reader) returns (items: Option<seq<Strike>>)
    requires r.Valid()
    modifies r
    ensures r.Valid() && items == Value(ReadItems(old(r.Remaining())))
    ensures items.Some? ==> r.Remaining() == ReadItems(old(r.Remaining())).value.1
  {
    hide Text, Int, OneByte;
    ghost var all := ReadItems(r.Remaining());
    var out: seq<Strike> := [];
    GatheredNone(all);
    while true
      invariant r.Valid() && all == Gathered(out, ReadItems(r.Remaining()))
      decreases |r.Remaining()|
    {
      var code :- TakeCString(r, 26);
      if code == [] {
        assert out + [] == out;
        return Some(out);
      }
      var cp :- TakeByte(r);
      var price :- TakeInt(r);
      GatheredOne(out, Strike(code, cp, price), ReadItems(r.Remaining()));
      out := out + [Strike(code, cp, price)];
    }
  }

  /** The side test and the running price. */
  method TakeQuotes(r: Reader) returns (quotes: Option<seq<Quote>>)
    requires r.Valid()
    modifies r
    ensures r.Valid() && quotes == Value(ReadQuotes(old(r.Remaining()), 0))
    ensures quotes.Some? ==> r.Remaining() == ReadQuotes(old(r.Remaining()), 0).value.1
  {
    hide Int, OneByte;
    ghost var all := ReadQuotes(r.Remaining(), 0);
    var out: seq<Quote> := [];
    var price: i64 := 0;
    GatheredNone(all);
    while true
      invariant r.Valid() && all == Gathered(out, ReadQuotes(r.Remaining(), price))
      decreases |r.Remaining()|
    {
      var side :- TakeByte(r);
      if side == 0xff {
        assert out + [] == out;
        return Some(out);
      }
      if side != BUY && side != SELL {
        return None;
      }
      var delta :- TakeInt(r);
      var qty :- TakeInt(r);
      price := Wrap64(price + delta);
      var level := Quote(side, price, qty, price < 1);
      GatheredOne(out, level, ReadQuotes(r.Remaining(), price));
      out := out + [level];
    }
  }

  method TakeLevel(r: Reader, flags: byte) returns (l: Option<Level>)
    requires r.Valid()
    modifies r
    ensures r.Valid() && l == Value(ReadLevel(flags, old(r.Remaining())))
    ensures l.Some? ==> r.Remaining() == ReadLevel(flags, old(r.Remaining())).value.1
  {
    hide Int, OneByte, Text;
    var level := Level(flags, None, None, None, None, None);
    if flags % 2 == 1 {
      var v :- TakeByte(r);
      level := level.(mark := Some(v));
    }
    if flags / 2 % 2 == 1 {
      var v :- TakeInt(r);
      level := level.(int1 := Some(v));
    }
    if flags / 4 % 2 == 1 {
      var v :- TakeInt(r);
      level := level.(int2 := Some(v));
    }
    if flags / 8 % 2 == 1 {
      var v :- TakeCString(r, 4);
      level := level.(text := Some(v));
    }
    if flags / 16 % 2 == 1 {
      var v :- TakeInt(r);
      level := level.(int3 := Some(v));
    }
    l := Some(level);
  }

  method TakeLevels(r: Reader) returns (levels: Option<seq<Level>>)
    requires r.Valid()
    modifies r
    ensures r.Valid() && levels == Value(ReadLevels(old(r.Remaining())))
    ensures levels.Some? ==> r.Remaining() == ReadLevels(old(r.Remaining())).value.1
  {
    hide OneByte, ReadLevel;
    ghost var all := ReadLevels(r.Remaining());
    var out: seq<Level> := [];
    GatheredNone(all);
    while true
      invariant r.Valid() && all == Gathered(out, ReadLevels(r.Remaining()))
      decreases |r.Remaining()|
    {
      var flags :- TakeByte(r);
      if flags == 0xff {
        assert out + [] == out;
        return Some(out);
      }
      if flags >= 0x20 {
        return None;
      }
      var level :- TakeLevel(r, flags);
      GatheredOne(out, level, ReadLevels(r.Remaining()));
      out := out + [level];
    }
  }

  // ---- the RQ_TICKS reply and its running sums ----

  datatype Tick = Tick(secID: u16, board: u16, tradeNo: i64, time: i64, price: i64, field: byte, volume: i32)

  const END_OF_TICKS: u16 := 0xffff

  /** A tick whose numbers are still differences. */
  function ReadDelta(secID: u16, s: seq<byte>): (r: Option<(Tick, seq<byte>)>)
    ensures r.Some? ==> |r.value.1| < |s|
  {
    var (board, s) :- Word(s);
    var (tradeNo, s) :- Wide(s);
    var (time, s) :- Int(s);
    var (price, s) :- Int(s);
    var (field, s) :- OneByte(s);
    var (volume, s) :- Int(s);
    Some((Tick(secID, board, tradeNo, time, price, field, volume), s))
  }

  /** The running sums after a tick of differences. */
  function Advance(t: Tick, tradeNo: i64, time: i64, price: i64): Tick {
    t.(tradeNo := Wrap64(tradeNo + t.tradeNo), time := Wrap64(time + t.time), price := Wrap64(price + t.price))
  }

  /** The ticks of a reply that continues the given sums, and whether its end mark was found;
      the ticks before a failure are kept. */
  function TicksFrom(s: seq<byte>, tradeNo: i64, time: i64, price: i64): (seq<Tick>, bool)
    decreases |s|
  {
    match Word(s)
    case None => ([], false)
    case Some((secID, u)) =>
      if secID == END_OF_TICKS then ([], true)
      else
        match ReadDelta(secID, u)
        case None => ([], false)
        case Some((d, v)) =>
          var t := Advance(d, tradeNo, time, price);
          var (more, ok) := TicksFrom(v, t.tradeNo, t.time, t.price);
          ([t] + more, ok)
  }

  predicate Int32(x: int) { MIN_INT32 <= x <= -(MIN_INT32 + 1) }

  /** The difference to the previous tick can be written: time and price in 32 bits, and the
      trade number as anything but the one 64-bit value that is not kept. */
  predicate Writable(t: Tick, tradeNo: i64, time: i64, price: i64) {
    && t.secID != END_OF_TICKS && Int32(t.time - time) && Int32(t.price - price)
    && Wrap64(t.tradeNo - tradeNo) != MIN_INT32
  }

  predicate AllWritable(ts: seq<Tick>, tradeNo: i64, time: i64, price: i64) {
    ts == [] || (Writable(ts[0], tradeNo, time, price) && AllWritable(ts[1..], ts[0].tradeNo, ts[0].time, ts[0].price))
  }

  /** A tick written as differences, in front of what follows it. */
  function DeltaBytes(t: Tick, tradeNo: i64, time: i64, price: i64, more: seq<byte>): seq<byte>
    requires Writable(t, tradeNo, time, price)
  {
    Be16Bytes(t.board)
    + (PackedBytes(Wrap64(t.tradeNo - tradeNo))
       + (PackedBytes(t.time - time) + (PackedBytes(t.price - price) + ([t.field] + (PackedBytes(t.volume) + more)))))
  }

  function TicksBytes(ts: seq<Tick>, tradeNo: i64, time: i64, price: i64, rest: seq<byte>): seq<byte>
    requires AllWritable(ts, tradeNo, time, price)
  {
    if ts == [] then Be16Bytes(END_OF_TICKS) + rest
    else
      Be16Bytes(ts[0].secID)
      + DeltaBytes(ts[0], tradeNo, time, price, TicksBytes(ts[1..], ts[0].tradeNo, ts[0].time, ts[0].price, rest))
  }

  lemma Written()
    ensures forall w: u16, q {:trigger Word(Be16Bytes(w) + q)} :: Word(Be16Bytes(w) + q) == Some((w, q))
    ensures forall b: byte, q {:trigger OneByte([b] + q)} :: OneByte([b] + q) == Some((b, q))
    ensures forall v: i32, q {:trigger Int(PackedBytes(v) + q)} :: Int(PackedBytes(v) + q) == Some((v, q))
    ensures forall v: i64, q {:trigger Wide(PackedBytes(v) + q)} :: v != MIN_INT32 ==> Wide(PackedBytes(v) + q) == Some((v, q))
  {
    hide ReadPacked, PackedBytes;
    forall a: seq<byte>, q: seq<byte> ensures (a + q)[|a|..] == q && (a + q)[..|a|] == a {}
    forall v: i32, q ensures Int(PackedBytes(v) + q) == Some((v, q)) {
      Int32RoundTrip(v, q);
    }
    forall v: i64, q | v != MIN_INT32 ensures Wide(PackedBytes(v) + q) == Some((v, q)) {
      Int64RoundTrip(v, q);
    }
  }

  lemma DeltaReadsBack(t: Tick, tradeNo: i64, time: i64, price: i64, more: seq<byte>)
    requires Writable(t, tradeNo, time, price)
    ensures var r := ReadDelta(t.secID, DeltaBytes(t, tradeNo, time, price, more));
            r.Some? && r.value.1 == more && Advance(r.value.0, tradeNo, time, price) == t
  {
    hide Word, Wide, Int, OneByte, PackedBytes, Be16Bytes;
    Written();
    WrapDelta(t.tradeNo, tradeNo);
  }

  lemma WrapDelta(a: i64, b: i64)
    ensures Wrap64(b + Wrap64(a - b)) == a
  {
  }

  /** Ticks written as differences to their predecessors come back as they were, whatever
      follows the end mark. */
  lemma {:induction false} TicksRoundTrip(ts: seq<Tick>, tradeNo: i64, time: i64, price: i64, rest: seq<byte>)
    requires AllWritable(ts, tradeNo, time, price)
    ensures TicksFrom(TicksBytes(ts, tradeNo, time, price, rest), tradeNo, time, price) == (ts, true)
  {
    hide Word, Wide, Int, OneByte, DeltaBytes, ReadDelta, Advance, Be16Bytes;
    Written();
    if ts != [] {
      var t := ts[0];
      DeltaReadsBack(t, tradeNo, time, price, TicksBytes(ts[1..], t.tradeNo, t.time, t.price, rest));
      TicksRoundTrip(ts[1..], t.tradeNo, t.time, t.price, rest);
      assert [t] + ts[1..] == ts;
    }
  }

  method TakeDelta(r: Reader, secID: u16) returns (t: Option<Tick>)
    requires r.Valid()
    modifies r
    ensures r.Valid() && t == Value(ReadDelta(secID, old(r.Remaining())))
    ensures t.Some? ==> r.Remaining() == ReadDelta(secID, old(r.Remaining())).value.1
  {
    hide Word, Wide, Int, OneByte;
    var board :- TakeWord(r);
    var tradeNo :- TakeWide(r);
    var time :- TakeInt(r);
    var price :- TakeInt(r);
    var field :- TakeByte(r);
    var volume :- TakeInt(r);
    t := Some(Tick(secID, board, tradeNo, time, price, field, volume));
  }

  function Added(out: seq<Tick>, f: (seq<Tick>, bool)): (seq<Tick>, bool) {
    (out + f.0, f.1)
  }

  /** One turn of the loop: the end, an error, or one more tick. */
  lemma TickTurn(out: seq<Tick>, s: seq<byte>, tradeNo: i64, time: i64, price: i64)
    ensures Word(s) == None ==> Added(out, TicksFrom(s, tradeNo, time, price)) == (out, false)
    ensures Word(s).Some? ==> |Word(s).value.1| < |s|
    ensures Word(s).Some? && Word(s).value.0 == END_OF_TICKS ==> Added(out, TicksFrom(s, tradeNo, time, price)) == (out, true)
    ensures Word(s).Some? && Word(s).value.0 != END_OF_TICKS ==>
              var d := ReadDelta(Word(s).value.0, Word(s).value.1);
              && (d == None ==> Added(out, TicksFrom(s, tradeNo, time, price)) == (out, false))
              && (d.Some? ==>
                    var t := Advance(d.value.0, tradeNo, time, price);
                    Added(out, TicksFrom(s, tradeNo, time, price)) == Added(out + [t], TicksFrom(d.value.1, t.tradeNo, t.time, t.price)))
  {
    hide ReadDelta, Advance;
    assert out + [] == out;
    if Word(s).Some? {
      var (secID, u) := Word(s).value;
      if secID != END_OF_TICKS && ReadDelta(secID, u).Some? {
        var (d, v) := ReadDelta(secID, u).value;
        var t := Advance(d, tradeNo, time, price);
        AddedOne(out, t, TicksFrom(v, t.tradeNo, t.time, t.price));
      }
    }
  }

  method ParseTicksReply(payload: seq<byte>) returns (ticks: seq<Tick>, ok: bool)
    ensures (ticks, ok) == TicksFrom(payload, 0, 0, 0)
  {
    hide Word, ReadDelta, Advance, TicksFrom;
    var r := new Reader(payload);
    var tradeNo: i64, time: i64, price: i64 := 0, 0, 0;
    ticks := [];
    ghost var all := TicksFrom(payload, 0, 0, 0);
    assert [] + all.0 == all.0;
    hide Added;
    while true
      invariant r.Valid() && all == Added(ticks, TicksFrom(r.Remaining(), tradeNo, time, price))
      decreases |r.Remaining()|
    {
      TickTurn(ticks, r.Remaining(), tradeNo, time, price);
      var secID := TakeWord(r);
      if secID == None {
        return ticks, false;
      }
      if secID.value == END_OF_TICKS {
        return ticks, true;
      }
      var d := TakeDelta(r, secID.value);
      if d == None {
        return ticks, false;
      }
      var t := Advance(d.value, tradeNo, time, price);
      ticks, tradeNo, time, price := ticks + [t], t.tradeNo, t.time, t.price;
    }
  }

  lemma AddedOne(out: seq<Tick>, t: Tick, f: (seq<Tick>, bool))
    ensures Added(out, ([t] + f.0, f.1)) == Added(out + [t], f)
  {
    assert out + ([t] + f.0) == out + [t] + f.0;
  }
}
