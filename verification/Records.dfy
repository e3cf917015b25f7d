/** The splitter of RQ_MAIN payloads: undelimited, tag-driven records, some of them nested. */
module Records {
  import opened Bytes
  import opened Codec

  const TAG_QUOTATION: byte := 0x06
  const TAG_CANDLES: byte := 0x09
  const TAG_SERVER_MESSAGE: byte := 0x0f
  const TAG_NEWS_UPLOAD: byte := 0x36
  const TAG_SYS_PARAMS: byte := 0x5b
  const TAG_WRAPPER: byte := 0x5f
  const TAG_URT_UPDATE: byte := 0x69
  const TAG_FORTS_SESSION: byte := 0x6b
  const TAG_READ_ICA: byte := 0x7c

  datatype Record = Record(tag: byte, body: seq<byte>)

  /** Malformed: a field does not fit. Unknown: an UnknownRecordError with its offset.
      UnknownPackage: a compressed news body whose end cannot be found. */
  datatype SplitError = Malformed | Unknown(tag: byte, offset: nat) | UnknownPackage

  /** The length of a compressed stream at the start of the argument, if it is complete. */
  type Inflater = seq<byte> -> Option<nat>

  predicate Sized(tag: byte) {
    tag in {0x02, 0x03, 0x04, 0x08, 0x10, 0x28, 0x3a, 0x3b, 0x54, 0x5e, 0x5f, 0x66}
  }

  const NEWS_HEADER := [KInt32, KInt32, KString(16), KString(128), KByte]

  /** Records that are a fixed list of fields. */
  function Layout(tag: byte): Option<seq<Kind>> {
    match tag
    case 0x01 => Some([KByte, KString(20), KInt32, KString(1024)])
    case 0x05 => Some([])
    case 0x0a => Some([KWord, KInt64])
    case 0x0b => Some([KRaw(3)])
    case 0x0c => Some([KRaw(3)])
    case 0x0d => Some([KRaw(3)])
    case 0x0e => Some([KRaw(3)])
    case 0x18 => Some([KRaw(1)])
    case 0x34 => Some([KWord, KByte, KString(7), KString(30), KWord, KByte, KString(8), KByte, KByte])
    case 0x35 => Some(NEWS_HEADER)
    case 0x3d => Some([KInt32])
    case 0x62 => Some([KRaw(2)])
    case 0x67 => Some([KRaw(2)])
    case 0x68 => Some([KInt64, KString(20), KString(32), KByte])
    case 0x6e => Some([KString(4), KString(25), KByte, KInt32])
    case 0x6f => Some([KWord, KString(6), KInt32, KInt32])
    case 0x70 => Some([KWord, KString(512)])
    case 0x71 => Some([KWord, KString(6), KInt32, KString(512)])
    case _ => None
  }

  // ---- records with a repeated section ----

  datatype Section = Quotes | Ticks | Strikes | AmBook | UrtUpdate

  /** The section of a record and the fields in front of it. */
  function SectionOf(tag: byte): Option<(seq<Kind>, Section)> {
    match tag
    case 0x07 => Some(([KWord, KWord], Quotes))
    case 0x5a => Some(([], Ticks))
    case 0x5c => Some(([KWord], AmBook))
    case 0x69 => Some(([], UrtUpdate))
    case 0x78 => Some(([KWord, KInt32], Strikes))
    case _ => None
  }

  const TICK_KINDS := [KWord, KWord, KInt64, KInt32, KInt32, KInt32, KByte, KByte, KInt32, KInt32]

  function AmBookKinds(flags: byte): seq<Kind> {
    [KByte]
    + (if flags % 2 == 1 then [KByte] else [])
    + (if flags / 2 % 2 == 1 then [KInt32] else [])
    + (if flags / 4 % 2 == 1 then [KInt32] else [])
    + (if flags / 8 % 2 == 1 then [KString(4)] else [])
    + (if flags / 16 % 2 == 1 then [KInt32] else [])
  }

  /** One turn of a section loop: the fields to read now, and whether they end the section. */
  datatype Turn = Bad | Last(ks: seq<Kind>) | More(ks: seq<Kind>)

  function NextTurn(x: Section, s: seq<byte>): Turn {
    match x
    case Quotes => if |s| < 1 then Bad else if s[0] == 0xff then Last([KByte]) else More([KByte, KInt32, KInt32])
    case Ticks =>
      if |s| < 2 then Bad else if Be16(s[..2]) == 0xffff then Last([KWord]) else More(TICK_KINDS)
    case Strikes =>
      (match ReadString(s, 26)
       case None => Bad
       case Some((code, _)) => if code == [] then Last([KString(26), KByte]) else More([KString(26), KByte, KInt32]))
    case AmBook =>
      if |s| < 1 then Bad else if s[0] == 0xff then Last([KByte])
      else if s[0] >= 0x20 then Bad else More(AmBookKinds(s[0]))
    case UrtUpdate => if |s| < 1 then Bad else if s[0] == 0xff then Last([KByte]) else More([KByte])
  }

  /** The number of bytes of the section at the start of s. */
  function SectionLen(x: Section, s: seq<byte>): (r: Option<nat>)
    ensures r.Some? ==> r.value <= |s|
    decreases |s|
  {
    var turn := NextTurn(x, s);
    if turn.Bad? then None
    else
      match ReadFields(turn.ks, s)
      case None => None
      case Some((_, n)) =>
        if turn.Last? then Some(n)
        else
          TurnAdvances(x, s);
          match SectionLen(x, s[n..])
          case None => None
          case Some(m) => Some(n + m)
  }

  lemma TurnAdvances(x: Section, s: seq<byte>)
    requires NextTurn(x, s).More? && ReadFields(NextTurn(x, s).ks, s).Some?
    ensures ReadFields(NextTurn(x, s).ks, s).value.1 > 0
  {
    hide NextTurn;
    var ks := NextTurn(x, s).ks;
    assert ks != [] && (ks[0] == KByte || ks[0] == KWord || ks[0] == KString(26)) by { TurnStarts(x, s); }
    assert ReadField(ks[0], s).value.1 > 0;
  }

  lemma TurnStarts(x: Section, s: seq<byte>)
    requires NextTurn(x, s).More?
    ensures var ks := NextTurn(x, s).ks;
            ks != [] && (ks[0] == KByte || ks[0] == KWord || ks[0] == KString(26))
  {
  }

  // ---- records with a length of their own ----

  /** The result of reading one record body: the body is s[from..end], or where it fails.
      AtTag, AtBody and AtZero are the three offsets an unknown record is reported with. */
  datatype Step = Take(from: nat, end: nat) | Short | AtTag | AtBody | AtZero | BadPackage

  function SizedStep(s: seq<byte>): Step {
    if |s| < 2 || |s| < 2 + Be16(s[..2]) then Short else Take(2, 2 + Be16(s[..2]))
  }

  function ByteSizedStep(s: seq<byte>): Step {
    if |s| < 1 || |s| < 1 + s[0] as int then Short else Take(1, 1 + s[0] as int)
  }

  function FieldsStep(ks: seq<Kind>, s: seq<byte>): Step {
    match ReadFields(ks, s)
    case None => Short
    case Some((_, n)) => Take(0, n)
  }

  const SERVER_MESSAGE := [KByte, KByte, KString(512), KInt64]

  /** Observed server messages have type 1 or 2 and a status other than 4. */
  function ServerMessageStep(s: seq<byte>): Step {
    match ReadFields(SERVER_MESSAGE, s)
    case None => Short
    case Some((fs, n)) => if |s| < 2 || (s[0] != 1 && s[0] != 2) || s[1] == 4 then AtBody else Take(0, n)
  }

  function SectionStep(ks: seq<Kind>, x: Section, s: seq<byte>): Step {
    match ReadFields(ks, s)
    case None => Short
    case Some((_, n)) =>
      match SectionLen(x, s[n..])
      case None => if x == UrtUpdate then AtBody else Short
      case Some(m) => Take(0, n + m)
  }

  function Repeat(k: Kind, n: nat): (ks: seq<Kind>)
    ensures |ks| == n
  {
    if n == 0 then [] else [k] + Repeat(k, n - 1)
  }

  function OnesCount(mask: nat): nat {
    if mask == 0 then 0 else mask % 2 + OnesCount(mask / 2)
  }

  /** The mask of a quotation as an unsigned 64-bit word. */
  function MaskOf(v: i64): nat { v % TWO64 }

  function QuotationStep(s: seq<byte>): Step {
    if |s| < 4 then Short
    else
      match ReadInt64(s[4..])
      case None => Short
      case Some((mask, n)) =>
        match ReadFields(Repeat(KInt32, OnesCount(MaskOf(mask))), s[4 + n..])
        case None => Short
        case Some((_, m)) => Take(0, 4 + n + m)
  }

  function SysParamsStep(s: seq<byte>): Step {
    match ReadInt32(s)
    case None => Short
    case Some((size, n)) => if size < 0 || size > |s| - n then Short else Take(0, n + size)
  }

  /** Inside a wrapper, whose end is known, the record has an optional trailing byte. */
  function FortsSessionStep(s: seq<byte>, bounded: bool): Step {
    match ReadInt32(s)
    case None => Short
    case Some((_, n)) => Take(0, if bounded && n < |s| then n + 1 else n)
  }

  function PackageLen(z: Inflater, s: seq<byte>): (r: Option<nat>)
    ensures r.Some? ==> r.value <= |s|
  {
    if |s| < 8 then None
    else
      match z(s[4..])
      case None => None
      case Some(n) => if n <= |s| - 4 then Some(4 + n) else None
  }

  function NewsUploadStep(s: seq<byte>, z: Inflater): Step {
    if |s| < 1 then Short
    else
      match ReadFields(if s[0] % 2 == 1 then NEWS_HEADER else [], s[1..])
      case None => Short
      case Some((_, h)) =>
        if s[0] / 2 % 2 == 0 then Take(0, 1 + h)
        else
          match ReadInt32(s[1 + h..])
          case None => Short
          case Some((v, k)) =>
            var n := 1 + h + k;
            if s[0] % 2 == 1 then if v < 0 || v > |s| - n then AtZero else Take(0, n + v)
            else if |s| - n < 4 then AtZero
            else
              match PackageLen(z, s[n + 4..])
              case None => BadPackage
              case Some(m) => Take(0, n + 4 + m)
  }

  const CANDLE_KINDS := [KInt32, KInt32, KInt32, KInt32, KInt32, KInt32, KInt32]

  function CandleKinds(openInterest: bool): seq<Kind> {
    if openInterest then CANDLE_KINDS + [KInt32] else CANDLE_KINDS
  }

  /** Candles until at most five bytes are left, which must hold the packed status. */
  function HistoryLen(s: seq<byte>, openInterest: bool): (r: Option<nat>)
    ensures r.Some? ==> r.value <= |s|
    decreases |s|
  {
    if s == [] then Some(0)
    else if |s| <= 5 then match ReadInt32(s) case None => None case Some((_, n)) => Some(n)
    else
      match ReadFields(CandleKinds(openInterest), s)
      case None => None
      case Some((_, n)) =>
        CandleAdvances(openInterest, s);
        match HistoryLen(s[n..], openInterest)
        case None => None
        case Some(m) => Some(n + m)
  }

  lemma CandleAdvances(openInterest: bool, s: seq<byte>)
    requires ReadFields(CandleKinds(openInterest), s).Some?
    ensures ReadFields(CandleKinds(openInterest), s).value.1 > 0
  {
    assert CandleKinds(openInterest)[0] == KInt32;
  }

  /** A history record has no length and must be the last of its payload. */
  function HistoryStep(s: seq<byte>): Step {
    if |s| < 6 then Short
    else
      match HistoryLen(s[6..], s[5] != 0)
      case None => Short
      case Some(n) => if 6 + n == |s| then Take(0, |s|) else Short
  }

  /** One record body after its tag. */
  function BodyStep(tag: byte, s: seq<byte>, bounded: bool, z: Inflater): Step {
    if Sized(tag) then SizedStep(s)
    else if tag == TAG_SERVER_MESSAGE then ServerMessageStep(s)
    else if tag == TAG_FORTS_SESSION then FortsSessionStep(s, bounded)
    else if Layout(tag).Some? then FieldsStep(Layout(tag).value, s)
    else if SectionOf(tag).Some? then SectionStep(SectionOf(tag).value.0, SectionOf(tag).value.1, s)
    else if tag == TAG_READ_ICA then ByteSizedStep(s)
    else if tag == TAG_QUOTATION then QuotationStep(s)
    else if tag == TAG_SYS_PARAMS then SysParamsStep(s)
    else if tag == TAG_NEWS_UPLOAD then NewsUploadStep(s, z)
    else if tag == TAG_CANDLES then HistoryStep(s)
    else AtTag
  }

  lemma StepInRange(tag: byte, s: seq<byte>, bounded: bool, z: Inflater)
    requires BodyStep(tag, s, bounded, z).Take?
    ensures var t := BodyStep(tag, s, bounded, z); t.from <= t.end <= |s|
    ensures tag == TAG_WRAPPER ==> BodyStep(tag, s, bounded, z).from == 2
  {
  }

  // ---- the splitter ----

  datatype Split = Split(recs: seq<Record>, err: Option<SplitError>)

  /** Where an error of the record whose tag stands at offset off is reported. */
  function Locate(t: Step, tag: byte, off: nat): SplitError
    requires !t.Take?
  {
    match t
    case Short => Malformed
    case AtTag => Unknown(tag, off)
    case AtBody => Unknown(tag, off + 1)
    case AtZero => Unknown(tag, 0)
    case BadPackage => UnknownPackage
  }

  /** The records of p, which starts at offset off of its payload. */
  function SplitFrom(p: seq<byte>, off: nat, bounded: bool, z: Inflater): (r: Split)
    ensures r.err.Some? && r.err.value.Unknown? ==> r.err.value.offset <= off + |p|
    decreases |p|, 0
  {
    if p == [] then Split([], None)
    else
      var t := BodyStep(p[0], p[1..], bounded, z);
      if !t.Take? then Split([], Some(Locate(t, p[0], off)))
      else
        StepInRange(p[0], p[1..], bounded, z);
        var e := Emit(p[0], p[1..][t.from..t.end], z);
        if e.err.Some? then Split([], e.err)
        else
          var rest := SplitFrom(p[1..][t.end..], off + 1 + t.end, bounded, z);
          Split(e.recs + rest.recs, rest.err)
  }

  /** The records a body stands for: its own, or the nested ones of a wrapper. A wrapper with
      an unknown nested record yields the records of the bytes before it, if those can be
      split by themselves, and the unknown rest as one record. */
  function Emit(tag: byte, body: seq<byte>, z: Inflater): (r: Split)
    ensures r.err.Some? ==> !r.err.value.Unknown?
    decreases |body|, 1
  {
    if tag != TAG_WRAPPER then Split([Record(tag, body)], None)
    else
      var nested := SplitFrom(body, 0, true, z);
      match nested.err
      case None => nested
      case Some(Unknown(t, o)) =>
        var inner := SplitFrom(body[..o], 0, false, z);
        Split((if inner.err == None then inner.recs else []) + [Record(t, body[o..])], None)
      case Some(e) => Split([], Some(e))
  }
}
