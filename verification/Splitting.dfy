/** Properties of the splitter: records are a prefix code, so splitting is compositional and
    inverts concatenation; and exactly when a wrapper's salvage keeps its leading records. */
module Splitting {
  import opened Bytes
  import opened Codec
  import opened Records

  // ---- a body is recognised without looking beyond its end ----

  lemma {:induction false} SectionLocal(x: Section, s: seq<byte>, u: seq<byte>)
    requires SectionLen(x, s).Some? && SameStart(s, u, SectionLen(x, s).value)
    ensures SectionLen(x, u) == SectionLen(x, s)
    decreases |s|
  {
    hide NextTurn, ReadFields, SameStart;
    var turn, len := NextTurn(x, s), SectionLen(x, s).value;
    var n := ReadFields(turn.ks, s).value.1;
    SameStartTail(s, u, n, len);
    SameStartBounds(s, u, len);
    NextTurnLocal(x, s, u);
    ReadFieldsLocal(turn.ks, s, u);
    if turn.More? {
      TurnAdvances(x, s);
      SectionLocal(x, s[n..], u[n..]);
    }
  }

  /** The bytes of a turn decide which turn it is. */
  lemma NextTurnLocal(x: Section, s: seq<byte>, u: seq<byte>)
    requires var turn := NextTurn(x, s);
             !turn.Bad? && ReadFields(turn.ks, s).Some? && SameStart(s, u, ReadFields(turn.ks, s).value.1)
    ensures NextTurn(x, u) == NextTurn(x, s)
  {
    hide ReadFields, SameStart;
    var ks := NextTurn(x, s).ks;
    var n := ReadFields(ks, s).value.1;
    var m := FirstField(ks, s);
    SameStartTail(s, u, m, n);
    ReadFieldLocal(ks[0], s, u);
    NextTurnFirst(x, s, u);
  }

  lemma FirstField(ks: seq<Kind>, s: seq<byte>) returns (m: nat)
    requires ks != [] && ReadFields(ks, s).Some?
    ensures ReadField(ks[0], s).Some? && m == ReadField(ks[0], s).value.1 <= ReadFields(ks, s).value.1
  {
    m := ReadField(ks[0], s).value.1;
  }

  lemma NextTurnFirst(x: Section, s: seq<byte>, u: seq<byte>)
    requires !NextTurn(x, s).Bad?
    requires var k := NextTurn(x, s).ks[0]; ReadField(k, s).Some? && ReadField(k, u) == ReadField(k, s)
    ensures NextTurn(x, u) == NextTurn(x, s)
  {
    hide ReadString;
  }

  lemma ReadInt32Local(s: seq<byte>, u: seq<byte>)
    requires ReadInt32(s).Some? && SameStart(s, u, ReadInt32(s).value.1)
    ensures ReadInt32(u) == ReadInt32(s)
  {
    hide PackedValue;
    ReadPackedLocal(s, u, false);
  }

  /** A decompressor stops at the end of its stream, which holds at least the two header bytes
      and the four checksum bytes of RFC 1950. */
  ghost predicate ZlibLike(z: Inflater) {
    && (forall s: seq<byte> {:trigger z(s)} :: z(s).Some? ==> z(s).value >= 6)
    && forall s: seq<byte>, u: seq<byte> {:trigger z(s), z(u)} ::
         z(s).Some? && SameStart(s, u, z(s).value) ==> z(u) == z(s)
  }

  lemma PackageLocal(s: seq<byte>, u: seq<byte>, z: Inflater)
    requires PackageLen(z, s).Some? && SameStart(s, u, PackageLen(z, s).value) && ZlibLike(z)
    ensures PackageLen(z, u) == PackageLen(z, s)
  {
    SameStartTail(s, u, 4, PackageLen(z, s).value);
    assert z(u[4..]) == z(s[4..]);
  }

  lemma NewsUploadLocal(s: seq<byte>, u: seq<byte>, z: Inflater)
    requires NewsUploadStep(s, z).Take? && SameStart(s, u, NewsUploadStep(s, z).end) && ZlibLike(z)
    ensures NewsUploadStep(u, z) == NewsUploadStep(s, z)
  {
    hide ReadFields, ReadInt32, PackageLen, SameStart;
    var end := NewsUploadStep(s, z).end;
    SameStartBounds(s, u, end);
    SameStartAt(s, u, end, 0);
    SameStartTail(s, u, 1, end);
    var ks := if s[0] % 2 == 1 then NEWS_HEADER else [];
    var h := ReadFields(ks, s[1..]).value.1;
    SameStartTail(s[1..], u[1..], h, end - 1);
    ReadFieldsLocal(ks, s[1..], u[1..]);
    if s[0] / 2 % 2 != 0 {
      SameStartTail(s, u, 1 + h, end);
      NewsPackageLocal(s, u, 1 + h, z);
    }
  }

  /** The part of a news body after its header. */
  function NewsPackageStep(s: seq<byte>, at: nat, z: Inflater): Step
    requires 1 <= at <= |s|
  {
    match ReadInt32(s[at..])
    case None => Short
    case Some((v, k)) =>
      var n := at + k;
      if s[0] % 2 == 1 then if v < 0 || v > |s| - n then AtZero else Take(0, n + v)
      else if |s| - n < 4 then AtZero
      else
        match PackageLen(z, s[n + 4..])
        case None => BadPackage
        case Some(m) => Take(0, n + 4 + m)
  }

  lemma NewsPackageLocal(s: seq<byte>, u: seq<byte>, at: nat, z: Inflater)
    requires 1 <= at <= |s| && NewsPackageStep(s, at, z).Take? && ZlibLike(z)
    requires SameStart(s, u, NewsPackageStep(s, at, z).end)
    ensures at <= |u| && NewsPackageStep(u, at, z) == NewsPackageStep(s, at, z)
  {
    hide ReadInt32, PackageLen, SameStart, ZlibLike;
    var end := NewsPackageStep(s, at, z).end;
    SameStartBounds(s, u, end);
    SameStartAt(s, u, end, 0);
    SameStartTail(s, u, at, end);
    var k := ReadInt32(s[at..]).value.1;
    SameStartTail(s[at..], u[at..], k, end - at);
    ReadInt32Local(s[at..], u[at..]);
    var n := at + k;
    if s[0] % 2 != 1 {
      SameStartTail(s, u, n + 4, end);
      PackageLocal(s[n + 4..], u[n + 4..], z);
    }
  }

  lemma QuotationLocal(s: seq<byte>, u: seq<byte>)
    requires QuotationStep(s).Take? && SameStart(s, u, QuotationStep(s).end)
    ensures QuotationStep(u) == QuotationStep(s)
  {
    hide ReadFields, ReadPacked, SameStart, OnesCount, MaskOf;
    var end := QuotationStep(s).end;
    SameStartBounds(s, u, end);
    SameStartTail(s, u, 4, end);
    var (mask, n) := ReadInt64(s[4..]).value;
    SameStartTail(s[4..], u[4..], n, end - 4);
    ReadPackedLocal(s[4..], u[4..], true);
    SameStartTail(s, u, 4 + n, end);
    ReadFieldsLocal(Repeat(KInt32, OnesCount(MaskOf(mask))), s[4 + n..], u[4 + n..]);
  }

  lemma SectionStepLocal(ks: seq<Kind>, x: Section, s: seq<byte>, u: seq<byte>)
    requires SectionStep(ks, x, s).Take? && SameStart(s, u, SectionStep(ks, x, s).end)
    ensures SectionStep(ks, x, u) == SectionStep(ks, x, s)
  {
    hide ReadFields, SectionLen, SameStart;
    var end, n := SectionStep(ks, x, s).end, ReadFields(ks, s).value.1;
    SameStartTail(s, u, n, end);
    SameStartBounds(s, u, end);
    ReadFieldsLocal(ks, s, u);
    SectionLocal(x, s[n..], u[n..]);
  }

  lemma ServerMessageLocal(s: seq<byte>, u: seq<byte>)
    requires ServerMessageStep(s).Take? && SameStart(s, u, ServerMessageStep(s).end)
    ensures ServerMessageStep(u) == ServerMessageStep(s)
  {
    hide ReadFields, SameStart;
    var n := ServerMessageStep(s).end;
    ReadFieldsLocal(SERVER_MESSAGE, s, u);
    ServerMessageLong(s);
    SameStartBounds(s, u, n);
    SameStartAt(s, u, n, 0);
    SameStartAt(s, u, n, 1);
  }

  lemma ServerMessageLong(s: seq<byte>)
    requires ReadFields(SERVER_MESSAGE, s).Some?
    ensures ReadFields(SERVER_MESSAGE, s).value.1 >= 2
  {
    assert SERVER_MESSAGE[0] == KByte && SERVER_MESSAGE[1..][0] == KByte;
  }

  lemma SizedLocal(s: seq<byte>, u: seq<byte>)
    ensures SizedStep(s).Take? && SameStart(s, u, SizedStep(s).end) ==> SizedStep(u) == SizedStep(s)
    ensures ByteSizedStep(s).Take? && SameStart(s, u, ByteSizedStep(s).end) ==> ByteSizedStep(u) == ByteSizedStep(s)
  {
    if SizedStep(s).Take? && SameStart(s, u, SizedStep(s).end) {
      SameStartTail(s, u, 2, SizedStep(s).end);
    }
    if ByteSizedStep(s).Take? && SameStart(s, u, ByteSizedStep(s).end) {
      SameStartAt(s, u, ByteSizedStep(s).end, 0);
    }
  }

  lemma LengthLocal(s: seq<byte>, u: seq<byte>)
    ensures SysParamsStep(s).Take? && SameStart(s, u, SysParamsStep(s).end) ==> SysParamsStep(u) == SysParamsStep(s)
    ensures FortsSessionStep(s, false).Take? && SameStart(s, u, FortsSessionStep(s, false).end)
            ==> FortsSessionStep(u, false) == FortsSessionStep(s, false)
  {
    hide ReadInt32, SameStart;
    if SysParamsStep(s).Take? && SameStart(s, u, SysParamsStep(s).end) {
      SameStartBounds(s, u, SysParamsStep(s).end);
      SameStartTail(s, u, ReadInt32(s).value.1, SysParamsStep(s).end);
      ReadInt32Local(s, u);
    }
    if FortsSessionStep(s, false).Take? && SameStart(s, u, FortsSessionStep(s, false).end) {
      ReadInt32Local(s, u);
    }
  }

  lemma FieldsStepLocal(ks: seq<Kind>, s: seq<byte>, u: seq<byte>)
    requires FieldsStep(ks, s).Take? && SameStart(s, u, FieldsStep(ks, s).end)
    ensures FieldsStep(ks, u) == FieldsStep(ks, s)
  {
    hide ReadFields;
    ReadFieldsLocal(ks, s, u);
  }

  /** Every record except a history record is recognised by its own bytes alone. */
  lemma StepLocal(tag: byte, s: seq<byte>, u: seq<byte>, z: Inflater)
    requires BodyStep(tag, s, false, z).Take? && SameStart(s, u, BodyStep(tag, s, false, z).end)
    requires tag != TAG_CANDLES && ZlibLike(z)
    ensures BodyStep(tag, u, false, z) == BodyStep(tag, s, false, z)
  {
    hide BodyStep, Sized, Layout, SectionOf, SizedStep, ByteSizedStep, ServerMessageStep, FieldsStep, SectionStep,
      SysParamsStep, FortsSessionStep, QuotationStep, NewsUploadStep, HistoryStep, ZlibLike, SameStart;
    StepCases(tag, s, false, z);
    StepCases(tag, u, false, z);
    if Sized(tag) || tag == TAG_READ_ICA {
      SizedLocal(s, u);
    } else if tag == TAG_SERVER_MESSAGE {
      ServerMessageLocal(s, u);
    } else if tag == TAG_FORTS_SESSION || tag == TAG_SYS_PARAMS {
      LengthLocal(s, u);
    } else if Layout(tag).Some? {
      FieldsStepLocal(Layout(tag).value, s, u);
    } else if SectionOf(tag).Some? {
      SectionStepLocal(SectionOf(tag).value.0, SectionOf(tag).value.1, s, u);
    } else if tag == TAG_QUOTATION {
      QuotationLocal(s, u);
    } else {
      NewsUploadLocal(s, u, z);
    }
  }

  lemma StepPrefix(tag: byte, s: seq<byte>, t: seq<byte>, z: Inflater)
    requires BodyStep(tag, s, false, z).Take? && tag != TAG_CANDLES && ZlibLike(z)
    ensures BodyStep(tag, s + t, false, z) == BodyStep(tag, s, false, z)
  {
    hide BodyStep, ZlibLike;
    StepInRange(tag, s, false, z);
    assert SameStart(s, s + t, BodyStep(tag, s, false, z).end);
    StepLocal(tag, s, s + t, z);
  }

  predicate KnownTag(tag: byte) {
    || Sized(tag) || Layout(tag).Some? || SectionOf(tag).Some?
    || tag in {TAG_READ_ICA, TAG_SERVER_MESSAGE, TAG_FORTS_SESSION, TAG_SYS_PARAMS, TAG_QUOTATION, TAG_NEWS_UPLOAD,
               TAG_CANDLES}
  }

  /** The dispatch on the tag, case by case. */
  lemma StepCases(tag: byte, s: seq<byte>, bounded: bool, z: Inflater)
    ensures var t := BodyStep(tag, s, bounded, z);
            && (Sized(tag) ==> t == SizedStep(s))
            && (tag == TAG_READ_ICA ==> t == ByteSizedStep(s) && !Sized(tag))
            && (tag == TAG_SERVER_MESSAGE ==> t == ServerMessageStep(s) && !Sized(tag))
            && (tag == TAG_FORTS_SESSION ==> t == FortsSessionStep(s, bounded) && !Sized(tag))
            && (tag == TAG_SYS_PARAMS ==> t == SysParamsStep(s) && !Sized(tag))
            && (tag == TAG_QUOTATION ==> t == QuotationStep(s) && !Sized(tag))
            && (tag == TAG_NEWS_UPLOAD ==> t == NewsUploadStep(s, z) && !Sized(tag))
            && (tag == TAG_CANDLES ==> t == HistoryStep(s) && !Sized(tag))
            && (Layout(tag).Some? ==> t == FieldsStep(Layout(tag).value, s) && SectionOf(tag).None?)
            && (SectionOf(tag).Some? ==> t == SectionStep(SectionOf(tag).value.0, SectionOf(tag).value.1, s))
            && (!KnownTag(tag) ==> t == AtTag)
            && (t.AtTag? ==> !KnownTag(tag) && tag != TAG_NEWS_UPLOAD)
            && (t.AtBody? ==> (tag == TAG_SERVER_MESSAGE || tag == TAG_URT_UPDATE) && tag != TAG_NEWS_UPLOAD)
            && (t.AtZero? ==> tag == TAG_NEWS_UPLOAD)
  {
    hide SizedStep, ByteSizedStep, ServerMessageStep, FieldsStep, SysParamsStep, QuotationStep, NewsUploadStep, HistoryStep,
      ReadFields, SectionLen, ReadInt32;
    StepFailures(s, bounded, z);
  }

  lemma StepFailures(s: seq<byte>, bounded: bool, z: Inflater)
    ensures var bad := {SizedStep(s), ByteSizedStep(s), SysParamsStep(s), QuotationStep(s), HistoryStep(s),
                        FortsSessionStep(s, bounded)};
            AtTag !in bad && AtBody !in bad && AtZero !in bad
    ensures forall ks :: FieldsStep(ks, s) !in {AtTag, AtBody, AtZero}
    ensures ServerMessageStep(s) !in {AtTag, AtZero}
    ensures NewsUploadStep(s, z) !in {AtTag, AtBody}
  {
    hide ReadFields, ReadInt32, HistoryLen;
  }

  // ---- composition ----

  /** No history record among the top-level records of p. */
  predicate NoHistory(p: seq<byte>, z: Inflater)
    decreases |p|
  {
    p != [] ==>
      && p[0] != TAG_CANDLES
      && var t := BodyStep(p[0], p[1..], false, z);
         t.Take? && t.end <= |p| - 1 ==> NoHistory(p[1..][t.end..], z)
  }

  lemma SplitUnfold(p: seq<byte>, off: nat, bounded: bool, z: Inflater)
    requires p != []
    ensures var t := BodyStep(p[0], p[1..], bounded, z);
            && (!t.Take? ==> SplitFrom(p, off, bounded, z) == Split([], Some(Locate(t, p[0], off))))
            && (t.Take? ==>
                  && t.from <= t.end <= |p[1..]|
                  && SplitFrom(p, off, bounded, z)
                     == Joined(Emit(p[0], p[1..][t.from..t.end], z),
                               SplitFrom(p[1..][t.end..], off + 1 + t.end, bounded, z)))
  {
    hide BodyStep, Emit;
    var t := BodyStep(p[0], p[1..], bounded, z);
    if t.Take? {
      StepInRange(p[0], p[1..], bounded, z);
    }
  }

  /** The records of a record and of the payload after it. */
  function Joined(e: Split, rest: Split): Split {
    if e.err.Some? then Split([], e.err) else Split(e.recs + rest.recs, rest.err)
  }

  /** If p splits without error and holds no history record, the records of p followed by q
      are the records of p, then those of q, whose offsets start after p; errors of q are
      reported as they are. */
  lemma {:induction false} SplitConcat(p: seq<byte>, q: seq<byte>, off: nat, z: Inflater)
    requires SplitFrom(p, off, false, z).err == None && NoHistory(p, z) && ZlibLike(z)
    ensures var a, b := SplitFrom(p, off, false, z), SplitFrom(q, off + |p|, false, z);
            SplitFrom(p + q, off, false, z) == Split(a.recs + b.recs, b.err)
    decreases |p|
  {
    hide BodyStep, Emit, SplitFrom;
    SplitEmpty(off, false, z);
    if p == [] {
      assert p + q == q;
      assert [] + SplitFrom(q, off, false, z).recs == SplitFrom(q, off, false, z).recs;
    } else {
      SplitUnfold(p, off, false, z);
      FirstOfConcat(p, q, off, z);
      var s, t := p[1..], BodyStep(p[0], p[1..], false, z);
      SplitConcat(s[t.end..], q, off + 1 + t.end, z);
      Associates(Emit(p[0], s[t.from..t.end], z).recs, SplitFrom(s[t.end..], off + 1 + t.end, false, z).recs,
                 SplitFrom(q, off + |p|, false, z).recs);
    }
  }

  lemma FirstOfConcat(p: seq<byte>, q: seq<byte>, off: nat, z: Inflater)
    requires p != [] && p[0] != TAG_CANDLES && ZlibLike(z) && BodyStep(p[0], p[1..], false, z).Take?
    ensures var s, t := p[1..], BodyStep(p[0], p[1..], false, z);
            && t.from <= t.end <= |s|
            && SplitFrom(p + q, off, false, z)
               == Joined(Emit(p[0], s[t.from..t.end], z), SplitFrom(s[t.end..] + q, off + 1 + t.end, false, z))
  {
    hide BodyStep, Emit, SplitFrom, ZlibLike;
    var s, t := p[1..], BodyStep(p[0], p[1..], false, z);
    StepInRange(p[0], s, false, z);
    SplitUnfold(p + q, off, false, z);
    assert (p + q)[1..] == s + q;
    StepPrefix(p[0], s, q, z);
    SliceConcat(s, q, t.from, t.end);
  }

  lemma SplitEmpty(off: nat, bounded: bool, z: Inflater)
    ensures SplitFrom([], off, bounded, z) == Split([], None)
  {
  }

  lemma SliceConcat(s: seq<byte>, q: seq<byte>, i: nat, j: nat)
    requires i <= j <= |s|
    ensures (s + q)[i..j] == s[i..j] && (s + q)[j..] == s[j..] + q
  {
  }

  lemma Associates(a: seq<Record>, b: seq<Record>, c: seq<Record>)
    ensures a + b + c == a + (b + c)
  {
  }

  /** The error of a payload placed k bytes later: an unknown news package keeps offset 0. */
  function Shifted(err: Option<SplitError>, k: nat): Option<SplitError> {
    match err
    case Some(Unknown(tag, o)) => Some(Unknown(tag, if tag == TAG_NEWS_UPLOAD then o else o + k))
    case _ => err
  }

  /** Only a news upload is reported at offset 0. */
  lemma OffsetKind(tag: byte, s: seq<byte>, bounded: bool, z: Inflater)
    ensures var t := BodyStep(tag, s, bounded, z);
            (t.AtZero? ==> tag == TAG_NEWS_UPLOAD) && (t.AtTag? || t.AtBody? ==> tag != TAG_NEWS_UPLOAD)
  {
    hide BodyStep;
    StepCases(tag, s, bounded, z);
  }

  lemma {:induction false} SplitShift(p: seq<byte>, off: nat, k: nat, bounded: bool, z: Inflater)
    ensures SplitFrom(p, off + k, bounded, z).recs == SplitFrom(p, off, bounded, z).recs
    ensures SplitFrom(p, off + k, bounded, z).err == Shifted(SplitFrom(p, off, bounded, z).err, k)
    decreases |p|
  {
    hide BodyStep, Emit, KnownTag, SplitFrom;
    SplitEmpty(off, bounded, z);
    SplitEmpty(off + k, bounded, z);
    if p != [] {
      SplitUnfold(p, off, bounded, z);
      SplitUnfold(p, off + k, bounded, z);
      OffsetKind(p[0], p[1..], bounded, z);
      var t := BodyStep(p[0], p[1..], bounded, z);
      if t.Take? {
        assert off + k + 1 + t.end == off + 1 + t.end + k;
        SplitShift(p[1..][t.end..], off + 1 + t.end, k, bounded, z);
      }
    }
  }

  /** One top-level record: its tag and all the bytes after it. */
  datatype Chunk = Chunk(tag: byte, raw: seq<byte>)

  predicate Complete(c: Chunk, z: Inflater) {
    var t := BodyStep(c.tag, c.raw, false, z);
    && c.tag != TAG_CANDLES && t.Take? && t.end == |c.raw| && t.from <= t.end
    && Emit(c.tag, c.raw[t.from..], z).err == None
  }

  function ChunkRecords(c: Chunk, z: Inflater): seq<Record> {
    var t := BodyStep(c.tag, c.raw, false, z);
    if t.Take? && t.from <= |c.raw| then Emit(c.tag, c.raw[t.from..], z).recs else []
  }

  function Serialize(cs: seq<Chunk>): seq<byte> {
    if cs == [] then [] else [cs[0].tag] + cs[0].raw + Serialize(cs[1..])
  }

  function AllRecords(cs: seq<Chunk>, z: Inflater): seq<Record> {
    if cs == [] then [] else ChunkRecords(cs[0], z) + AllRecords(cs[1..], z)
  }

  /** Splitting inverts writing any list of complete records one after another, and goes on
      with whatever follows them. */
  lemma {:induction false} SplitInvertsSerialize(cs: seq<Chunk>, rest: seq<byte>, off: nat, z: Inflater)
    requires (forall c <- cs :: Complete(c, z)) && ZlibLike(z)
    ensures var b := SplitFrom(rest, off + |Serialize(cs)|, false, z);
            SplitFrom(Serialize(cs) + rest, off, false, z) == Split(AllRecords(cs, z) + b.recs, b.err)
  {
    hide BodyStep, Emit, SplitFrom, Complete, ChunkRecords, ZlibLike;
    if cs == [] {
      assert Serialize(cs) + rest == rest;
      assert AllRecords(cs, z) + SplitFrom(rest, off, false, z).recs == SplitFrom(rest, off, false, z).recs;
    } else {
      assert cs[0] in cs && forall c <- cs[1..] :: c in cs;
      var c, tail := cs[0], Serialize(cs[1..]);
      var off' := off + 1 + |c.raw|;
      var b := SplitFrom(rest, off' + |tail|, false, z);
      Regroup([c.tag], c.raw, tail, rest);
      ChunkFirst(c, tail + rest, off, z);
      SplitInvertsSerialize(cs[1..], rest, off', z);
      Associates(ChunkRecords(c, z), AllRecords(cs[1..], z), b.recs);
    }
  }

  lemma Regroup(a: seq<byte>, b: seq<byte>, c: seq<byte>, d: seq<byte>)
    ensures a + b + c + d == a + (b + (c + d))
    ensures |a + b + c| == |a| + |b| + |c|
  {
  }

  lemma ChunkFirst(c: Chunk, more: seq<byte>, off: nat, z: Inflater)
    requires Complete(c, z) && ZlibLike(z)
    ensures var r := SplitFrom(more, off + 1 + |c.raw|, false, z);
            SplitFrom([c.tag] + (c.raw + more), off, false, z) == Split(ChunkRecords(c, z) + r.recs, r.err)
  {
    hide BodyStep, Emit, SplitFrom;
    var s := c.raw + more;
    assert ([c.tag] + s)[1..] == s;
    StepPrefix(c.tag, c.raw, more, z);
    var t := BodyStep(c.tag, c.raw, false, z);
    assert s[t.from..t.end] == c.raw[t.from..] && s[t.end..] == more;
    SplitUnfold([c.tag] + s, off, false, z);
  }

  // ---- which bodies are complete ----

  lemma SizedComplete(tag: byte, body: seq<byte>, z: Inflater)
    requires Sized(tag) && |body| < 0x1_0000
    ensures BodyStep(tag, Be16Bytes(|body|) + body, false, z) == Take(2, 2 + |body|)
    ensures (Be16Bytes(|body|) + body)[2..] == body
  {
    assert (Be16Bytes(|body|) + body)[..2] == Be16Bytes(|body|);
  }

  lemma FieldsComplete(tag: byte, fs: seq<Field>, z: Inflater)
    requires Layout(tag) == Some(Kinds(fs))
    ensures BodyStep(tag, FieldsBytes(fs), false, z) == Take(0, |FieldsBytes(fs)|)
  {
    hide Layout, SectionOf;
    StepCases(tag, FieldsBytes(fs), false, z);
    assert FieldsBytes(fs) + [] == FieldsBytes(fs);
    FieldsRoundTrip(fs, []);
  }

  function TurnsBytes(turns: seq<seq<Field>>, last: seq<Field>): seq<byte> {
    if turns == [] then FieldsBytes(last) else FieldsBytes(turns[0]) + TurnsBytes(turns[1..], last)
  }

  lemma {:induction false} TurnsComplete(x: Section, turns: seq<seq<Field>>, last: seq<Field>)
    requires forall fs <- turns :: NextTurn(x, FieldsBytes(fs)) == More(Kinds(fs))
    requires NextTurn(x, FieldsBytes(last)) == Last(Kinds(last))
    ensures SectionLen(x, TurnsBytes(turns, last)) == Some(|TurnsBytes(turns, last)|)
  {
    hide NextTurn, ReadFields;
    if turns == [] {
      assert FieldsBytes(last) + [] == FieldsBytes(last);
      FieldsRoundTrip(last, []);
    } else {
      var b, more := FieldsBytes(turns[0]), TurnsBytes(turns[1..], last);
      FieldsRoundTrip(turns[0], []);
      FieldsRoundTrip(turns[0], more);
      assert b + [] == b && SameStart(b, b + more, |b|);
      NextTurnLocal(x, b, b + more);
      assert (b + more)[|b|..] == more;
      TurnsComplete(x, turns[1..], last);
    }
  }

  /** Any head fields, turns and terminator of the right shapes form a complete record. */
  lemma SectionComplete(tag: byte, head: seq<Field>, turns: seq<seq<Field>>, last: seq<Field>, z: Inflater)
    requires SectionOf(tag).Some? && SectionOf(tag).value.0 == Kinds(head)
    requires var x := SectionOf(tag).value.1;
             && (forall fs <- turns :: NextTurn(x, FieldsBytes(fs)) == More(Kinds(fs)))
             && NextTurn(x, FieldsBytes(last)) == Last(Kinds(last))
    ensures var raw := FieldsBytes(head) + TurnsBytes(turns, last);
            BodyStep(tag, raw, false, z) == Take(0, |raw|)
  {
    hide SectionOf, Layout, NextTurn, ReadFields;
    var b, more := FieldsBytes(head), TurnsBytes(turns, last);
    StepCases(tag, b + more, false, z);
    FieldsRoundTrip(head, more);
    assert (b + more)[|b|..] == more;
    TurnsComplete(SectionOf(tag).value.1, turns, last);
  }

  /** A server message is complete exactly for the understood types and statuses. */
  lemma ServerMessageComplete(typ: byte, status: byte, text: seq<byte>, id: i64, z: Inflater)
    ensures var raw := FieldsBytes([FByte(typ), FByte(status), FString(text, 512), FInt64(id)]);
            BodyStep(TAG_SERVER_MESSAGE, raw, false, z)
            == if (typ == 1 || typ == 2) && status != 4 then Take(0, |raw|) else AtBody
  {
    hide FieldsBytes, ReadFields, BodyStep;
    var fs := [FByte(typ), FByte(status), FString(text, 512), FInt64(id)];
    var raw := FieldsBytes(fs);
    StepCases(TAG_SERVER_MESSAGE, raw, false, z);
    FieldsRoundTrip(fs, []);
    assert raw + [] == raw;
    FourKinds(fs);
    TwoBytesFirst(typ, status, fs);
  }

  lemma FourKinds(fs: seq<Field>)
    requires |fs| == 4 && fs[0].FByte? && fs[1].FByte? && fs[2].FString? && fs[2].max == 512 && fs[3].FInt64?
    ensures Kinds(fs) == SERVER_MESSAGE
  {
    assert Kinds(fs) == [KindOf(fs[0])] + Kinds(fs[1..]);
    assert Kinds(fs[1..]) == [KindOf(fs[1])] + Kinds(fs[2..]) && fs[1..][1..] == fs[2..];
    assert Kinds(fs[2..]) == [KindOf(fs[2])] + Kinds(fs[3..]) && fs[2..][1..] == fs[3..];
    assert Kinds(fs[3..]) == [KindOf(fs[3])] + Kinds([]) && fs[3..][1..] == [];
  }

  lemma TwoBytesFirst(a: byte, b: byte, fs: seq<Field>)
    requires |fs| >= 2 && fs[0] == FByte(a) && fs[1] == FByte(b)
    ensures |FieldsBytes(fs)| >= 2 && FieldsBytes(fs)[0] == a && FieldsBytes(fs)[1] == b
  {
    assert FieldsBytes(fs) == [a] + FieldsBytes(fs[1..]);
    assert FieldsBytes(fs[1..]) == [b] + FieldsBytes(fs[1..][1..]);
  }

  /** The length-prefixed records, and the session record where no end is known. */
  lemma PrefixedComplete(blob: seq<byte>, session: i32, z: Inflater)
    ensures |blob| <= -(MIN_INT32 + 1) ==>
              var raw := PackedBytes(|blob|) + blob; BodyStep(TAG_SYS_PARAMS, raw, false, z) == Take(0, |raw|)
    ensures |blob| < 0x100 ==>
              var raw := [|blob|] + blob; BodyStep(TAG_READ_ICA, raw, false, z) == Take(1, |raw|) && raw[1..] == blob
    ensures BodyStep(TAG_FORTS_SESSION, PackedBytes(session), false, z) == Take(0, |PackedBytes(session)|)
  {
    hide BodyStep, ReadInt32, PackedBytes;
    if |blob| <= -(MIN_INT32 + 1) {
      StepCases(TAG_SYS_PARAMS, PackedBytes(|blob|) + blob, false, z);
      Int32RoundTrip(|blob|, blob);
    }
    if |blob| < 0x100 {
      StepCases(TAG_READ_ICA, [|blob|] + blob, false, z);
    }
    StepCases(TAG_FORTS_SESSION, PackedBytes(session), false, z);
    Int32RoundTrip(session, []);
    assert PackedBytes(session) + [] == PackedBytes(session);
  }

  /** The package of a news upload: of stated size behind a header, else behind an identifier
      and four bytes and as long as its compressed stream. */
  function PackageBytes(flags: byte, id: i32, four: seq<byte>, package: seq<byte>): seq<byte>
    requires |package| <= -(MIN_INT32 + 1)
  {
    if flags / 2 % 2 == 0 then []
    else if flags % 2 == 1 then PackedBytes(|package|) + package
    else PackedBytes(id) + (four + package)
  }

  lemma PackageComplete(s: seq<byte>, at: nat, id: i32, four: seq<byte>, package: seq<byte>, z: Inflater)
    requires |package| <= -(MIN_INT32 + 1) && |four| == 4 && 1 <= at <= |s| && s[0] / 2 % 2 == 1
    requires s[at..] == PackageBytes(s[0], id, four, package)
    requires s[0] % 2 == 0 ==> PackageLen(z, package) == Some(|package|)
    ensures NewsPackageStep(s, at, z) == Take(0, |s|)
  {
    hide ReadInt32, PackedBytes, PackageLen;
    if s[0] % 2 == 1 {
      Int32RoundTrip(|package|, package);
    } else {
      Int32RoundTrip(id, four + package);
      var n := at + |PackedBytes(id)|;
      assert s[n + 4..] == s[at..][|PackedBytes(id)| + 4..] == package;
    }
  }

  lemma NewsUploadComplete(flags: byte, header: seq<Field>, id: i32, four: seq<byte>, package: seq<byte>, z: Inflater)
    requires Kinds(header) == (if flags % 2 == 1 then NEWS_HEADER else [])
    requires |package| <= -(MIN_INT32 + 1) && |four| == 4
    requires flags % 2 == 0 && flags / 2 % 2 == 1 ==> PackageLen(z, package) == Some(|package|)
    ensures var raw := [flags] + (FieldsBytes(header) + PackageBytes(flags, id, four, package));
            BodyStep(TAG_NEWS_UPLOAD, raw, false, z) == Take(0, |raw|)
  {
    hide BodyStep, ReadFields, ReadInt32, PackageLen, FieldsBytes, PackageBytes;
    var b, p := FieldsBytes(header), PackageBytes(flags, id, four, package);
    var raw := [flags] + (b + p);
    StepCases(TAG_NEWS_UPLOAD, raw, false, z);
    FieldsRoundTrip(header, p);
    assert raw[1..] == b + p && raw[1 + |b|..] == p;
    if flags / 2 % 2 == 1 {
      PackageComplete(raw, 1 + |b|, id, four, package, z);
      UploadIsPackage(raw, |b|, z);
    } else {
      NoPackage(flags, id, four, package);
    }
  }

  lemma NoPackage(flags: byte, id: i32, four: seq<byte>, package: seq<byte>)
    requires |package| <= -(MIN_INT32 + 1) && flags / 2 % 2 == 0
    ensures PackageBytes(flags, id, four, package) == []
  {
  }

  lemma UploadIsPackage(s: seq<byte>, h: nat, z: Inflater)
    requires |s| >= 1 && s[0] / 2 % 2 == 1
    requires var f := ReadFields(if s[0] % 2 == 1 then NEWS_HEADER else [], s[1..]); f.Some? && f.value.1 == h
    ensures 1 + h <= |s| && NewsUploadStep(s, z) == NewsPackageStep(s, 1 + h, z)
  {
    hide ReadFields, ReadInt32, PackageLen;
  }

  // ---- wrapper salvage ----

  /** An R_FORTS_SESSION record among the top-level records of a wrapper body. */
  predicate HasForts(p: seq<byte>, z: Inflater)
    decreases |p|
  {
    p != []
    && var t := BodyStep(p[0], p[1..], true, z);
       t.Take? && t.end < |p| && (p[0] == TAG_FORTS_SESSION || HasForts(p[1..][t.end..], z))
  }

  /** How an unknown record that stops a split is located relative to its tag. */
  function StopStep(p: seq<byte>, z: Inflater): Step
    decreases |p|
  {
    if p == [] then Take(0, 0)
    else
      var t := BodyStep(p[0], p[1..], true, z);
      if t.Take? && t.end < |p| then StopStep(p[1..][t.end..], z) else t
  }

  lemma BoundedStep(tag: byte, s: seq<byte>, z: Inflater)
    ensures tag != TAG_FORTS_SESSION ==> BodyStep(tag, s, true, z) == BodyStep(tag, s, false, z)
  {
  }

  /** The bytes before the reported offset of an unknown record at off + |p|. */
  ghost predicate Stopped(p: seq<byte>, off: nat, k: nat, z: Inflater) {
    var n := SplitFrom(p, off, true, z);
    n.err.Some? && n.err.value.Unknown? && !StopStep(p, z).AtZero? && n.err.value.offset == off + k
  }

  /** The first record of a stopped body and the rest of it. */
  lemma StoppedTail(p: seq<byte>, off: nat, k: nat, z: Inflater)
    requires p != [] && Stopped(p, off, k, z) && BodyStep(p[0], p[1..], true, z).Take?
    ensures var t := BodyStep(p[0], p[1..], true, z);
            && t.from <= t.end < |p| - 1 && p[0] != TAG_CANDLES && StopStep(p, z) == StopStep(p[1..][t.end..], z)
            && Emit(p[0], p[1..][t.from..t.end], z).err == None
            && SplitFrom(p, off, true, z)
               == Joined(Emit(p[0], p[1..][t.from..t.end], z), SplitFrom(p[1..][t.end..], off + 1 + t.end, true, z))
  {
    hide BodyStep, Emit, SplitFrom;
    SplitUnfold(p, off, true, z);
    var t := BodyStep(p[0], p[1..], true, z);
    EmitKnown(p[0], p[1..][t.from..t.end], z);
    SplitEmpty(off + 1 + t.end, true, z);
    HistoryTakesAll(p[1..], z);
    EmptyTail(p[1..], t.end);
  }

  lemma HistoryTakesAll(s: seq<byte>, z: Inflater)
    ensures var t := BodyStep(TAG_CANDLES, s, true, z); t.Take? ==> t.end == |s|
  {
  }

  lemma EmptyTail(s: seq<byte>, n: nat)
    requires n <= |s|
    ensures n == |s| ==> s[n..] == []
  {
  }

  lemma EmitKnown(tag: byte, body: seq<byte>, z: Inflater)
    ensures Emit(tag, body, z).err.Some? ==> !Emit(tag, body, z).err.value.Unknown?
  {
  }

  lemma TagAlone(tag: byte, off: nat, z: Inflater)
    requires tag == TAG_SERVER_MESSAGE || tag == TAG_URT_UPDATE
    ensures SplitFrom([tag], off, false, z).err.Some?
  {
    hide BodyStep, SplitFrom, Emit;
    var none: seq<byte> := [];
    assert [tag][1..] == none;
    StepCases(tag, none, false, z);
    assert SERVER_MESSAGE[0] == KByte;
    assert !BodyStep(tag, none, false, z).Take?;
    SplitUnfold([tag], off, false, z);
  }

  /** Only an unknown news package is reported before the bytes it was found in. */
  lemma {:induction false} StopOffset(p: seq<byte>, off: nat, z: Inflater)
    requires var n := SplitFrom(p, off, true, z); n.err.Some? && n.err.value.Unknown?
    ensures var o := SplitFrom(p, off, true, z).err.value.offset;
            if StopStep(p, z).AtZero? then o == 0 else o >= off
    decreases |p|
  {
    hide BodyStep, SplitFrom, Emit;
    SplitEmpty(off, true, z);
    SplitUnfold(p, off, true, z);
    var t := BodyStep(p[0], p[1..], true, z);
    if t.Take? {
      EmitKnown(p[0], p[1..][t.from..t.end], z);
      StopOffset(p[1..][t.end..], off + 1 + t.end, z);
    }
  }

  lemma FortsDiffers(p: seq<byte>, off: nat, off': nat, k: nat, z: Inflater)
    requires ZlibLike(z) && p != [] && Stopped(p, off, k, z) && p[0] == TAG_FORTS_SESSION && k <= |p|
    requires var t := BodyStep(p[0], p[1..], true, z); t.Take? && 1 + t.end <= k
    ensures SplitFrom(p[..k], off', false, z) != Split(SplitFrom(p, off, true, z).recs, None)
  {
    hide BodyStep, Emit, SplitFrom, ZlibLike, Stopped, StopStep;
    var s, s' := p[1..], p[..k][1..];
    var t := BodyStep(p[0], s, true, z);
    StoppedTail(p, off, k, z);
    FortsShorter(s, s', z);
    var t' := BodyStep(p[0], s', false, z);
    SplitUnfold(p[..k], off', false, z);
    EmitForts(s[t.from..t.end], z);
    EmitForts(s'[t'.from..t'.end], z);
    var rest := SplitFrom(s'[t'.end..], off' + 1 + t'.end, false, z);
    assert ([Record(p[0], s'[t'.from..t'.end])] + rest.recs)[0] != SplitFrom(p, off, true, z).recs[0];
  }

  lemma EmitForts(body: seq<byte>, z: Inflater)
    ensures Emit(TAG_FORTS_SESSION, body, z) == Split([Record(TAG_FORTS_SESSION, body)], None)
  {
  }

  /** Without the wrapper's end the optional byte is not taken. */
  lemma FortsShorter(s: seq<byte>, u: seq<byte>, z: Inflater)
    requires var t := BodyStep(TAG_FORTS_SESSION, s, true, z); t.Take? && t.end < |s| && SameStart(s, u, t.end)
    ensures var t, t' := BodyStep(TAG_FORTS_SESSION, s, true, z), BodyStep(TAG_FORTS_SESSION, u, false, z);
            t'.Take? && t'.from == t.from == 0 && t'.end + 1 == t.end
  {
    hide ReadInt32, SameStart, BodyStep;
    StepCases(TAG_FORTS_SESSION, s, true, z);
    StepCases(TAG_FORTS_SESSION, u, false, z);
    var n := ReadInt32(s).value.1;
    SameStartTail(s, u, n, n + 1);
    ReadInt32Local(s, u);
  }

  /** Splitting the bytes before the reported offset by themselves gives the records before it
      exactly when the offset is that of the tag and no record took an optional byte. */
  lemma {:induction false} Resplit(p: seq<byte>, off: nat, off': nat, k: nat, z: Inflater)
    requires ZlibLike(z) && Stopped(p, off, k, z)
    ensures k <= |p| && (StopStep(p, z).AtTag? || StopStep(p, z).AtBody?)
    ensures SplitFrom(p[..k], off', false, z) == Split(SplitFrom(p, off, true, z).recs, None)
       <==> StopStep(p, z).AtTag? && !HasForts(p, z)
    ensures StopStep(p, z).AtBody? && !HasForts(p, z) ==> SplitFrom(p[..k], off', false, z).err.Some?
    ensures HasForts(p, z) ==> SplitFrom(p, off, true, z).recs != []
    decreases |p|
  {
    hide BodyStep, Emit, SplitFrom, ZlibLike, KnownTag;
    SplitEmpty(off, true, z);
    SplitEmpty(off', false, z);
    SplitUnfold(p, off, true, z);
    var s := p[1..];
    var t := BodyStep(p[0], s, true, z);
    if !t.Take? {
      StepCases(p[0], s, true, z);
      assert k <= 1 && p[..k] == if k == 0 then [] else [p[0]];
      if t.AtBody? {
        TagAlone(p[0], off', z);
      }
    } else {
      StoppedTail(p, off, k, z);
      var q := s[t.end..];
      StopOffset(q, off + 1 + t.end, z);
      Resplit(q, off + 1 + t.end, off' + 1 + t.end, k - 1 - t.end, z);
      EmitForts(s[t.from..t.end], z);
      CutAt(p, k, t.from, t.end);
      if p[0] == TAG_FORTS_SESSION {
        FortsDiffers(p, off, off', k, z);
      } else {
        BoundedStep(p[0], s, z);
        StepLocal(p[0], s, p[..k][1..], z);
        SplitUnfold(p[..k], off', false, z);
        CancelRecords(Emit(p[0], s[t.from..t.end], z).recs, SplitFrom(q, off + 1 + t.end, true, z).recs,
                      SplitFrom(q[..k - 1 - t.end], off' + 1 + t.end, false, z).recs);
      }
    }
  }

  lemma CutAt(p: seq<byte>, k: nat, from: nat, end: nat)
    requires from <= end && end + 1 <= k <= |p|
    ensures p[..k][0] == p[0] && SameStart(p[1..], p[..k][1..], end)
    ensures p[..k][1..][from..end] == p[1..][from..end] && p[..k][1..][end..] == p[1..][end..][..k - 1 - end]
  {
  }

  lemma CancelRecords(a: seq<Record>, b: seq<Record>, c: seq<Record>)
    ensures a + b == a + c <==> b == c
  {
    if a + b == a + c {
      assert b == (a + b)[|a|..] && c == (a + c)[|a|..];
    }
  }

  /** A wrapper around an unknown nested record keeps the records before it, followed by the
      unknown rest, exactly when there were none or when the unknown record is of the default
      kind and no R_FORTS_SESSION record precedes it. */
  lemma SalvageExact(body: seq<byte>, z: Inflater)
    requires ZlibLike(z)
    requires var n := SplitFrom(body, 0, true, z); n.err.Some? && n.err.value.Unknown?
    ensures var n := SplitFrom(body, 0, true, z);
            var Unknown(tag, o) := n.err.value;
            Emit(TAG_WRAPPER, body, z) == Split(n.recs + [Record(tag, body[o..])], None)
            <==> n.recs == [] || (StopStep(body, z).AtTag? && !HasForts(body, z))
  {
    hide SplitFrom, StopStep, HasForts, ZlibLike, Emit;
    var n := SplitFrom(body, 0, true, z);
    var Unknown(tag, o) := n.err.value;
    StopOffset(body, 0, z);
    UnknownEmit(body, z);
    var inner := SplitFrom(body[..o], 0, false, z);
    var kept := if inner.err == None then inner.recs else [];
    var rest := [Record(tag, body[o..])];
    CancelLast(kept, n.recs, rest[0]);
    if StopStep(body, z).AtZero? {
      assert body[..o] == [];
      SplitEmpty(0, false, z);
    } else {
      Resplit(body, 0, 0, o, z);
    }
  }

  lemma CancelLast(a: seq<Record>, b: seq<Record>, r: Record)
    ensures a + [r] == b + [r] <==> a == b
  {
    if a + [r] == b + [r] {
      assert a == (a + [r])[..|a + [r]| - 1] && b == (b + [r])[..|b + [r]| - 1];
    }
  }

  lemma UnknownEmit(body: seq<byte>, z: Inflater)
    requires var n := SplitFrom(body, 0, true, z); n.err.Some? && n.err.value.Unknown?
    ensures var Unknown(tag, o) := SplitFrom(body, 0, true, z).err.value;
            var inner := SplitFrom(body[..o], 0, false, z);
            Emit(TAG_WRAPPER, body, z)
            == Split((if inner.err == None then inner.recs else []) + [Record(tag, body[o..])], None)
  {
    hide SplitFrom;
  }

  /** A complete record in front of an unterminated 0x69 is lost by the salvage. */
  lemma SalvageLosesRecords(z: Inflater)
    ensures var body := [0x18, 0x01, TAG_URT_UPDATE];
            && SplitFrom(body, 0, true, z) == Split([Record(0x18, [0x01])], Some(Unknown(TAG_URT_UPDATE, 3)))
            && Emit(TAG_WRAPPER, body, z) == Split([Record(TAG_URT_UPDATE, [])], None)
  {
    hide SplitFrom, Emit;
    var body: seq<byte> := [0x18, 0x01, TAG_URT_UPDATE];
    OneThenUrt(0, true, z);
    OneThenUrt(0, false, z);
    assert body[..3] == body && body[3..] == [];
    UnknownEmit(body, z);
  }

  lemma OneThenUrt(off: nat, bounded: bool, z: Inflater)
    ensures SplitFrom([0x18, 0x01, TAG_URT_UPDATE], off, bounded, z)
         == Split([Record(0x18, [0x01])], Some(Unknown(TAG_URT_UPDATE, off + 3)))
  {
    hide SplitFrom, BodyStep, Emit, ReadFields;
    var s: seq<byte> := [0x01, TAG_URT_UPDATE];
    var body := [0x18] + s;
    assert body[1..] == s && s[0..1] == [0x01] && s[1..] == [TAG_URT_UPDATE];
    StepCases(0x18, s, bounded, z);
    OneRaw(s);
    SplitUnfold(body, off, bounded, z);
    EmitPlain(0x18, [0x01], z);
    StepCases(TAG_URT_UPDATE, [], bounded, z);
    NoUrtEnd([]);
    var last: seq<byte> := [TAG_URT_UPDATE];
    assert last[1..] == [];
    SplitUnfold(last, off + 2, bounded, z);
    assert body == [0x18, 0x01, TAG_URT_UPDATE];
  }

  lemma OneRaw(s: seq<byte>)
    requires |s| >= 1
    ensures FieldsStep([KRaw(1)], s) == Take(0, 1)
  {
    var ks := [KRaw(1)];
    assert ReadFields(ks[1..], s[1..]) == Some(([], 0));
    assert ReadFields(ks, s).Some? && ReadFields(ks, s).value.1 == 1;
  }

  lemma NoUrtEnd(s: seq<byte>)
    requires s == []
    ensures SectionStep([], UrtUpdate, s) == AtBody
  {
    assert ReadFields([], s) == Some(([], 0));
    assert s[0..] == s;
    assert SectionLen(UrtUpdate, s) == None;
  }

  lemma EmitPlain(tag: byte, body: seq<byte>, z: Inflater)
    requires tag != TAG_WRAPPER
    ensures Emit(tag, body, z) == Split([Record(tag, body)], None)
  {
  }
}
