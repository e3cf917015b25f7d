/** The splitter as the loop it is: one reader advanced record by record, with recursion on
    wrapper bodies, proved against module Records. */
module Splitter {
  import opened Bytes
  import opened Codec
  import opened Payload
  import opened Records
  import Splitting

  method SkipField(r: Reader, k: Kind) returns (ok: bool)
    requires r.Valid()
    modifies r
    ensures r.Valid()
    ensures var f := ReadField(k, old(r.Remaining()));
            ok == f.Some? && (ok ==> r.off == old(r.off) + f.value.1)
  {
    match k {
      case KByte => var v := r.Byte(); ok := v.Some?;
      case KWord => var v := r.Uint16(); ok := v.Some?;
      case KRaw(n) => var v := r.Raw(n); ok := v.Some?;
      case KString(max) => var v := r.CString(max); ok := v.Some?;
      case KInt32 => var v := r.Int32(); ok := v.Some?;
      case KInt64 => var v := r.Int64(); ok := v.Some?;
    }
  }

  method SkipFields(r: Reader, ks: seq<Kind>) returns (ok: bool)
    requires r.Valid()
    modifies r
    ensures r.Valid()
    ensures var f := ReadFields(ks, old(r.Remaining()));
            ok == f.Some? && (ok ==> r.off == old(r.off) + f.value.1)
  {
    hide ReadField;
    ghost var all := ReadFields(ks, r.Remaining());
    assert ks[0..] == ks;
    for i := 0 to |ks|
      invariant r.Valid() && r.off >= old(r.off)
      invariant var f := ReadFields(ks[i..], r.Remaining());
                all.Some? == f.Some? && (f.Some? ==> all.value.1 == r.off - old(r.off) + f.value.1)
    {
      assert ks[i..][1..] == ks[i + 1..];
      ghost var rest := r.Remaining();
      var one := SkipField(r, ks[i]);
      if !one {
        return false;
      }
      assert r.Remaining() == rest[ReadField(ks[i], rest).value.1..];
    }
    ok := true;
  }

  method PeekTurn(r: Reader, x: Section) returns (t: Turn)
    requires r.Valid()
    ensures t == NextTurn(x, r.Remaining())
  {
    t := NextTurn(x, r.Remaining());
  }

  /** Reads turns until the one that ends the section. */
  method SkipSection(r: Reader, x: Section) returns (ok: bool)
    requires r.Valid()
    modifies r
    ensures r.Valid()
    ensures var f := SectionLen(x, old(r.Remaining()));
            ok == f.Some? && (ok ==> r.off == old(r.off) + f.value)
  {
    hide ReadFields, NextTurn;
    ghost var all := SectionLen(x, r.Remaining());
    while true
      invariant r.Valid() && r.off >= old(r.off)
      invariant var f := SectionLen(x, r.Remaining());
                all.Some? == f.Some? && (f.Some? ==> all.value == r.off - old(r.off) + f.value)
      decreases r.Len()
    {
      ghost var rest := r.Remaining();
      var t := PeekTurn(r, x);
      if t.Bad? {
        return false;
      }
      var one := SkipFields(r, t.ks);
      if !one {
        return false;
      }
      if t.Last? {
        return true;
      }
      TurnAdvances(x, rest);
      assert r.Remaining() == rest[ReadFields(t.ks, rest).value.1..];
    }
  }

  /** The bytes taken by n packed integers. */
  function IntsLen(n: nat, s: seq<byte>): (r: Option<nat>)
    ensures r.Some? ==> r.value <= |s|
  {
    match ReadFields(Repeat(KInt32, n), s)
    case None => None
    case Some((_, m)) => Some(m)
  }

  lemma IntsTurn(n: nat, s: seq<byte>)
    ensures n == 0 ==> IntsLen(n, s) == Some(0)
    ensures n > 0 && ReadInt32(s) == None ==> IntsLen(n, s) == None
    ensures n > 0 && ReadInt32(s).Some? ==>
              var k := ReadInt32(s).value.1;
              IntsLen(n, s) == match IntsLen(n - 1, s[k..]) case None => None case Some(m) => Some(k + m)
  {
    hide ReadInt32;
    if n > 0 {
      assert Repeat(KInt32, n)[1..] == Repeat(KInt32, n - 1);
    }
  }

  method SkipInts(r: Reader, n: nat) returns (ok: bool)
    requires r.Valid()
    modifies r
    ensures r.Valid()
    ensures var f := IntsLen(n, old(r.Remaining())); ok == f.Some? && (ok ==> r.off == old(r.off) + f.value)
  {
    hide ReadInt32, IntsLen;
    ghost var all := IntsLen(n, r.Remaining());
    for i := 0 to n
      invariant r.Valid() && r.off >= old(r.off)
      invariant var f := IntsLen(n - i, r.Remaining());
                all.Some? == f.Some? && (f.Some? ==> all.value == r.off - old(r.off) + f.value)
    {
      ghost var rest := r.Remaining();
      IntsTurn(n - i, rest);
      var v := r.Int32();
      if v == None {
        return false;
      }
      assert r.Remaining() == rest[ReadInt32(rest).value.1..];
    }
    IntsTurn(0, r.Remaining());
    ok := true;
  }

  method CountOnes(mask: nat) returns (n: nat)
    ensures n == OnesCount(mask)
  {
    var m := mask;
    n := 0;
    while m != 0
      invariant n + OnesCount(m) == OnesCount(mask)
    {
      n := n + m % 2;
      m := m / 2;
    }
  }

  method SkipQuotation(r: Reader) returns (t: Step)
    requires r.Valid()
    modifies r
    ensures r.Valid() && t == QuotationStep(old(r.Remaining())) && (t.Take? ==> r.off == old(r.off) + t.end)
  {
    hide ReadFields, ReadPacked, OnesCount;
    ghost var s := r.Remaining();
    var start := r.off;
    var secid := r.Uint16();
    if secid == None { return Short; }
    var board := r.Uint16();
    if board == None { return Short; }
    assert r.Remaining() == s[4..];
    var mask := r.Int64();
    if mask == None { return Short; }
    assert r.Remaining() == s[r.off - start..];
    var count := CountOnes(MaskOf(mask.value));
    var ok := SkipInts(r, count);
    t := if ok then Take(0, r.off - start) else Short;
  }

  method SkipHistory(r: Reader) returns (t: Step)
    requires r.Valid()
    modifies r
    ensures r.Valid() && t == HistoryStep(old(r.Remaining())) && (t.Take? ==> r.off == old(r.off) + t.end)
  {
    hide HistoryLen;
    ghost var s := r.Remaining();
    var start := r.off;
    var head := SkipFourBytes(r);
    if !head { return Short; }
    var period := r.Byte();
    if period == None { return Short; }
    var flag := r.Byte();
    if flag == None { return Short; }
    assert flag.value == s[5] && r.Remaining() == s[6..];
    var ok := SkipCandles(r, flag.value != 0);
    t := if ok && r.Len() == 0 then Take(0, r.off - start) else Short;
  }

  /** Candles until at most five bytes are left, then the status. */
  method SkipCandles(r: Reader, openInterest: bool) returns (ok: bool)
    requires r.Valid()
    modifies r
    ensures r.Valid()
    ensures var f := HistoryLen(old(r.Remaining()), openInterest);
            ok == f.Some? && (ok ==> r.off == old(r.off) + f.value)
  {
    hide ReadFields, ReadInt32, CandleKinds;
    ghost var all := HistoryLen(r.Remaining(), openInterest);
    while r.Len() > 0
      invariant r.Valid() && r.off >= old(r.off)
      invariant var f := HistoryLen(r.Remaining(), openInterest);
                all.Some? == f.Some? && (f.Some? ==> all.value == r.off - old(r.off) + f.value)
      decreases r.Len()
    {
      ghost var rest := r.Remaining();
      if r.Len() <= 5 {
        var status := r.Int32();
        return status.Some?;
      }
      var one := SkipFields(r, CandleKinds(openInterest));
      if !one { return false; }
      CandleAdvances(openInterest, rest);
      assert r.Remaining() == rest[ReadFields(CandleKinds(openInterest), rest).value.1..];
    }
    ok := true;
  }

  method SkipFourBytes(r: Reader) returns (ok: bool)
    requires r.Valid()
    modifies r
    ensures r.Valid() && ok == (old(r.Len()) >= 4) && (ok ==> r.off == old(r.off) + 4)
  {
    var secid := r.Uint16();
    if secid == None { return false; }
    var board := r.Uint16();
    ok := board.Some?;
  }

  method SkipNewsUpload(r: Reader, z: Inflater) returns (t: Step)
    requires r.Valid()
    modifies r
    ensures r.Valid() && t == NewsUploadStep(old(r.Remaining()), z) && (t.Take? ==> r.off == old(r.off) + t.end)
  {
    hide ReadFields, ReadInt32, PackageLen;
    ghost var s := r.Remaining();
    var start := r.off;
    var flags := r.Byte();
    if flags == None { return Short; }
    assert r.Remaining() == s[1..];
    var ok := SkipFields(r, if flags.value % 2 == 1 then NEWS_HEADER else []);
    if !ok { return Short; }
    assert r.Remaining() == s[r.off - start..];
    if flags.value / 2 % 2 != 0 {
      var v := r.Int32();
      if v == None { return Short; }
      if flags.value % 2 == 1 {
        if v.value < 0 || v.value > r.Len() { return AtZero; }
        var skipped := r.Skip(v.value);
      } else {
        var unknown := r.Skip(4);
        if !unknown { return AtZero; }
        assert r.Remaining() == s[r.off - start..];
        var n := PackageLen(z, r.Remaining());
        if n == None { return BadPackage; }
        var skipped := r.Skip(n.value);
      }
    }
    t := Take(0, r.off - start);
  }

  method SkipSized(r: Reader) returns (t: Step)
    requires r.Valid()
    modifies r
    ensures r.Valid() && t == SizedStep(old(r.Remaining())) && (t.Take? ==> r.off == old(r.off) + t.end)
  {
    var n := r.Uint16();
    if n == None { return Short; }
    var body := r.Raw(n.value);
    t := if body == None then Short else Take(2, 2 + n.value as int);
  }

  method SkipByteSized(r: Reader) returns (t: Step)
    requires r.Valid()
    modifies r
    ensures r.Valid() && t == ByteSizedStep(old(r.Remaining())) && (t.Take? ==> r.off == old(r.off) + t.end)
  {
    var n := r.Byte();
    if n == None { return Short; }
    var body := r.Raw(n.value);
    t := if body == None then Short else Take(1, 1 + n.value as int);
  }

  method SkipSysParams(r: Reader) returns (t: Step)
    requires r.Valid()
    modifies r
    ensures r.Valid() && t == SysParamsStep(old(r.Remaining())) && (t.Take? ==> r.off == old(r.off) + t.end)
  {
    hide ReadInt32;
    var start := r.off;
    var size := r.Int32();
    if size == None || size.value < 0 || size.value > r.Len() { return Short; }
    var blob := r.Raw(size.value);
    t := Take(0, r.off - start);
  }

  method SkipForts(r: Reader, bounded: bool) returns (t: Step)
    requires r.Valid()
    modifies r
    ensures r.Valid() && t == FortsSessionStep(old(r.Remaining()), bounded) && (t.Take? ==> r.off == old(r.off) + t.end)
  {
    hide ReadInt32;
    var start := r.off;
    var v := r.Int32();
    if v == None { return Short; }
    if bounded && r.Len() > 0 {
      var optional := r.Byte();
    }
    t := Take(0, r.off - start);
  }

  method SkipServerMessage(r: Reader) returns (t: Step)
    requires r.Valid()
    modifies r
    ensures r.Valid() && t == ServerMessageStep(old(r.Remaining())) && (t.Take? ==> r.off == old(r.off) + t.end)
  {
    hide ReadFields;
    ghost var s := r.Remaining();
    var start := r.off;
    var head := if r.Len() >= 2 then r.buf[r.off..r.off + 2] else [];
    assert |s| >= 2 ==> head == s[..2];
    var ok := SkipFields(r, SERVER_MESSAGE);
    if !ok { return Short; }
    if |head| < 2 || (head[0] != 1 && head[0] != 2) || head[1] == 4 { return AtBody; }
    t := Take(0, r.off - start);
  }

  /** Consumes one record body; the step says which bytes it was or how it failed. */
  method SkipBody(tag: byte, r: Reader, bounded: bool, z: Inflater) returns (t: Step)
    requires r.Valid()
    modifies r
    ensures r.Valid() && t == BodyStep(tag, old(r.Remaining()), bounded, z) && (t.Take? ==> r.off == old(r.off) + t.end)
  {
    hide ReadFields, SectionLen, SizedStep, ByteSizedStep, ServerMessageStep, SysParamsStep, FortsSessionStep,
      QuotationStep, NewsUploadStep, HistoryStep, Layout, SectionOf, Sized;
    ghost var s := r.Remaining();
    var start := r.off;
    if Sized(tag) {
      t := SkipSized(r);
    } else if tag == TAG_SERVER_MESSAGE {
      t := SkipServerMessage(r);
    } else if tag == TAG_FORTS_SESSION {
      t := SkipForts(r, bounded);
    } else if Layout(tag).Some? {
      var ok := SkipFields(r, Layout(tag).value);
      t := if ok then Take(0, r.off - start) else Short;
    } else if SectionOf(tag).Some? {
      var (ks, x) := SectionOf(tag).value;
      var ok := SkipFields(r, ks);
      if !ok { return Short; }
      assert r.Remaining() == s[r.off - start..];
      ok := SkipSection(r, x);
      t := if ok then Take(0, r.off - start) else if x == UrtUpdate then AtBody else Short;
    } else if tag == TAG_READ_ICA {
      t := SkipByteSized(r);
    } else if tag == TAG_QUOTATION {
      t := SkipQuotation(r);
    } else if tag == TAG_SYS_PARAMS {
      t := SkipSysParams(r);
    } else if tag == TAG_NEWS_UPLOAD {
      t := SkipNewsUpload(r, z);
    } else if tag == TAG_CANDLES {
      t := SkipHistory(r);
    } else {
      t := AtTag;
    }
  }

  function Prepend(out: seq<Record>, rest: Split): Split {
    Split(out + rest.recs, rest.err)
  }

  /** One turn of the splitter's loop, behind the records found so far. */
  lemma SplitTurn(out: seq<Record>, p: seq<byte>, off: nat, bounded: bool, z: Inflater)
    requires p != []
    ensures var all := Prepend(out, SplitFrom(p, off, bounded, z));
            var t := BodyStep(p[0], p[1..], bounded, z);
            if !t.Take? then all == Split(out, Some(Locate(t, p[0], off)))
            else
              t.from <= t.end <= |p[1..]| &&
              var e := Emit(p[0], p[1..][t.from..t.end], z);
              var rest := SplitFrom(p[1..][t.end..], off + 1 + t.end, bounded, z);
              all == if e.err.Some? then Split(out, e.err) else Prepend(out + e.recs, rest)
  {
    hide BodyStep, Emit, SplitFrom, Locate;
    Splitting.SplitUnfold(p, off, bounded, z);
    var t := BodyStep(p[0], p[1..], bounded, z);
    if t.Take? {
      var e := Emit(p[0], p[1..][t.from..t.end], z);
      var rest := SplitFrom(p[1..][t.end..], off + 1 + t.end, bounded, z);
      Splitting.Associates(out, e.recs, rest.recs);
    }
    assert out + [] == out;
  }

  lemma SplitEnds(out: seq<Record>, p: seq<byte>, off: nat, bounded: bool, z: Inflater)
    ensures Prepend([], SplitFrom(p, off, bounded, z)) == SplitFrom(p, off, bounded, z)
    ensures p == [] ==> Prepend(out, SplitFrom(p, off, bounded, z)) == Split(out, None)
  {
    var r := SplitFrom(p, off, bounded, z);
    assert [] + r.recs == r.recs;
  }

  /** Reads the tag and the body of the next record. */
  method NextRecord(r: Reader, bounded: bool, z: Inflater) returns (tag: byte, t: Step, body: seq<byte>)
    requires r.Valid() && r.Len() > 0
    modifies r
    ensures r.Valid() && old(r.Remaining()) != []
    ensures var p := old(r.Remaining());
            && tag == p[0] && t == BodyStep(tag, p[1..], bounded, z)
            && (t.Take? ==>
                  && t.from <= t.end <= |p[1..]| && body == p[1..][t.from..t.end]
                  && r.off == old(r.off) + 1 + t.end && r.Remaining() == p[1..][t.end..])
  {
    hide BodyStep;
    ghost var p := r.Remaining();
    var b := r.Byte();
    tag := b.value;
    var start := r.off;
    assert r.Remaining() == p[1..];
    StepInRangeIf(tag, p[1..], bounded, z);
    t := SkipBody(tag, r, bounded, z);
    body := [];
    if t.Take? {
      assert r.buf[start..] == p[1..];
      body := r.buf[start..][t.from..t.end];
      assert r.Remaining() == p[1..][t.end..];
    }
  }

  lemma StepInRangeIf(tag: byte, s: seq<byte>, bounded: bool, z: Inflater)
    ensures var t := BodyStep(tag, s, bounded, z); t.Take? ==> t.from <= t.end <= |s|
  {
    hide BodyStep;
    if BodyStep(tag, s, bounded, z).Take? {
      StepInRange(tag, s, bounded, z);
    }
  }

  /** Splits a payload, or a wrapper body when its end is known. */
  method SplitPayload(p: seq<byte>, bounded: bool, z: Inflater) returns (out: seq<Record>, err: Option<SplitError>)
    ensures Split(out, err) == SplitFrom(p, 0, bounded, z)
    decreases |p|, 0
  {
    hide BodyStep, Emit, SplitFrom, Prepend, Locate;
    out := [];
    var r := new Reader(p);
    SplitEnds(out, p, 0, bounded, z);
    ghost var rest := p;
    while r.Len() > 0
      invariant r.Valid() && fresh(r) && rest == r.Remaining() && |rest| <= |p|
      invariant SplitFrom(p, 0, bounded, z) == Prepend(out, SplitFrom(rest, r.off, bounded, z))
      decreases r.Len()
    {
      SplitTurn(out, rest, r.off, bounded, z);
      var start := r.off;
      var tag, t, body := NextRecord(r, bounded, z);
      if !t.Take? {
        return out, Some(Locate(t, tag, start));
      }
      var recs, bad := EmitBody(tag, body, z);
      if bad.Some? {
        return out, bad;
      }
      out := out + recs;
      rest := rest[1..][t.end..];
    }
    SplitEnds(out, rest, r.off, bounded, z);
    err := None;
  }

  method EmitBody(tag: byte, body: seq<byte>, z: Inflater) returns (recs: seq<Record>, err: Option<SplitError>)
    ensures Split(recs, err) == Emit(tag, body, z)
    decreases |body|, 1
  {
    hide SplitFrom;
    if tag != TAG_WRAPPER {
      return [Record(tag, body)], None;
    }
    recs, err := SplitPayload(body, true, z);
    match err {
      case None =>
      case Some(Unknown(t, o)) =>
        var inner, bad := SplitPayload(body[..o], false, z);
        recs := (if bad == None then inner else []) + [Record(t, body[o..])];
        err := None;
      case Some(_) =>
        recs := [];
    }
  }
}
