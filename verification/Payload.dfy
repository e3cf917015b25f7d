/** The payload writer and reader objects, proved against the encodings of module Codec. */
module Payload {
  import opened Bytes
  import opened Codec

  /** The position of the first NUL, or -1. */
  method IndexNul(s: seq<byte>) returns (i: int)
    ensures i == if NulIndex(s) < |s| then NulIndex(s) else -1
  {
    for j := 0 to |s|
      invariant 0 !in s[..j]
    {
      if s[j] == 0 {
        NulIndexUnique(s, j);
        return j;
      }
    }
    assert s[..|s|] == s;
    i := -1;
  }

  /** The little-endian digits of m in a buffer of eight bytes, and their number. */
  method Digits(m: nat) returns (ext: seq<byte>, n: nat)
    requires ByteLen(m) <= 8
    ensures |ext| == 8 && n == ByteLen(m) && ext[..n] == LeBytes(m, n)
    ensures forall j :: n <= j < 8 ==> ext[j] == 0
  {
    var rest := m;
    ext, n := [0, 0, 0, 0, 0, 0, 0, 0], 0;
    while rest != 0
      invariant |ext| == 8 && n + ByteLen(rest) == ByteLen(m)
      invariant LeBytes(m, ByteLen(m)) == ext[..n] + LeBytes(rest, ByteLen(rest))
      invariant forall j :: n <= j < 8 ==> ext[j] == 0
      decreases rest
    {
      DigitMoves(ext, n, rest);
      ext := ext[n := rest % 0x100];
      rest := rest / 0x100;
      n := n + 1;
    }
  }

  lemma DigitMoves(ext: seq<byte>, n: nat, m: nat)
    requires m > 0 && n < |ext|
    ensures ByteLen(m) == 1 + ByteLen(m / 0x100)
    ensures ext[..n] + LeBytes(m, ByteLen(m))
         == ext[n := m % 0x100][..n + 1] + LeBytes(m / 0x100, ByteLen(m / 0x100))
  {
    hide LeBytes, ByteLen;
    FirstDigit(m);
    PushDigit(ext, n, m % 0x100, LeBytes(m / 0x100, ByteLen(m / 0x100)));
  }

  lemma FirstDigit(m: nat)
    requires m > 0
    ensures ByteLen(m) == 1 + ByteLen(m / 0x100)
    ensures LeBytes(m, ByteLen(m)) == [m % 0x100] + LeBytes(m / 0x100, ByteLen(m / 0x100))
  {
  }

  lemma PushDigit(ext: seq<byte>, n: nat, d: byte, more: seq<byte>)
    requires n < |ext|
    ensures ext[..n] + ([d] + more) == ext[n := d][..n + 1] + more
  {
    assert ext[n := d][..n + 1] == ext[..n] + [d];
  }

  /** Appends the packed form of v. */
  method AppendPacked(buf: seq<byte>, v: i64) returns (r: seq<byte>)
    ensures r == buf + PackedBytes(v)
  {
    var sign := 0;
    var m: nat := if v < 0 then 0 else v;
    if v < 0 {
      sign := 8;
      m := -(v as int);
      if v == MIN_INT32 || v == MIN_INT64 {
        m := 0;
      }
    }
    assert m == Magnitude(v);
    hide *;
    MagnitudeBytes(v, m);
    var ext, n := Digits(m / 16);
    var count := n;
    if n == 7 {
      n, count := 8, 7;
      PadDigits(ext, m / 16);
    }
    if n == 8 {
      count := 7;
    }
    var head := [m % 16 * 16 + sign + count];
    PackedForm(v, n, head + ext[..n]);
    r := buf + head;
    r := r + ext[..n];
  }

  lemma MagnitudeBytes(v: i64, m: nat)
    requires m == Magnitude(v)
    ensures ByteLen(m / 16) <= 8 && ExtraBytes(v) == if ByteLen(m / 16) == 7 then 8 else ByteLen(m / 16)
  {
    ExtraBytesBound(v);
  }

  lemma PadDigits(ext: seq<byte>, m: nat)
    requires |ext| == 8 && ByteLen(m) == 7 && ext[..7] == LeBytes(m, 7) && ext[7] == 0
    ensures ext[..8] == LeBytes(m, 8)
  {
    hide LeBytes, ByteLen;
    ByteLenBound(m, 7);
    LeBytesPadded(m, 7);
    assert ext[..8] == ext[..7] + [0];
  }

  lemma PackedForm(v: i64, n: nat, b: seq<byte>)
    requires n == ExtraBytes(v) <= 8
    requires b == [Magnitude(v) % 16 * 16 + (if v < 0 then 8 else 0) + (if n == 8 then 7 else n)]
                  + LeBytes(Magnitude(v) / 16, n)
    ensures b == PackedBytes(v)
  {
  }

  class Writer {
    var buf: seq<byte>

    constructor ()
      ensures buf == []
    {
      buf := [];
    }

    method Byte(v: byte)
      modifies this
      ensures buf == old(buf) + FieldBytes(FByte(v))
    {
      buf := buf + [v];
    }

    method Uint16(v: u16)
      modifies this
      ensures buf == old(buf) + FieldBytes(FWord(v))
    {
      buf := buf + Be16Bytes(v);
    }

    method String(s: seq<byte>, max: nat)
      modifies this
      ensures buf == old(buf) + FieldBytes(FString(s, max))
    {
      var t := s;
      var i := IndexNul(t);
      if i >= 0 {
        t := t[..i];
      }
      assert t == s[..NulIndex(s)];
      if |t| > max {
        t := t[..max];
      }
      buf := buf + t + [0];
    }

    method Raw(b: seq<byte>)
      modifies this
      ensures buf == old(buf) + FieldBytes(FRaw(b))
    {
      buf := buf + b;
    }

    method Int32(v: i32)
      modifies this
      ensures buf == old(buf) + FieldBytes(FInt32(v))
    {
      buf := AppendPacked(buf, v);
    }

    method Int64(v: i64)
      modifies this
      ensures buf == old(buf) + FieldBytes(FInt64(v))
    {
      buf := AppendPacked(buf, v);
    }
  }

  class Reader {
    const buf: seq<byte>
    var off: nat

    ghost predicate Valid()
      reads this
    {
      off <= |buf|
    }

    /** The unread bytes. */
    function Remaining(): seq<byte>
      requires Valid()
      reads this
    {
      buf[off..]
    }

    constructor (b: seq<byte>)
      ensures Valid() && buf == b && off == 0 && Remaining() == b
    {
      buf := b;
      off := 0;
    }

    function Len(): nat
      requires Valid()
      reads this
    {
      |buf| - off
    }

    method Skip(n: int) returns (ok: bool)
      requires Valid()
      modifies this
      ensures Valid() && ok == (0 <= n <= old(Len()))
      ensures off == if ok then old(off) + n else old(off)
    {
      ok := 0 <= n <= Len();
      if ok {
        off := off + n;
      }
    }

    method Byte() returns (r: Option<byte>)
      requires Valid()
      modifies this
      ensures Valid() && r.Some? == (old(Len()) >= 1)
      ensures r.Some? ==> r.value == old(Remaining())[0] && off == old(off) + 1
      ensures r.None? ==> off == old(off)
    {
      if Len() < 1 {
        return None;
      }
      off := off + 1;
      r := Some(buf[off - 1]);
    }

    method Uint16() returns (r: Option<u16>)
      requires Valid()
      modifies this
      ensures Valid() && r.Some? == (old(Len()) >= 2)
      ensures r.Some? ==> r.value == Be16(old(Remaining())[..2]) && off == old(off) + 2
      ensures r.None? ==> off == old(off)
    {
      if Len() < 2 {
        return None;
      }
      off := off + 2;
      r := Some(Be16(buf[off - 2..off]));
      assert buf[off - 2..off] == buf[off - 2..][..2];
    }

    method Raw(n: int) returns (r: Option<seq<byte>>)
      requires Valid()
      modifies this
      ensures Valid() && r.Some? == (0 <= n <= old(Len()))
      ensures r.Some? ==> r.value == old(Remaining())[..n] && off == old(off) + n
      ensures r.None? ==> off == old(off)
    {
      if n < 0 || Len() < n {
        return None;
      }
      off := off + n;
      r := Some(buf[off - n..off]);
      assert buf[off - n..off] == buf[off - n..][..n];
    }

    /** On failure the position is unchanged. */
    method String(max: nat) returns (r: Option<seq<byte>>)
      requires Valid()
      modifies this
      ensures Valid()
      ensures var s := ReadString(old(Remaining()), max);
              if s.Some? then r == Some(s.value.0) && off == old(off) + s.value.1
              else r == None && off == old(off)
    {
      ghost var rest := Remaining();
      var i := off;
      while i < |buf| && i - off <= max
        invariant off <= i <= |buf| && i - off <= max + 1 && off == old(off)
        invariant 0 !in rest[..i - off]
        decreases |buf| - i
      {
        if buf[i] == 0 {
          NulIndexUnique(rest, i - off);
          assert buf[off..i] == rest[..i - off];
          r := Some(buf[off..i]);
          off := i + 1;
          return;
        }
        assert rest[..i - off + 1] == rest[..i - off] + [buf[i]];
        i := i + 1;
      }
      NulNotBefore(rest, i - off);
      r := None;
    }

    /** The splitter's own string reader: the same strings, but a failure consumes what it
        looked at. */
    method CString(max: nat) returns (r: Option<seq<byte>>)
      requires Valid()
      modifies this
      ensures Valid()
      ensures var s := ReadString(old(Remaining()), max);
              if s.Some? then r == Some(s.value.0) && off == old(off) + s.value.1
              else r == None && off == old(off) + if old(Len()) <= max then old(Len()) else max + 1
    {
      ghost var rest := Remaining();
      var out: seq<byte> := [];
      for i := 0 to max + 1
        invariant Valid() && off == old(off) + i && i <= |rest|
        invariant out == rest[..i] && 0 !in out
      {
        var b := Byte();
        if b == None {
          NulNotBefore(rest, i);
          return None;
        }
        assert b.value == rest[i];
        if b.value == 0 {
          NulIndexUnique(rest, i);
          return Some(out);
        }
        if i == max {
          assert rest[..i + 1] == out + [rest[i]];
          NulNotBefore(rest, i + 1);
          return None;
        }
        out := out + [b.value];
      }
      r := None;
    }

    /** The n bytes after the head as a little-endian number. */
    method Above(n: nat) returns (m: nat)
      requires Valid() && n + 1 <= Len()
      ensures m == LeValue(Remaining()[1..n + 1])
    {
      ghost var rest := Remaining();
      m := 0;
      var i := n;
      assert rest[n + 1..n + 1] == [];
      while i >= 1
        invariant 0 <= i <= n && m == LeValue(rest[i + 1..n + 1])
      {
        assert rest[i..n + 1][1..] == rest[i + 1..n + 1];
        m := m * 0x100 + buf[off + i];
        i := i - 1;
      }
    }

    method Packed(wide: bool) returns (r: Option<i64>)
      requires Valid()
      modifies this
      ensures Valid()
      ensures var p := ReadPacked(old(Remaining()), wide);
              if p.Some? then r == Some(p.value.0) && off == old(off) + p.value.1
              else r == None && off == old(off)
    {
      hide LeValue;
      if Len() < 1 {
        return None;
      }
      var head := buf[off];
      var n := head % 8;
      if wide && n == 7 {
        n := 8;
      }
      if Len() < n + 1 {
        return None;
      }
      var m := Above(n);
      off := off + n + 1;
      var u := (m * 16 + head / 16) % TWO64;
      if head / 8 % 2 != 0 {
        if u == 0 {
          return Some(MIN_INT64);
        }
        return Some(Wrap64(-u));
      }
      r := Some(Wrap64(u));
    }

    method Int32() returns (r: Option<i32>)
      requires Valid()
      modifies this
      ensures Valid()
      ensures var p := ReadInt32(old(Remaining()));
              if p.Some? then r == Some(p.value.0) && off == old(off) + p.value.1
              else r == None && off == old(off)
    {
      hide PackedValue;
      var v := Packed(false);
      match v {
        case None => r := None;
        case Some(x) => r := Some(if x == MIN_INT64 then MIN_INT32 else Wrap32(x));
      }
    }

    method Int64() returns (r: Option<i64>)
      requires Valid()
      modifies this
      ensures Valid()
      ensures var p := ReadInt64(old(Remaining()));
              if p.Some? then r == Some(p.value.0) && off == old(off) + p.value.1
              else r == None && off == old(off)
    {
      r := Packed(true);
    }
  }
}
