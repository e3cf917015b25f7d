/** TRANSAQ frames on the wire. Header (8 bytes, two CRCs) and payload each start the cipher
    anew from one key and one synchronization value. */
module Frame {
  import opened Bytes
  import opened Crc16
  import opened Gost

  const HEADER_SIZE := 8
  const MAX_PAYLOAD := 0xfff0
  const FLAG_PLAIN: byte := 0x80

  datatype Direction = ClientToServer | ServerToClient

  datatype Packet = Packet(flags: byte, typ: byte, payload: seq<byte>)

  datatype Keys = Keys(cipher: Cipher, sync: Block)

  datatype Outcome =
    | Decoded(packet: Packet)
    | ShortRead
    | HeaderCRC
    | TooLarge
    | PayloadCRC(flags: byte, typ: byte)

  /** A byte stream; ReadFull takes exactly n bytes or drains a shorter stream and fails. */
  class ByteSource {
    var buf: seq<byte>

    constructor (b: seq<byte>)
      ensures buf == b
    {
      buf := b;
    }

    method ReadFull(n: nat) returns (r: Option<seq<byte>>)
      modifies this
      ensures |old(buf)| >= n ==> r == Some(old(buf)[..n]) && buf == old(buf)[n..]
      ensures |old(buf)| < n ==> r == None && buf == []
    {
      if |buf| >= n {
        r, buf := Some(buf[..n]), buf[n..];
      } else {
        r, buf := None, [];
      }
    }
  }

  // ---- specification ----

  function Encrypted(k: Keys, dir: Direction, s: seq<byte>): (r: seq<byte>)
    ensures |r| == |s|
  {
    if dir == ClientToServer then Gamma(k.cipher, k.sync, s) else CfbEncrypt(k.cipher, k.sync, s)
  }

  function Decrypted(k: Keys, dir: Direction, s: seq<byte>): (r: seq<byte>)
    ensures |r| == |s|
  {
    if dir == ClientToServer then Gamma(k.cipher, k.sync, s) else CfbDecrypt(k.cipher, k.sync, s)
  }

  lemma DecryptedEncrypted(k: Keys, dir: Direction, s: seq<byte>)
    ensures Decrypted(k, dir, Encrypted(k, dir, s)) == s
  {
    GammaIsInvolution(k.cipher, k.sync, s);
    CfbRoundTrip(k.cipher, k.sync, s);
  }

  /** What is left of the flags a client is given: the top bit goes, so its frames are never plain. */
  function SentFlags(dir: Direction, flags: byte): byte {
    if dir == ClientToServer then flags % FLAG_PLAIN else flags
  }

  function HeaderFields(flags: byte, typ: byte, payload: seq<byte>): (d: seq<byte>)
    requires |payload| <= MAX_PAYLOAD
    ensures |d| == 6
  {
    [flags, typ] + Be16Bytes(|payload|) + Be16Bytes(CRC16(payload))
  }

  function Header(flags: byte, typ: byte, payload: seq<byte>): Block
    requires |payload| <= MAX_PAYLOAD
  {
    var d := HeaderFields(flags, typ, payload);
    d + Be16Bytes(CRC16(d))
  }

  function Body(k: Keys, dir: Direction, flags: byte, payload: seq<byte>): (r: seq<byte>)
    ensures |r| == |payload|
  {
    if flags < FLAG_PLAIN then Encrypted(k, dir, payload) else payload
  }

  function EncodeFrame(k: Keys, dir: Direction, f: Packet): Option<seq<byte>> {
    if |f.payload| > MAX_PAYLOAD then None
    else
      var flags := SentFlags(dir, f.flags);
      Some(Encrypted(k, dir, Header(flags, f.typ, f.payload)) + Body(k, dir, flags, f.payload))
  }

  function DecodeFrame(k: Keys, dir: Direction, s: seq<byte>): (Outcome, seq<byte>) {
    if |s| < HEADER_SIZE then (ShortRead, [])
    else DecodeBody(k, dir, Decrypted(k, dir, s[..HEADER_SIZE]), s[HEADER_SIZE..])
  }

  /** The rest of decoding, after the plain header h. */
  function DecodeBody(k: Keys, dir: Direction, h: Block, s: seq<byte>): (Outcome, seq<byte>) {
    if Be16(h[6..]) != CRC16(h[..6]) then (HeaderCRC, s)
    else
      var n := Be16(h[2..4]);
      if n > MAX_PAYLOAD then (TooLarge, s)
      else if |s| < n then (ShortRead, [])
      else
        var payload := if h[0] < FLAG_PLAIN then Decrypted(k, dir, s[..n]) else s[..n];
        if Be16(h[4..6]) != CRC16(payload) then (PayloadCRC(h[0], h[1]), s[n..])
        else (Decoded(Packet(h[0], h[1], payload)), s[n..])
  }

  // ---- the in-place algorithms ----

  method EncryptInPlace(k: Keys, dir: Direction, b: array<byte>, lo: nat, hi: nat)
    requires lo <= hi <= b.Length
    modifies b
    ensures b[..] == old(b[..])[..lo] + Encrypted(k, dir, old(b[..])[lo..hi]) + old(b[..])[hi..]
  {
    if dir == ClientToServer {
      GammaInPlace(k.cipher, k.sync, b, b, lo, hi);
    } else {
      CfbEncryptInPlace(k.cipher, k.sync, b, b, lo, hi);
    }
  }

  method DecryptInPlace(k: Keys, dir: Direction, b: array<byte>)
    modifies b
    ensures b[..] == Decrypted(k, dir, old(b[..]))
  {
    hide Gamma, CfbDecrypt;
    ghost var text := b[..];
    assert text[0..b.Length] == text && text[..0] == text[b.Length..] == [];
    if dir == ClientToServer {
      GammaInPlace(k.cipher, k.sync, b, b, 0, b.Length);
    } else {
      CfbDecryptInPlace(k.cipher, k.sync, b, b, 0, b.Length);
    }
  }

  method NewBuffer(s: seq<byte>) returns (a: array<byte>)
    ensures fresh(a) && a[..] == s
  {
    a := new byte[|s|](i requires 0 <= i < |s| => s[i]);
  }

  method Encode(k: Keys, dir: Direction, f: Packet) returns (r: Option<array<byte>>)
    ensures r.Some? <==> EncodeFrame(k, dir, f).Some?
    ensures r.Some? ==> fresh(r.value) && r.value[..] == EncodeFrame(k, dir, f).value
  {
    hide Encrypted, CRC16, Be16Bytes;
    if |f.payload| > MAX_PAYLOAD {
      return None;
    }
    var flags := f.flags;
    if dir == ClientToServer {
      flags := flags % FLAG_PLAIN;
    }
    var bodyCRC := ComputeCRC16(f.payload);
    var fields := [flags, f.typ] + Be16Bytes(|f.payload|) + Be16Bytes(bodyCRC);
    var headCRC := ComputeCRC16(fields);
    var h, p := fields + Be16Bytes(headCRC), f.payload;
    assert h == Header(flags, f.typ, p);
    var out := NewBuffer(h + p);
    EncryptParts(k, dir, out, h, p, flags);
    r := Some(out);
  }

  method EncryptParts(k: Keys, dir: Direction, out: array<byte>, ghost h: Block, ghost p: seq<byte>, flags: byte)
    requires out[..] == h + p
    modifies out
    ensures out[..] == Encrypted(k, dir, h) + Body(k, dir, flags, p)
  {
    hide Encrypted;
    TwoParts(h, p);
    EncryptInPlace(k, dir, out, 0, HEADER_SIZE);
    ghost var e := Encrypted(k, dir, h);
    assert out[..] == e + p;
    TwoParts(e, p);
    if out.Length > HEADER_SIZE && flags < FLAG_PLAIN {
      EncryptInPlace(k, dir, out, HEADER_SIZE, out.Length);
    }
    EmptyBody(k, dir);
  }

  lemma TwoParts(h: seq<byte>, p: seq<byte>)
    ensures var s := h + p; s[..0] == [] && s[0..|h|] == s[..|h|] == h && s[|h|..|s|] == s[|h|..] == p && s[|s|..] == []
  {
  }

  lemma EmptyBody(k: Keys, dir: Direction)
    ensures Encrypted(k, dir, []) == []
  {
  }

  method Decode(k: Keys, dir: Direction, r: ByteSource) returns (o: Outcome)
    modifies r
    ensures (o, r.buf) == DecodeFrame(k, dir, old(r.buf))
  {
    hide Decrypted, CRC16;
    ghost var s := r.buf;
    var head := r.ReadFull(HEADER_SIZE);
    if head == None {
      return ShortRead;
    }
    var hdr := NewBuffer(head.value);
    DecryptInPlace(k, dir, hdr);
    var h: Block := hdr[..];
    var headCRC := ComputeCRC16(h[..6]);
    if Be16(h[6..]) != headCRC {
      return HeaderCRC;
    }
    var n := Be16(h[2..4]);
    if n > MAX_PAYLOAD {
      return TooLarge;
    }
    var body := r.ReadFull(n);
    if body == None {
      return ShortRead;
    }
    var buf := NewBuffer(body.value);
    if n > 0 && h[0] < FLAG_PLAIN {
      DecryptInPlace(k, dir, buf);
    } else if n == 0 {
      EmptyText(k, dir);
      assert buf[..] == [];
    }
    var payload := buf[..];
    var bodyCRC := ComputeCRC16(payload);
    if Be16(h[4..6]) != bodyCRC {
      return PayloadCRC(h[0], h[1]);
    }
    o := Decoded(Packet(h[0], h[1], payload));
  }

  lemma EmptyText(k: Keys, dir: Direction)
    ensures Decrypted(k, dir, []) == []
  {
  }

  // ---- round trips ----

  lemma HeaderReads(flags: byte, typ: byte, payload: seq<byte>)
    requires |payload| <= MAX_PAYLOAD
    ensures var h := Header(flags, typ, payload);
            && h[0] == flags && h[1] == typ && Be16(h[2..4]) == |payload|
            && Be16(h[4..6]) == CRC16(payload)
            && h[..6] == HeaderFields(flags, typ, payload) && Be16(h[6..]) == CRC16(h[..6])
  {
    hide CRC16;
    var d := HeaderFields(flags, typ, payload);
    var h := Header(flags, typ, payload);
    assert h[..6] == d && h[6..] == Be16Bytes(CRC16(d));
    assert h[2..4] == Be16Bytes(|payload|) && h[4..6] == Be16Bytes(CRC16(payload));
  }

  /** Decoding an encoded frame in either direction gives the frame back, the client's flags
      reduced to seven bits, and leaves exactly the bytes that follow it. */
  lemma FrameRoundTrip(k: Keys, dir: Direction, f: Packet, rest: seq<byte>)
    requires |f.payload| <= MAX_PAYLOAD
    ensures DecodeFrame(k, dir, EncodeFrame(k, dir, f).value + rest)
         == (Decoded(f.(flags := SentFlags(dir, f.flags))), rest)
  {
    hide CRC16, Encrypted, Decrypted;
    var flags := SentFlags(dir, f.flags);
    var h, b := Header(flags, f.typ, f.payload), Body(k, dir, flags, f.payload);
    var s := EncodeFrame(k, dir, f).value + rest;
    assert s[..HEADER_SIZE] == Encrypted(k, dir, h) && s[HEADER_SIZE..] == b + rest;
    DecryptedEncrypted(k, dir, h);
    HeaderReads(flags, f.typ, f.payload);
    DecryptedEncrypted(k, dir, f.payload);
    assert (b + rest)[..|b|] == b && (b + rest)[|b|..] == rest;
  }

  // ---- the form of a frame ----

  function Plain(k: Keys, dir: Direction, s: seq<byte>): seq<byte> {
    if dir == ClientToServer then Gamma(k.cipher, k.sync, s) else CfbDecrypt(k.cipher, k.sync, s)
  }

  /** The bytes e carry flags, type and payload: an encrypted header of eight bytes with the
      big-endian length, the remainder of the plain payload and that of the first six bytes,
      and the payload, plain if the top flag is set, else encrypted from the start again. */
  ghost predicate IsFrame(k: Keys, dir: Direction, e: seq<byte>, flags: byte, typ: byte, payload: seq<byte>) {
    && |e| == 8 + |payload| && |payload| <= 65520
    && var h := Plain(k, dir, e[..8]);
       && |h| == 8 && h[0] == flags && h[1] == typ && 0x100 * (h[2] as int) + h[3] as int == |payload|
       && IsRemainder(payload, Be16([h[4], h[5]])) && IsRemainder(h[..6], Be16([h[6], h[7]]))
       && (if flags >= 0x80 then e[8..] else Plain(k, dir, e[8..])) == payload
  }

  lemma PlainIsDecrypted(k: Keys, dir: Direction, s: seq<byte>)
    ensures Plain(k, dir, s) == Decrypted(k, dir, s)
    ensures Encrypted(k, dir, Plain(k, dir, s)) == s
  {
    GammaIsInvolution(k.cipher, k.sync, s);
    CfbIsOnto(k.cipher, k.sync, s);
  }

  /** Exactly which streams start with a frame, and which one: decoding is no more and no less
      than recognising the form. */
  lemma DecodedExactly(k: Keys, dir: Direction, s: seq<byte>, p: Packet, rest: seq<byte>)
    ensures DecodeFrame(k, dir, s) == (Decoded(p), rest)
       <==> 8 + |p.payload| <= |s| && rest == s[8 + |p.payload|..]
            && IsFrame(k, dir, s[..8 + |p.payload|], p.flags, p.typ, p.payload)
  {
    hide CRC16, IsRemainder, Plain, Decrypted, Encrypted;
    var n := 8 + |p.payload|;
    if |s| >= 8 {
      PlainIsDecrypted(k, dir, s[..8]);
      var h := Decrypted(k, dir, s[..8]);
      assert h[2..4] == [h[2], h[3]] && h[4..6] == [h[4], h[5]] && h[6..] == [h[6], h[7]];
      ChecksumIsRemainder(p.payload, Be16([h[4], h[5]]));
      ChecksumIsRemainder(h[..6], Be16([h[6], h[7]]));
      if n <= |s| {
        assert s[..n][..8] == s[..8] && s[..n][8..] == s[8..][..|p.payload|] && s[8..][|p.payload|..] == s[n..];
        PlainIsDecrypted(k, dir, s[..n][8..]);
      }
    }
  }

  /** Exactly how a stream is refused: a header that is no message with its own remainder, a
      length beyond 65520, and a stream that ends too early; what is left is a damaged payload. */
  lemma RefusedExactly(k: Keys, dir: Direction, s: seq<byte>)
    ensures DecodeFrame(k, dir, s).0 == ShortRead <== |s| < 8
    ensures |s| >= 8 ==>
              var o, h := DecodeFrame(k, dir, s).0, Plain(k, dir, s[..8]);
              && |h| == 8
              && var n, sound := 0x100 * (h[2] as int) + h[3] as int, IsRemainder(h[..6], Be16([h[6], h[7]]));
                 && (o == HeaderCRC <==> !sound) && (o == TooLarge <==> sound && n > 65520)
                 && (o == ShortRead <==> sound && n <= 65520 && |s| < 8 + n)
                 && (o.PayloadCRC? || o.Decoded? <==> sound && n <= 65520 && 8 + n <= |s|)
                 && (o.PayloadCRC? ==> o == PayloadCRC(h[0], h[1]) && DecodeFrame(k, dir, s).1 == s[8 + n..])
  {
    hide CRC16, IsRemainder, Plain, Decrypted, Encrypted;
    if |s| >= 8 {
      PlainIsDecrypted(k, dir, s[..8]);
      var h := Decrypted(k, dir, s[..8]);
      assert h[2..4] == [h[2], h[3]] && h[6..] == [h[6], h[7]];
      ChecksumIsRemainder(h[..6], Be16([h[6], h[7]]));
      var n := Be16(h[2..4]);
      assert 8 + n <= |s| ==> s[8..][n..] == s[8 + n..];
    }
  }

  /** A packet is encoded as the one sequence of bytes that has its form, and not at all if its
      payload is longer than 65520 bytes. */
  lemma EncodedExactly(k: Keys, dir: Direction, f: Packet, e: seq<byte>)
    ensures EncodeFrame(k, dir, f) == Some(e)
       <==> IsFrame(k, dir, e, if dir == ClientToServer then f.flags % 0x80 else f.flags, f.typ, f.payload)
    ensures EncodeFrame(k, dir, f) == None <==> |f.payload| > 65520
  {
    hide CRC16, IsRemainder, Plain, Decrypted, Encrypted, IsFrame, DecodeFrame;
    if |f.payload| <= 65520 {
      var flags := SentFlags(dir, f.flags);
      var good := EncodeFrame(k, dir, f).value;
      FrameRoundTrip(k, dir, f, []);
      DecodedExactly(k, dir, good, f.(flags := flags), []);
      assert good + [] == good && good[..|good|] == good;
      EncodedLength(k, dir, f);
      if IsFrame(k, dir, e, flags, f.typ, f.payload) {
        SameForm(k, dir, e, good, flags, f.typ, f.payload);
      }
    } else {
      TooLong(k, dir, e, if dir == ClientToServer then f.flags % 0x80 else f.flags, f.typ, f.payload);
    }
  }

  lemma TooLong(k: Keys, dir: Direction, e: seq<byte>, flags: byte, typ: byte, payload: seq<byte>)
    requires |payload| > 65520
    ensures !IsFrame(k, dir, e, flags, typ, payload)
  {
  }

  lemma EncodedLength(k: Keys, dir: Direction, f: Packet)
    requires |f.payload| <= 65520
    ensures |EncodeFrame(k, dir, f).value| == 8 + |f.payload|
  {
  }

  /** The form leaves nothing open. */
  lemma SameForm(k: Keys, dir: Direction, a: seq<byte>, b: seq<byte>, flags: byte, typ: byte, payload: seq<byte>)
    requires IsFrame(k, dir, a, flags, typ, payload) && IsFrame(k, dir, b, flags, typ, payload)
    ensures a == b
  {
    hide CRC16, IsRemainder, Plain, Encrypted;
    var g, h := Plain(k, dir, a[..8]), Plain(k, dir, b[..8]);
    ChecksumIsRemainder(payload, Be16([g[4], g[5]]));
    ChecksumIsRemainder(payload, Be16([h[4], h[5]]));
    SameWords(g, h);
    assert g[..6] == h[..6];
    ChecksumIsRemainder(g[..6], Be16([g[6], g[7]]));
    ChecksumIsRemainder(h[..6], Be16([h[6], h[7]]));
    SameWords(g, h);
    assert g == h;
    PlainIsDecrypted(k, dir, a[..8]);
    PlainIsDecrypted(k, dir, b[..8]);
    PlainIsDecrypted(k, dir, a[8..]);
    PlainIsDecrypted(k, dir, b[8..]);
    assert a == a[..8] + a[8..] && b == b[..8] + b[8..];
  }

  lemma SameWords(g: seq<byte>, h: seq<byte>)
    requires |g| == |h| == 8
    ensures Be16([g[4], g[5]]) == Be16([h[4], h[5]]) ==> g[4] == h[4] && g[5] == h[5]
    ensures Be16([g[6], g[7]]) == Be16([h[6], h[7]]) ==> g[6] == h[6] && g[7] == h[7]
    ensures 0x100 * (g[2] as int) + g[3] as int == 0x100 * (h[2] as int) + h[3] as int ==> g[2] == h[2] && g[3] == h[3]
  {
  }

  function EncodeAll(k: Keys, dir: Direction, fs: seq<Packet>): seq<byte>
    requires forall f <- fs :: |f.payload| <= MAX_PAYLOAD
  {
    if fs == [] then [] else EncodeFrame(k, dir, fs[0]).value + EncodeAll(k, dir, fs[1..])
  }

  /** Reads frames until the first failure; returns them, the failure and the bytes left. */
  function DecodeAll(k: Keys, dir: Direction, s: seq<byte>): (seq<Packet>, Outcome, seq<byte>)
    decreases |s|
  {
    var (o, rest) := DecodeFrame(k, dir, s);
    if !o.Decoded? then ([], o, rest)
    else
      DecodeConsumes(k, dir, s);
      var (fs, end, left) := DecodeAll(k, dir, rest);
      ([o.packet] + fs, end, left)
  }

  lemma DecodeConsumes(k: Keys, dir: Direction, s: seq<byte>)
    ensures var (o, rest) := DecodeFrame(k, dir, s);
            o.Decoded? ==> |s| == HEADER_SIZE + |o.packet.payload| + |rest| && rest == s[|s| - |rest|..]
  {
    hide CRC16, Decrypted;
    var n := |DecodeFrame(k, dir, s).1|;
    assert HEADER_SIZE <= |s| - n <= |s| ==> s[HEADER_SIZE..][|s| - n - HEADER_SIZE..] == s[|s| - n..];
  }

  function Received(dir: Direction, fs: seq<Packet>): (r: seq<Packet>)
    ensures |r| == |fs|
  {
    seq(|fs|, i requires 0 <= i < |fs| => fs[i].(flags := SentFlags(dir, fs[i].flags)))
  }

  /** A stream of frames decodes to the same frames, then continues with what follows. */
  lemma {:induction false} StreamRoundTrip(k: Keys, dir: Direction, fs: seq<Packet>, rest: seq<byte>)
    requires forall f <- fs :: |f.payload| <= MAX_PAYLOAD
    ensures var (tail, end, left) := DecodeAll(k, dir, rest);
            DecodeAll(k, dir, EncodeAll(k, dir, fs) + rest) == (Received(dir, fs) + tail, end, left)
  {
    hide DecodeFrame, Encrypted, Header, Body;
    if fs == [] {
      assert EncodeAll(k, dir, fs) + rest == rest;
      assert Received(dir, fs) + DecodeAll(k, dir, rest).0 == DecodeAll(k, dir, rest).0;
    } else {
      var more := EncodeAll(k, dir, fs[1..]) + rest;
      assert EncodeAll(k, dir, fs) + rest == EncodeFrame(k, dir, fs[0]).value + more;
      FrameRoundTrip(k, dir, fs[0], more);
      StreamRoundTrip(k, dir, fs[1..], rest);
      var tail := DecodeAll(k, dir, rest).0;
      assert Received(dir, fs) + tail
          == [fs[0].(flags := SentFlags(dir, fs[0].flags))] + (Received(dir, fs[1..]) + tail);
    }
  }

  // ---- error detection ----

  /** t differs from s, and only inside the w bytes at i. */
  predicate Burst(s: seq<byte>, t: seq<byte>, i: nat, w: nat) {
    && |s| == |t| && i + w <= |s| && 1 <= w <= 2 && s != t
    && s[..i] == t[..i] && s[i + w..] == t[i + w..]
  }

  predicate SamePlaces(s: seq<byte>, t: seq<byte>, s': seq<byte>, t': seq<byte>) {
    && |s| == |t| == |s'| == |t'|
    && forall j :: 0 <= j < |s| ==> (s[j] == t[j] <==> s'[j] == t'[j])
  }

  lemma BurstChangesCRC(s: seq<byte>, t: seq<byte>, i: nat, w: nat)
    requires Burst(s, t, i, w)
    ensures CRC16(s) != CRC16(t)
  {
    hide CRC16;
    var p, x, y, q := s[..i], s[i..i + w], t[i..i + w], s[i + w..];
    assert s == p + x + q && t == p + y + q;
    BurstChangesChecksum(p, x, y, q);
  }

  lemma SamePlacesBurst(s: seq<byte>, t: seq<byte>, s': seq<byte>, t': seq<byte>, i: nat, w: nat)
    requires Burst(s, t, i, w) && SamePlaces(s, t, s', t')
    ensures Burst(s', t', i, w)
  {
    assert forall j :: 0 <= j < i ==> s[j] == s[..i][j] && t[j] == t[..i][j];
    assert forall j :: i + w <= j < |s| ==> s[j] == s[i + w..][j - i - w] && t[j] == t[i + w..][j - i - w];
    assert exists j :: 0 <= j < |s| && s[j] != t[j] && s'[j] != t'[j];
  }

  /** A header is one cipher block, so both modes keep the places of differences in it. */
  lemma HeaderPlaces(k: Keys, dir: Direction, s: Block, t: Block)
    ensures SamePlaces(s, t, Decrypted(k, dir, s), Decrypted(k, dir, t))
  {
    forall j | 0 <= j < 8
      ensures s[j] == t[j] <==> Decrypted(k, dir, s)[j] == Decrypted(k, dir, t)[j]
    {
      if dir == ClientToServer {
        GammaPreservesPositions(k.cipher, k.sync, s, t, j);
      } else {
        Xor8Cancel(s[j], CfbBlock(k.cipher, k.sync)[j]);
        Xor8Cancel(t[j], CfbBlock(k.cipher, k.sync)[j]);
      }
    }
  }

  lemma GammaPlaces(k: Keys, s: seq<byte>, t: seq<byte>)
    requires |s| == |t|
    ensures SamePlaces(s, t, Decrypted(k, ClientToServer, s), Decrypted(k, ClientToServer, t))
  {
    forall j | 0 <= j < |s|
      ensures s[j] == t[j] <==> Decrypted(k, ClientToServer, s)[j] == Decrypted(k, ClientToServer, t)[j]
    {
      GammaPreservesPositions(k.cipher, k.sync, s, t, j);
    }
  }

  lemma CfbPlaces(k: Keys, s: seq<byte>, t: seq<byte>, m: nat)
    requires |s| == |t| && 8 * m <= |s| <= 8 * m + 8 && s[..8 * m] == t[..8 * m]
    ensures SamePlaces(s, t, Decrypted(k, ServerToClient, s), Decrypted(k, ServerToClient, t))
  {
    forall j | 0 <= j < |s|
      ensures s[j] == t[j] <==> Decrypted(k, ServerToClient, s)[j] == Decrypted(k, ServerToClient, t)[j]
    {
      CfbKeepsLastBlock(k.cipher, k.sync, s, t, m, j);
    }
  }

  /** Position i of a frame lies in the last cipher block of a payload of n bytes. */
  predicate InLastBlock(n: nat, i: nat) {
    n > 0 && i >= HEADER_SIZE + 8 * ((n - 1) / 8)
  }

  lemma DamagedHeader(h: Block, h': Block, i: nat, w: nat)
    requires Be16(h[6..]) == CRC16(h[..6]) && Burst(h, h', i, w)
    ensures Be16(h'[6..]) != CRC16(h'[..6])
  {
    hide CRC16;
    assert h == h[..6] + h[6..] && h' == h'[..6] + h'[6..];
    ChecksumIsResidueZero(h[..6], h[6..]);
    ChecksumIsResidueZero(h'[..6], h'[6..]);
    BurstChangesCRC(h, h', i, w);
  }

  /** A burst within one byte or two adjacent bytes of a frame is rejected, whatever its
      length and whatever follows it: always when it reaches the header, for a payload that was
      sent by the client or in plain form, and in the last cipher block of any payload. */
  lemma DamagedFrameRejected(k: Keys, dir: Direction, f: Packet, c: seq<byte>, i: nat, w: nat, rest: seq<byte>)
    requires |f.payload| <= MAX_PAYLOAD
    requires Burst(EncodeFrame(k, dir, f).value, c, i, w)
    requires var e := EncodeFrame(k, dir, f).value;
             || e[..HEADER_SIZE] != c[..HEADER_SIZE] || dir == ClientToServer || f.flags >= FLAG_PLAIN
             || InLastBlock(|f.payload|, i)
    ensures DecodeFrame(k, dir, c + rest)
         == if EncodeFrame(k, dir, f).value[..HEADER_SIZE] != c[..HEADER_SIZE]
            then (HeaderCRC, c[HEADER_SIZE..] + rest)
            else (PayloadCRC(SentFlags(dir, f.flags), f.typ), rest)
  {
    hide CRC16, Encrypted, Decrypted;
    var flags := SentFlags(dir, f.flags);
    var h, b := Header(flags, f.typ, f.payload), Body(k, dir, flags, f.payload);
    var e := EncodeFrame(k, dir, f).value;
    var e8, c8 := e[..HEADER_SIZE], c[..HEADER_SIZE];
    assert e8 == Encrypted(k, dir, h) && e[HEADER_SIZE..] == b;
    DecryptedEncrypted(k, dir, h);
    HeaderReads(flags, f.typ, f.payload);
    assert (c + rest)[..HEADER_SIZE] == c8 && (c + rest)[HEADER_SIZE..] == c[HEADER_SIZE..] + rest;
    if e8 != c8 {
      BurstPrefix(e, c, i, w, HEADER_SIZE);
      HeaderPlaces(k, dir, e8, c8);
      var v := if i + w <= HEADER_SIZE then w else HEADER_SIZE - i;
      SamePlacesBurst(e8, c8, h, Decrypted(k, dir, c8), i, v);
      DamagedHeader(h, Decrypted(k, dir, c8), i, v);
    } else {
      DamagedPayload(k, dir, flags, f.payload, e, c, i, w);
      var x := c[HEADER_SIZE..];
      assert (x + rest)[..|x|] == x && (x + rest)[|x|..] == rest;
    }
  }

  lemma PrefixDiffers(s: seq<byte>, t: seq<byte>, i: nat, n: nat)
    requires |s| == |t| && i <= |s| && n <= |s| && s[..i] == t[..i] && s[..n] != t[..n]
    ensures i < n
  {
    var j :| 0 <= j < n && s[..n][j] != t[..n][j];
    assert forall m :: 0 <= m < i ==> s[m] == s[..i][m] && t[m] == t[..i][m];
  }

  lemma SuffixDiffers(s: seq<byte>, t: seq<byte>, i: nat, n: nat)
    requires |s| == |t| && i <= |s| && n <= |s| && s[i..] == t[i..] && s[n..] != t[n..]
    ensures i > n
  {
    var j :| 0 <= j < |s| - n && s[n..][j] != t[n..][j];
    assert forall m :: i <= m < |s| ==> s[m] == s[i..][m - i] && t[m] == t[i..][m - i];
  }

  lemma BurstPrefix(s: seq<byte>, t: seq<byte>, i: nat, w: nat, n: nat)
    requires Burst(s, t, i, w) && n <= |s| && s[..n] != t[..n]
    ensures i < n && Burst(s[..n], t[..n], i, if i + w <= n then w else n - i)
  {
    assert i < n by { PrefixDiffers(s, t, i, n); }
    assert s[..n][..i] == s[..i] && t[..n][..i] == t[..i];
    assert i + w <= n ==> s[..n][i + w..] == s[i + w..][..n - i - w] && t[..n][i + w..] == t[i + w..][..n - i - w];
  }

  lemma BurstSuffix(s: seq<byte>, t: seq<byte>, i: nat, w: nat, n: nat)
    requires Burst(s, t, i, w) && n <= |s| && s[..n] == t[..n]
    ensures i + w > n
    ensures Burst(s[n..], t[n..], if i >= n then i - n else 0, if i >= n then w else i + w - n)
  {
    assert s == s[..n] + s[n..] && t == t[..n] + t[n..];
    assert i + w > n by { SuffixDiffers(s, t, i + w, n); }
    var j, v := if i >= n then i - n else 0, if i >= n then w else i + w - n;
    assert i >= n ==> s[n..][..j] == s[..i][n..] && t[n..][..j] == t[..i][n..];
    assert s[n..][j + v..] == s[i + w..] && t[n..][j + v..] == t[i + w..];
  }

  lemma DamagedPayload(k: Keys, dir: Direction, flags: byte, p: seq<byte>, e: seq<byte>, c: seq<byte>, i: nat, w: nat)
    requires Burst(e, c, i, w) && HEADER_SIZE <= |e| && e[..HEADER_SIZE] == c[..HEADER_SIZE]
    requires e[HEADER_SIZE..] == Body(k, dir, flags, p)
    requires dir == ClientToServer || flags >= FLAG_PLAIN || InLastBlock(|p|, i)
    ensures var x := c[HEADER_SIZE..];
            CRC16(if flags < FLAG_PLAIN then Decrypted(k, dir, x) else x) != CRC16(p)
  {
    hide CRC16, Encrypted, Decrypted;
    var y, x := e[HEADER_SIZE..], c[HEADER_SIZE..];
    BurstSuffix(e, c, i, w, HEADER_SIZE);
    var j, v := if i >= HEADER_SIZE then i - HEADER_SIZE else 0, if i >= HEADER_SIZE then w else i + w - HEADER_SIZE;
    if flags < FLAG_PLAIN {
      DecryptedEncrypted(k, dir, p);
      if dir == ClientToServer {
        GammaPlaces(k, y, x);
      } else {
        var m := (|p| - 1) / 8;
        assert y[..8 * m] == y[..j][..8 * m] && x[..8 * m] == x[..j][..8 * m];
        CfbPlaces(k, y, x, m);
      }
      SamePlacesBurst(y, x, p, Decrypted(k, dir, x), j, v);
      BurstChangesCRC(p, Decrypted(k, dir, x), j, v);
    } else {
      BurstChangesCRC(p, x, j, v);
    }
  }
}
