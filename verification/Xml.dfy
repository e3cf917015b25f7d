/** The text escapes of the XML layer: CDATA sections, the predefined entities, and the order in
    which the pits of a security are written. */
module Xml {
  import opened Bytes

  const OPEN := "<![CDATA["
  const CLOSE := "]]>"
  const SPLIT := "]]]]><![CDATA[>"

  predicate StartsWith(s: string, p: string) { |p| <= |s| && s[..|p|] == p }

  predicate AtClose(s: string) { |s| >= 3 && s[0] == ']' && s[1] == ']' && s[2] == '>' }

  // ---- CDATA sections ----

  /** Every "]]>" of the text is split between two sections. */
  function Cdata(s: string): string {
    if s == [] then ""
    else if AtClose(s) then SPLIT + Cdata(s[3..])
    else [s[0]] + Cdata(s[1..])
  }

  /** The text of a run of CDATA sections: each ends at its first "]]>". */
  function ReadSections(t: string): Option<string>
    decreases |t|, 1
  {
    if t == [] then Some("")
    else if StartsWith(t, OPEN) then ReadContent(t[9..])
    else None
  }

  function ReadContent(t: string): Option<string>
    decreases |t|, 0
  {
    if t == [] then None
    else if AtClose(t) then ReadSections(t[3..])
    else Prepend([t[0]], ReadContent(t[1..]))
  }

  function Prepend(s: string, r: Option<string>): Option<string> {
    match r case None => None case Some(text) => Some(s + text)
  }

  /** Escaping never makes a "]]>" where the text has none. */
  lemma NoNewClose(s: string)
    requires s != [] && !AtClose(s)
    ensures !AtClose(Cdata(s) + CLOSE)
  {
    hide Cdata;
    var s1 := s[1..];
    FirstKept(s);
    SecondChar(s1);
    if s1 != [] && !AtClose(s1) {
      FirstKept(s1);
      SecondChar(s1[1..]);
    }
  }

  lemma FirstKept(s: string)
    requires s != [] && !AtClose(s)
    ensures Cdata(s) + CLOSE == [s[0]] + (Cdata(s[1..]) + CLOSE)
  {
  }

  lemma SecondChar(s: string)
    ensures var t := Cdata(s) + CLOSE;
            if s == [] || AtClose(s) then t[0] == ']' && t[1] == ']' else t[0] == s[0]
  {
  }

  lemma ReadOne(c: char, rest: string)
    requires !AtClose([c] + rest)
    ensures ReadContent([c] + rest) == Prepend([c], ReadContent(rest))
  {
    assert ([c] + rest)[1..] == rest;
  }

  lemma ReadReopened(rest: string)
    ensures ReadContent(CLOSE + (OPEN + rest)) == ReadContent(rest)
  {
    var t := CLOSE + (OPEN + rest);
    assert t[3..] == OPEN + rest;
    assert (OPEN + rest)[9..] == rest && (OPEN + rest)[..9] == OPEN;
  }

  lemma ReadEnd()
    ensures ReadContent(CLOSE) == Some("")
  {
    assert CLOSE[3..] == "";
  }

  /** The replacement text closes the section after two brackets and opens the next one. */
  lemma ReadSplit(rest: string)
    ensures ReadContent(SPLIT + rest) == Prepend("]]>", ReadContent(rest))
  {
    hide ReadContent;
    var t3 := [ '>' ] + rest;
    var t2 := CLOSE + (OPEN + t3);
    var t1 := [']'] + t2;
    assert SPLIT + rest == [']'] + t1;
    ReadOne(']', t1);
    ReadOne(']', t2);
    ReadReopened(t3);
    ReadOne('>', rest);
    assert forall x: string :: [']'] + ([']'] + (['>'] + x)) == "]]>" + x;
  }

  lemma {:induction false} ContentReadBack(s: string)
    ensures ReadContent(Cdata(s) + CLOSE) == Some(s)
  {
    hide ReadContent;
    if s == [] {
      ReadEnd();
      assert "" + CLOSE == CLOSE;
    } else if AtClose(s) {
      ContentReadBack(s[3..]);
      ReadSplit(Cdata(s[3..]) + CLOSE);
      assert Cdata(s) + CLOSE == SPLIT + (Cdata(s[3..]) + CLOSE);
      assert "]]>" + s[3..] == s;
    } else {
      ContentReadBack(s[1..]);
      NoNewClose(s);
      assert Cdata(s) + CLOSE == [s[0]] + (Cdata(s[1..]) + CLOSE);
      ReadOne(s[0], Cdata(s[1..]) + CLOSE);
      assert [s[0]] + s[1..] == s;
    }
  }

  /** Any text written into a CDATA section is read back from it. */
  lemma CdataRoundTrip(s: string)
    ensures ReadSections(OPEN + Cdata(s) + CLOSE) == Some(s)
  {
    ContentReadBack(s);
    var t := OPEN + Cdata(s) + CLOSE;
    assert t == OPEN + (Cdata(s) + CLOSE);
    assert t[9..] == Cdata(s) + CLOSE;
  }

  predicate ClosesAt(s: string, i: nat) {
    i + 3 <= |s| && s[i] == ']' && s[i + 1] == ']' && s[i + 2] == '>'
  }

  /** What stands before the first end mark is written as it is. */
  lemma {:induction false} CdataKeeps(a: string, rest: string)
    requires forall i :: 0 <= i < |a| ==> !ClosesAt(a + rest, i)
    ensures Cdata(a + rest) == a + Cdata(rest)
  {
    hide Cdata;
    if a == [] {
      assert a + rest == rest;
    } else {
      var s := a + rest;
      assert !ClosesAt(s, 0) && s[1..] == a[1..] + rest;
      OneKept(s);
      forall i | 0 <= i < |a| - 1 ensures !ClosesAt(s[1..], i) {
        assert !ClosesAt(s, i + 1);
      }
      CdataKeeps(a[1..], rest);
    }
  }

  lemma OneKept(s: string)
    requires s != [] && !ClosesAt(s, 0)
    ensures Cdata(s) == [s[0]] + Cdata(s[1..])
  {
  }

  /** In any text the first end mark is divided between two sections, and what follows it is
      written in the same way; without an end mark the text is written as it is. */
  lemma CdataSplits(a: string, b: string)
    requires forall i :: 0 <= i < |a| ==> !ClosesAt(a + ("]]>" + b), i)
    ensures Cdata(a + ("]]>" + b)) == a + ("]]]]><![CDATA[>" + Cdata(b))
  {
    hide Cdata;
    CdataKeeps(a, "]]>" + b);
    SplitFirst(b);
  }

  lemma SplitFirst(b: string)
    ensures Cdata("]]>" + b) == "]]]]><![CDATA[>" + Cdata(b)
  {
    assert ("]]>" + b)[3..] == b;
  }

  lemma CdataUnchanged(s: string)
    requires forall i :: 0 <= i < |s| ==> !ClosesAt(s, i)
    ensures Cdata(s) == s
  {
    assert s + "" == s;
    CdataKeeps(s, "");
  }

  // ---- the predefined entities ----

  function Entity(c: char): string {
    if c == '&' then "&amp;"
    else if c == '<' then "&lt;"
    else if c == '>' then "&gt;"
    else if c == '\'' then "&apos;"
    else if c == '"' then "&quot;"
    else [c]
  }

  function Escaped(s: string): string {
    if s == [] then "" else Escaped(s[..|s| - 1]) + Entity(s[|s| - 1])
  }

  method XmlEscape(s: string) returns (out: string)
    ensures out == Escaped(s)
  {
    out := "";
    for i := 0 to |s|
      invariant out == Escaped(s[..i])
    {
      assert s[..i + 1][..i] == s[..i];
      match s[i] {
        case '&' => out := out + "&amp;";
        case '<' => out := out + "&lt;";
        case '>' => out := out + "&gt;";
        case '\'' => out := out + "&apos;";
        case '"' => out := out + "&quot;";
        case c => out := out + [c];
      }
    }
    assert s[..|s|] == s;
  }

  /** Decoding accepts the five predefined entities and no bare ampersand. */
  function Decoded(t: string): Option<string>
    decreases |t|
  {
    if t == [] then Some("")
    else if t[0] != '&' then Prepend([t[0]], Decoded(t[1..]))
    else if StartsWith(t, "&amp;") then Prepend("&", Decoded(t[5..]))
    else if StartsWith(t, "&lt;") then Prepend("<", Decoded(t[4..]))
    else if StartsWith(t, "&gt;") then Prepend(">", Decoded(t[4..]))
    else if StartsWith(t, "&apos;") then Prepend("'", Decoded(t[6..]))
    else if StartsWith(t, "&quot;") then Prepend("\"", Decoded(t[6..]))
    else None
  }

  lemma NamesDiffer(t: string)
    ensures StartsWith(t, "&amp;") ==> t[1] == 'a' && t[2] == 'm'
    ensures StartsWith(t, "&lt;") ==> t[1] == 'l'
    ensures StartsWith(t, "&gt;") ==> t[1] == 'g'
    ensures StartsWith(t, "&apos;") ==> t[1] == 'a' && t[2] == 'p'
    ensures StartsWith(t, "&quot;") ==> t[1] == 'q'
  {
  }

  lemma EntityDecodes(c: char, rest: string)
    ensures Decoded(Entity(c) + rest) == Prepend([c], Decoded(rest))
  {
    var t := Entity(c) + rest;
    assert t[|Entity(c)|..] == rest;
    assert t[..|Entity(c)|] == Entity(c);
    if Entity(c) != [c] || c == '&' {
      NamesDiffer(t);
    }
  }

  lemma {:induction false} EscapedThenDecoded(s: string, rest: string)
    ensures Decoded(Escaped(s) + rest) == Prepend(s, Decoded(rest))
    decreases |s|
  {
    hide Decoded, Entity;
    if s == [] {
      assert Escaped(s) + rest == rest;
      assert forall t: string :: [] + t == t;
    } else {
      var front, c := s[..|s| - 1], s[|s| - 1];
      assert Escaped(s) + rest == Escaped(front) + (Entity(c) + rest);
      EscapedThenDecoded(front, Entity(c) + rest);
      EntityDecodes(c, rest);
      assert forall t: string :: front + ([c] + t) == s + t;
    }
  }

  /** Escaped text decodes to the text and holds no markup character. */
  lemma EscapeRoundTrip(s: string)
    ensures Decoded(Escaped(s)) == Some(s)
    ensures forall c :: c in Escaped(s) ==> c !in {'<', '>', '\'', '"'}
  {
    EscapedThenDecoded(s, "");
    assert Escaped(s) + "" == Escaped(s) && s + "" == s;
    NoMarkup(s);
  }

  lemma {:induction false} NoMarkup(s: string)
    ensures forall c :: c in Escaped(s) ==> c !in {'<', '>', '\'', '"'}
  {
    if s != [] {
      NoMarkup(s[..|s| - 1]);
    }
  }

  // ---- the order of the pits ----

  datatype Pit = Pit(board: u16, isDefault: bool)

  /** The first default pit after the first position is written first; the others keep their
      order. A default pit in the first position does not prevent that. */
  method OrderPits(pits: seq<Pit>) returns (ordered: seq<Pit>, ghost moved: nat)
    ensures moved == 0 ==> ordered == pits && forall i :: 1 <= i < |pits| ==> !pits[i].isDefault
    ensures moved > 0 ==> moved < |pits| && pits[moved].isDefault && (forall i :: 1 <= i < moved ==> !pits[i].isDefault)
                          && ordered == [pits[moved]] + pits[..moved] + pits[moved + 1..]
    ensures multiset(ordered) == multiset(pits)
    ensures (exists p <- pits :: p.isDefault) ==> ordered[0].isDefault
  {
    ordered, moved := pits, 0;
    for i := 0 to |pits|
      invariant forall j :: 1 <= j < i ==> !pits[j].isDefault
    {
      if pits[i].isDefault && i != 0 {
        ordered := [pits[i]] + pits[..i] + pits[i + 1..];
        moved := i;
        assert pits == pits[..i] + [pits[i]] + pits[i + 1..];
        return;
      }
    }
  }
}
