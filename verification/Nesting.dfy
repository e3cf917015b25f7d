/** Wrappers: records within records, to any depth. The theorems speak of splits of payloads
    and wrapper bodies only. */
module Nesting {
  import opened Bytes
  import opened Codec
  import opened Records
  import Splitting

  /** A wrapper record around a body, and what follows it. */
  function Wrapped(b: seq<byte>, rest: seq<byte>): seq<byte>
    requires |b| < 0x1_0000
  {
    [0x5f] + (Be16Bytes(|b|) + b + rest)
  }

  /** A wrapper yields the records of the split of its body: all of them if the body is
      understood to its end; those before an unknown record, if they can be split by themselves,
      and the unknown rest as one record; and none if the body is malformed, when the error is
      reported and nothing after the wrapper is looked at. */
  lemma WrapperSplit(b: seq<byte>, rest: seq<byte>, off: nat, bounded: bool, z: Inflater)
    requires |b| < 0x1_0000
    ensures var nested := SplitFrom(b, 0, true, z);
            var more := SplitFrom(rest, off + 3 + |b|, bounded, z);
            var all := SplitFrom(Wrapped(b, rest), off, bounded, z);
            && (nested.err == None ==> all == Split(nested.recs + more.recs, more.err))
            && (nested.err == Some(Malformed) || nested.err == Some(UnknownPackage) ==> all == Split([], nested.err))
            && (nested.err.Some? && nested.err.value.Unknown? ==>
                  var o := nested.err.value.offset;
                  var known := SplitFrom(b[..o], 0, false, z);
                  all == Split((if known.err == None then known.recs else [])
                               + [Record(nested.err.value.tag, b[o..])] + more.recs, more.err))
  {
    hide SplitFrom, BodyStep, Emit;
    var s := Be16Bytes(|b|) + b + rest;
    var p := Wrapped(b, rest);
    assert p[0] == 0x5f && p[1..] == s;
    WrapperStep(b, rest, bounded, z);
    Splitting.SplitUnfold(p, off, bounded, z);
    assert s[2..2 + |b|] == b && s[2 + |b|..] == rest;
    EmitBody(b, z);
  }

  lemma WrapperStep(b: seq<byte>, rest: seq<byte>, bounded: bool, z: Inflater)
    requires |b| < 0x1_0000
    ensures BodyStep(0x5f, Be16Bytes(|b|) + b + rest, bounded, z) == Take(2, 2 + |b|)
  {
    assert (Be16Bytes(|b|) + b + rest)[..2] == Be16Bytes(|b|);
  }

  lemma EmitBody(b: seq<byte>, z: Inflater)
    ensures var nested := SplitFrom(b, 0, true, z);
            && (nested.err == None ==> Emit(0x5f, b, z) == nested)
            && (nested.err == Some(Malformed) || nested.err == Some(UnknownPackage) ==> Emit(0x5f, b, z) == Split([], nested.err))
            && (nested.err.Some? && nested.err.value.Unknown? ==>
                  var o := nested.err.value.offset;
                  var known := SplitFrom(b[..o], 0, false, z);
                  Emit(0x5f, b, z)
                  == Split((if known.err == None then known.recs else []) + [Record(nested.err.value.tag, b[o..])], None))
  {
    hide SplitFrom;
  }

  // ---- trees of records ----

  /** A record with its length bytes and body apart, or a wrapper with the records in it. */
  datatype Node = Leaf(tag: byte, head: seq<byte>, body: seq<byte>) | Wrapper(nodes: seq<Node>)

  function NodeBytes(n: Node): seq<byte>
    decreases n
  {
    match n
    case Leaf(tag, head, body) => [tag] + (head + body)
    case Wrapper(nodes) => [0x5f] + (Length(|NodesBytes(nodes)|) + NodesBytes(nodes))
  }

  function NodesBytes(nodes: seq<Node>): seq<byte>
    decreases nodes
  {
    if nodes == [] then [] else NodeBytes(nodes[0]) + NodesBytes(nodes[1..])
  }

  /** Two bytes, the high one first; longer bodies have no length. */
  function Length(n: nat): seq<byte> {
    if n < 0x1_0000 then [n / 0x100, n % 0x100] else []
  }

  /** The records of a tree in order; wrappers leave no trace. */
  function Leaves(nodes: seq<Node>): seq<Record>
    decreases nodes
  {
    if nodes == [] then []
    else
      match nodes[0]
      case Leaf(tag, _, body) => [Record(tag, body)] + Leaves(nodes[1..])
      case Wrapper(inner) => Leaves(inner) + Leaves(nodes[1..])
  }

  predicate LeafComplete(tag: byte, head: seq<byte>, body: seq<byte>, z: Inflater) {
    tag != 0x5f && tag != 0x09 && BodyStep(tag, head + body, false, z) == Take(|head|, |head| + |body|)
  }

  /** Every leaf is a complete record, no history among them, every wrapper body has a length
      that fits, and inside wrappers only the last record can be a session record: any other
      would take the first byte of the next one. */
  predicate WellMade(nodes: seq<Node>, bounded: bool, z: Inflater)
    decreases nodes
  {
    nodes == []
    || (&& (match nodes[0]
            case Leaf(tag, head, body) => LeafComplete(tag, head, body, z) && (bounded && tag == 0x6b ==> |nodes| == 1)
            case Wrapper(inner) => |NodesBytes(inner)| < 0x1_0000 && WellMade(inner, true, z))
        && WellMade(nodes[1..], bounded, z))
  }

  lemma LeafFirst(tag: byte, head: seq<byte>, body: seq<byte>, more: seq<byte>, off: nat, bounded: bool, z: Inflater)
    requires LeafComplete(tag, head, body, z) && Splitting.ZlibLike(z) && (bounded && tag == 0x6b ==> more == [])
    ensures var r := SplitFrom(more, off + 1 + |head| + |body|, bounded, z);
            SplitFrom([tag] + (head + body + more), off, bounded, z) == Split([Record(tag, body)] + r.recs, r.err)
  {
    hide SplitFrom, BodyStep, Emit, Splitting.ZlibLike;
    var raw := head + body;
    var s := raw + more;
    Splitting.StepPrefix(tag, raw, more, z);
    if bounded {
      Splitting.BoundedStep(tag, s, z);
      if tag == 0x6b {
        assert s == raw;
        LastSession(raw, |head|, z);
      }
    }
    var p := [tag] + s;
    assert p[1..] == s && s[|head|..|head| + |body|] == body && s[|head| + |body|..] == more;
    Splitting.SplitUnfold(p, off, bounded, z);
    Splitting.EmitPlain(tag, body, z);
  }

  /** A session record at the end of a wrapper has no byte left to take. */
  lemma LastSession(raw: seq<byte>, from: nat, z: Inflater)
    requires BodyStep(0x6b, raw, false, z) == Take(from, |raw|)
    ensures BodyStep(0x6b, raw, true, z) == Take(from, |raw|)
  {
    hide ReadInt32;
  }

  lemma WrapperFirst(inner: seq<byte>, more: seq<byte>)
    requires |inner| < 0x1_0000
    ensures [0x5f] + (Length(|inner|) + inner) + more == Wrapped(inner, more)
    ensures |[0x5f] + (Length(|inner|) + inner)| == 3 + |inner|
  {
    assert Length(|inner|) == Be16Bytes(|inner|);
  }

  /** One record in front of a tree that splits. */
  lemma AfterLeaf(tag: byte, head: seq<byte>, body: seq<byte>, more: seq<byte>, leaves: seq<Record>, r: Split,
                  off: nat, bounded: bool, z: Inflater)
    requires LeafComplete(tag, head, body, z) && Splitting.ZlibLike(z) && (bounded && tag == 0x6b ==> more == [])
    requires SplitFrom(more, off + 1 + |head| + |body|, bounded, z) == Split(leaves + r.recs, r.err)
    ensures SplitFrom([tag] + (head + body) + more, off, bounded, z) == Split([Record(tag, body)] + leaves + r.recs, r.err)
  {
    hide SplitFrom, LeafComplete, Splitting.ZlibLike;
    assert [tag] + (head + body) + more == [tag] + (head + body + more);
    LeafFirst(tag, head, body, more, off, bounded, z);
    Splitting.Associates([Record(tag, body)], leaves, r.recs);
  }

  /** A wrapper whose body splits in front of a tree that splits. */
  lemma AfterWrapper(b: seq<byte>, inner: seq<Record>, more: seq<byte>, leaves: seq<Record>, r: Split,
                     off: nat, bounded: bool, z: Inflater)
    requires |b| < 0x1_0000 && SplitFrom(b, 0, true, z) == Split(inner, None)
    requires SplitFrom(more, off + 3 + |b|, bounded, z) == Split(leaves + r.recs, r.err)
    ensures SplitFrom([0x5f] + (Length(|b|) + b) + more, off, bounded, z) == Split(inner + leaves + r.recs, r.err)
  {
    hide SplitFrom;
    WrapperFirst(b, more);
    WrapperSplit(b, more, off, bounded, z);
    Splitting.Associates(inner, leaves, r.recs);
  }

  lemma NoneLeft(b: seq<byte>, inner: seq<Record>, off: nat, z: Inflater)
    requires SplitFrom(b + [], off, true, z)
          == Split(inner + SplitFrom([], off + |b|, true, z).recs, SplitFrom([], off + |b|, true, z).err)
    ensures SplitFrom(b, off, true, z) == Split(inner, None)
  {
    hide SplitFrom;
    Splitting.SplitEmpty(off + |b|, true, z);
    assert b + [] == b && inner + [] == inner;
  }

  /** The leaves of a tree of records come out of the splitter one after another, however deep
      they are wrapped, followed by the records of what stands behind the tree. */
  lemma {:induction false} TreeSplit(nodes: seq<Node>, rest: seq<byte>, off: nat, bounded: bool, z: Inflater)
    requires WellMade(nodes, bounded, z) && Splitting.ZlibLike(z) && (bounded ==> rest == [])
    ensures var r := SplitFrom(rest, off + |NodesBytes(nodes)|, bounded, z);
            SplitFrom(NodesBytes(nodes) + rest, off, bounded, z) == Split(Leaves(nodes) + r.recs, r.err)
    decreases nodes
  {
    hide SplitFrom, LeafComplete, Splitting.ZlibLike;
    if nodes == [] {
      assert NodesBytes(nodes) + rest == rest;
      assert Leaves(nodes) + SplitFrom(rest, off, bounded, z).recs == SplitFrom(rest, off, bounded, z).recs;
    } else {
      var first, tail := NodeBytes(nodes[0]), NodesBytes(nodes[1..]);
      var r := SplitFrom(rest, off + |first| + |tail|, bounded, z);
      TreeSplit(nodes[1..], rest, off + |first|, bounded, z);
      assert NodesBytes(nodes) + rest == first + (tail + rest);
      if nodes[0].Leaf? {
        var Leaf(tag, head, body) := nodes[0];
        if |nodes| == 1 && bounded {
          assert tail + rest == [];
        }
        AfterLeaf(tag, head, body, tail + rest, Leaves(nodes[1..]), r, off, bounded, z);
      } else {
        var b := NodesBytes(nodes[0].nodes);
        TreeSplit(nodes[0].nodes, [], 0, true, z);
        NoneLeft(b, Leaves(nodes[0].nodes), 0, z);
        WrapperFirst(b, tail + rest);
        AfterWrapper(b, Leaves(nodes[0].nodes), tail + rest, Leaves(nodes[1..]), r, off, bounded, z);
      }
    }
  }

  /** What the exception is about: inside a wrapper a session record that is not the last takes
      the first byte of the next record with it, at top level it does not. */
  lemma SessionTakesByte(session: i32, x: byte, q: seq<byte>, off: nat, z: Inflater)
    ensures var inside := SplitFrom([0x6b] + (PackedBytes(session) + ([x] + q)), off, true, z);
            inside.err == None ==> inside.recs != [] && inside.recs[0] == Record(0x6b, PackedBytes(session) + [x])
    ensures var outside := SplitFrom([0x6b] + (PackedBytes(session) + ([x] + q)), off, false, z);
            outside.err == None ==> outside.recs != [] && outside.recs[0] == Record(0x6b, PackedBytes(session))
  {
    hide SplitFrom, BodyStep, Emit, PackedBytes, ReadInt32;
    var n := |PackedBytes(session)|;
    var s := PackedBytes(session) + ([x] + q);
    var p := [0x6b] + s;
    assert p[1..] == s && s[..n] == PackedBytes(session) && s[0..n] == s[..n] && s[0..n + 1] == PackedBytes(session) + [x];
    Int32RoundTrip(session, [x] + q);
    Splitting.StepCases(0x6b, s, true, z);
    Splitting.StepCases(0x6b, s, false, z);
    Splitting.SplitUnfold(p, off, true, z);
    Splitting.SplitUnfold(p, off, false, z);
    Splitting.EmitPlain(0x6b, PackedBytes(session), z);
    Splitting.EmitPlain(0x6b, PackedBytes(session) + [x], z);
  }
}
