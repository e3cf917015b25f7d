/** The dialog store: at most 64 dialogs in least-recently-used order, each cut to whole turns
    within its turn and byte bounds. */
module Conversation {
  import opened Bytes

  const LRU_SIZE := 64

  datatype Role = System | User | Assistant | Tool

  /** `size` is the length of the message's JSON form. */
  datatype Message = Message(role: Role, size: nat, text: string)

  function Size(messages: seq<Message>): nat {
    if messages == [] then 0 else Size(messages[..|messages| - 1]) + messages[|messages| - 1].size
  }

  lemma {:induction false} SizeConcat(a: seq<Message>, b: seq<Message>)
    ensures Size(a + b) == Size(a) + Size(b)
  {
    if b == [] {
      assert a + b == a;
    } else {
      assert (a + b)[..|a + b| - 1] == a + b[..|b| - 1];
      SizeConcat(a, b[..|b| - 1]);
    }
  }

  // ---- turns ----

  function Flatten(groups: seq<seq<Message>>): seq<Message> {
    if groups == [] then [] else Flatten(groups[..|groups| - 1]) + groups[|groups| - 1]
  }

  /** A turn is not empty and only its first message can be the user's. */
  predicate IsTurn(group: seq<Message>) {
    group != [] && forall i :: 0 < i < |group| ==> group[i].role != User
  }

  /** The division of messages into turns: every turn but the first starts with the user. */
  predicate AreTurns(groups: seq<seq<Message>>) {
    && (forall g :: 0 <= g < |groups| ==> IsTurn(groups[g]))
    && (forall g :: 0 < g < |groups| ==> groups[g][0].role == User)
  }

  method TurnGroups(messages: seq<Message>) returns (groups: seq<seq<Message>>)
    ensures AreTurns(groups) && Flatten(groups) == messages
  {
    groups := [];
    for i := 0 to |messages|
      invariant AreTurns(groups) && Flatten(groups) == messages[..i]
    {
      var msg := messages[i];
      assert messages[..i + 1] == messages[..i] + [msg];
      ghost var was := groups;
      if msg.role == User || |groups| == 0 {
        groups := groups + [[msg]];
        assert groups[..|groups| - 1] == was;
      } else {
        var last := |groups| - 1;
        groups := groups[..last] + [groups[last] + [msg]];
        LastTurnGrows(was, msg);
      }
    }
    assert messages[..|messages|] == messages;
  }

  lemma LastTurnGrows(groups: seq<seq<Message>>, msg: Message)
    requires AreTurns(groups) && groups != [] && msg.role != User
    ensures var last := |groups| - 1;
            var grown := groups[..last] + [groups[last] + [msg]];
            AreTurns(grown) && Flatten(grown) == Flatten(groups) + [msg]
  {
    var last := |groups| - 1;
    var grown := groups[..last] + [groups[last] + [msg]];
    assert grown[..last] == groups[..last];
    assert Flatten(groups[..last]) + (groups[last] + [msg]) == Flatten(groups[..last]) + groups[last] + [msg];
  }

  lemma {:induction false} FlattenConcat(a: seq<seq<Message>>, b: seq<seq<Message>>)
    ensures Flatten(a + b) == Flatten(a) + Flatten(b)
  {
    if b == [] {
      assert a + b == a;
    } else {
      var n := |b| - 1;
      assert (a + b)[..|a + b| - 1] == a + b[..n];
      FlattenConcat(a, b[..n]);
      assert Flatten(a) + (Flatten(b[..n]) + b[n]) == Flatten(a) + Flatten(b[..n]) + b[n];
    }
  }

  /** There is only one such division. */
  lemma {:induction false} TurnsUnique(a: seq<seq<Message>>, b: seq<seq<Message>>)
    requires AreTurns(a) && AreTurns(b) && Flatten(a) == Flatten(b)
    ensures a == b
    decreases |a|
  {
    if a == [] || b == [] {
      FlattenNonEmpty(a);
      FlattenNonEmpty(b);
    } else {
      var m, n := |a| - 1, |b| - 1;
      LastTurn(a, b);
      LastTurn(b, a);
      assert |a[m]| == |b[n]|;
      var all := Flatten(a);
      assert all == Flatten(a[..m]) + a[m] && all == Flatten(b[..n]) + b[n];
      assert all[..|all| - |a[m]|] == Flatten(a[..m]) && all[..|all| - |b[n]|] == Flatten(b[..n]);
      assert all[|all| - |a[m]|..] == a[m] && all[|all| - |b[n]|..] == b[n];
      TurnsUnique(a[..m], b[..n]);
      assert a == a[..m] + [a[m]] && b == b[..n] + [b[n]];
    }
  }

  lemma FlattenNonEmpty(a: seq<seq<Message>>)
    requires AreTurns(a)
    ensures Flatten(a) == [] <==> a == []
  {
  }

  /** Where the last turn of a division begins: at the last message of the user, or at 0. */
  lemma TurnStart(a: seq<seq<Message>>)
    requires AreTurns(a) && a != []
    ensures var all := Flatten(a);
            var p := |all| - |a[|a| - 1]|;
            && 0 <= p < |all| && (p == 0 || all[p].role == User)
            && forall i :: p < i < |all| ==> all[i].role != User
  {
    var m := |a| - 1;
    var all := Flatten(a);
    var p := |all| - |a[m]|;
    assert all == Flatten(a[..m]) + a[m];
    FlattenNonEmpty(a[..m]);
    assert IsTurn(a[m]);
    assert forall i :: p < i < |all| ==> all[i] == a[m][i - p];
  }

  /** The last turn of one division is as long as the last turn of another. */
  lemma LastTurn(a: seq<seq<Message>>, b: seq<seq<Message>>)
    requires AreTurns(a) && AreTurns(b) && Flatten(a) == Flatten(b) && a != [] && b != []
    ensures |a[|a| - 1]| >= |b[|b| - 1]|
  {
    TurnStart(a);
    TurnStart(b);
  }

  // ---- trimming ----

  /** How many of the oldest turns are dropped. */
  function Dropped(turns: nat, bytes: nat, maxTurns: int, maxBytes: int): (k: nat)
    ensures k == 0 || k < turns
  {
    if turns <= 1 then 0
    else if maxBytes > 0 && bytes > maxBytes then turns - 1
    else if maxTurns > 0 && turns > maxTurns then turns - maxTurns
    else 0
  }

  predicate Within(system: seq<Message>, groups: seq<seq<Message>>, maxTurns: int, maxBytes: int) {
    && (maxTurns > 0 ==> |groups| <= maxTurns)
    && (maxBytes > 0 ==> Size(system + Flatten(groups)) <= maxBytes)
  }

  function SystemPart(messages: seq<Message>): seq<Message> {
    if messages != [] && messages[0].role == System then messages[..1] else []
  }

  /** What trimming makes of a history: the system prompt and the newest turns, all of them if
      they are within the bounds. */
  predicate Trimmed(was: seq<Message>, now: seq<Message>, groups: seq<seq<Message>>, maxTurns: int, maxBytes: int) {
    var system := SystemPart(was);
    && AreTurns(groups) && was == system + Flatten(groups)
    && now == system + Flatten(groups[Dropped(|groups|, Size(was), maxTurns, maxBytes)..])
  }

  ghost predicate TrimmedTo(was: seq<Message>, now: seq<Message>, maxTurns: int, maxBytes: int) {
    exists groups :: Trimmed(was, now, groups, maxTurns, maxBytes)
  }

  /** The byte count is taken once, before the loop. */
  method Trim(was: seq<Message>, maxTurns: int, maxBytes: int) returns (now: seq<Message>)
    ensures TrimmedTo(was, now, maxTurns, maxBytes)
  {
    var bytes := CountBytes(was);
    var system := if |was| > 0 && was[0].role == System then 1 else 0;
    var groups := TurnGroups(was[system..]);
    ghost var turns := groups;
    var trimmed := false;
    ghost var k: nat := 0;
    assert was == was[..system] + was[system..];
    while |groups| > 1
      invariant k <= |turns| && groups == turns[k..] && (k > 0 ==> |groups| >= 1)
      invariant k <= Dropped(|turns|, bytes, maxTurns, maxBytes) && (trimmed <==> k > 0)
      decreases |groups|
    {
      var overTurns := maxTurns > 0 && |groups| > maxTurns;
      var overBytes := maxBytes > 0 && bytes > maxBytes;
      if !overTurns && !overBytes {
        break;
      }
      groups := groups[1..];
      trimmed, k := true, k + 1;
    }
    assert k == Dropped(|turns|, bytes, maxTurns, maxBytes);
    if !trimmed {
      assert turns[0..] == turns;
      assert Trimmed(was, was, turns, maxTurns, maxBytes);
      return was;
    }
    now := was[..system];
    for i := 0 to |groups|
      invariant now == was[..system] + Flatten(groups[..i])
    {
      assert groups[..i + 1][..i] == groups[..i];
      assert was[..system] + Flatten(groups[..i]) + groups[i] == was[..system] + (Flatten(groups[..i]) + groups[i]);
      now := now + groups[i];
    }
    assert groups[..|groups|] == groups;
    assert Trimmed(was, now, turns, maxTurns, maxBytes);
  }

  method CountBytes(messages: seq<Message>) returns (total: nat)
    ensures total == Size(messages)
  {
    total := 0;
    for i := 0 to |messages|
      invariant total == Size(messages[..i])
    {
      assert messages[..i + 1][..i] == messages[..i];
      total := total + messages[i].size;
    }
    assert messages[..|messages|] == messages;
  }

  lemma SuffixWithin(system: seq<Message>, groups: seq<seq<Message>>, k: nat, j: nat)
    requires k <= j <= |groups|
    ensures Size(system + Flatten(groups[j..])) <= Size(system + Flatten(groups[k..]))
  {
    assert groups[k..] == groups[k..j] + groups[j..];
    FlattenConcat(groups[k..j], groups[j..]);
    SizeConcat(system, Flatten(groups[k..]));
    SizeConcat(system, Flatten(groups[j..]));
    SizeConcat(Flatten(groups[k..j]), Flatten(groups[j..]));
  }

  /** A trimmed history is a single turn or within both bounds; it keeps the system prompt and
      the newest turn whole, and a history within the bounds is left alone. */
  lemma TrimmedWithin(was: seq<Message>, now: seq<Message>, groups: seq<seq<Message>>, maxTurns: int, maxBytes: int)
    requires Trimmed(was, now, groups, maxTurns, maxBytes)
    ensures var system := SystemPart(was);
            var kept := groups[Dropped(|groups|, Size(was), maxTurns, maxBytes)..];
            && AreTurns(kept) && now == system + Flatten(kept)
            && (groups != [] ==> kept != [] && kept[|kept| - 1] == groups[|groups| - 1])
            && (|kept| <= 1 || Within(system, kept, maxTurns, maxBytes))
            && (Within(system, groups, maxTurns, maxBytes) ==> now == was)
  {
    hide Size, SystemPart;
    var k := Dropped(|groups|, Size(was), maxTurns, maxBytes);
    assert groups[0..] == groups;
    SuffixWithin(SystemPart(was), groups, 0, k);
  }

  lemma {:induction false} FlattenCut(groups: seq<seq<Message>>, k: nat)
    requires AreTurns(groups) && k <= |groups|
    ensures var all, p := Flatten(groups), |Flatten(groups[..k])|;
            && p <= |all| && all[p..] == Flatten(groups[k..])
            && (0 < k < |groups| ==> p < |all| && all[p].role == User)
  {
    assert groups == groups[..k] + groups[k..];
    FlattenConcat(groups[..k], groups[k..]);
    if 0 < k < |groups| {
      var rest := groups[k..];
      assert rest == [groups[k]] + rest[1..];
      FlattenConcat([groups[k]], rest[1..]);
      assert Flatten([groups[k]]) == [] + groups[k] by {
        assert [groups[k]][..0] == [];
      }
      assert groups[k][0].role == User && IsTurn(groups[k]);
    }
  }

  /** What trimming does to the messages themselves: a first message of the system role stays,
      and what goes is one piece behind it that ends where a message of the user begins. */
  lemma TrimCuts(was: seq<Message>, now: seq<Message>, groups: seq<seq<Message>>, maxTurns: int, maxBytes: int)
    requires Trimmed(was, now, groups, maxTurns, maxBytes)
    ensures var first := if was != [] && was[0].role == System then 1 else 0;
            exists p: nat :: first <= p <= |was| && now == was[..first] + was[p..]
                             && (p == first || (p < |was| && was[p].role == User))
  {
    hide Size, Dropped;
    var first := if was != [] && was[0].role == System then 1 else 0;
    var k := Dropped(|groups|, Size(was), maxTurns, maxBytes);
    var p := first + |Flatten(groups[..k])|;
    FlattenCut(groups, k);
    assert was[first..] == Flatten(groups) && was[..first] == SystemPart(was);
    assert was[p..] == was[first..][p - first..];
    assert k == 0 ==> groups[..k] == [] && p == first;
  }

  /** The size of a history is the sum of the sizes of its messages. */
  lemma SizeOfOne(m: Message, more: seq<Message>)
    ensures Size([]) == 0 && Size([m] + more) == m.size + Size(more)
  {
    SizeConcat([m], more);
    assert [m][..0] == [];
  }

  /** Trimming is minimal, dropping no turn that the bounds would allow, exactly when the byte
      budget holds from the start or the two newest turns together break a bound. Otherwise an
      over-budget history is cut to its newest turn although more would fit. */
  lemma TrimMinimal(was: seq<Message>, now: seq<Message>, groups: seq<seq<Message>>, maxTurns: int, maxBytes: int)
    requires Trimmed(was, now, groups, maxTurns, maxBytes)
    ensures var system := SystemPart(was);
            var k := Dropped(|groups|, Size(was), maxTurns, maxBytes);
            (forall j :: 0 <= j < k ==> !Within(system, groups[j..], maxTurns, maxBytes))
            <==> (|groups| <= 1 || maxBytes <= 0 || Size(was) <= maxBytes
                  || !Within(system, groups[|groups| - 2..], maxTurns, maxBytes))
  {
    hide Size, Flatten, SystemPart, AreTurns;
    var system := SystemPart(was);
    var n := |groups|;
    var k := Dropped(n, Size(was), maxTurns, maxBytes);
    assert groups[0..] == groups;
    if n > 1 && maxBytes > 0 && Size(was) > maxBytes {
      if !Within(system, groups[n - 2..], maxTurns, maxBytes) {
        forall j | 0 <= j < k ensures !Within(system, groups[j..], maxTurns, maxBytes) {
          SuffixWithin(system, groups, j, n - 2);
        }
      } else {
        assert 0 <= n - 2 < k;
      }
    }
  }

  /** Trimming a trimmed history changes nothing. */
  lemma TrimStable(was: seq<Message>, now: seq<Message>, again: seq<Message>, maxTurns: int, maxBytes: int)
    requires TrimmedTo(was, now, maxTurns, maxBytes) && TrimmedTo(now, again, maxTurns, maxBytes)
    ensures again == now
  {
    hide AreTurns, Flatten;
    var a :| Trimmed(was, now, a, maxTurns, maxBytes);
    var b :| Trimmed(now, again, b, maxTurns, maxBytes);
    TrimmedWithin(was, now, a, maxTurns, maxBytes);
    var kept := a[Dropped(|a|, Size(was), maxTurns, maxBytes)..];
    SystemKept(was, now, a, maxTurns, maxBytes);
    var system := SystemPart(now);
    assert now[|system|..] == Flatten(kept) && now[|system|..] == Flatten(b);
    TurnsUnique(kept, b);
    assert b[0..] == b;
  }

  lemma SystemKept(was: seq<Message>, now: seq<Message>, groups: seq<seq<Message>>, maxTurns: int, maxBytes: int)
    requires Trimmed(was, now, groups, maxTurns, maxBytes)
    ensures SystemPart(now) == SystemPart(was)
  {
    var k := Dropped(|groups|, Size(was), maxTurns, maxBytes);
    assert groups[0..] == groups;
    if k > 0 && SystemPart(was) == [] {
      FlattenHead(groups[k..]);
    }
  }

  lemma {:induction false} FlattenHead(groups: seq<seq<Message>>)
    requires AreTurns(groups) && groups != []
    ensures Flatten(groups) != [] && Flatten(groups)[0] == groups[0][0]
  {
    assert IsTurn(groups[0]);
    if |groups| > 1 {
      FlattenHead(groups[..|groups| - 1]);
    } else {
      assert Flatten(groups[..0]) == [];
    }
  }

  // ---- the store ----

  /** The order without an id: what forgetting and touching leave of it. */
  function Without(order: seq<string>, id: string): (rest: seq<string>)
    ensures id !in order ==> rest == order
  {
    if order == [] then []
    else if order[0] == id then order[1..]
    else [order[0]] + Without(order[1..], id)
  }

  predicate NoDuplicates(order: seq<string>) {
    forall i, j :: 0 <= i < j < |order| ==> order[i] != order[j]
  }

  lemma {:induction false} WithoutMembers(order: seq<string>, id: string)
    requires NoDuplicates(order)
    ensures NoDuplicates(Without(order, id)) && forall x :: x in Without(order, id) <==> x in order && x != id
    ensures |Without(order, id)| == |order| - if id in order then 1 else 0
  {
    if order != [] {
      assert order == [order[0]] + order[1..];
      assert order[0] !in order[1..];
      WithoutMembers(order[1..], id);
    }
  }

  lemma TouchMembers(order: seq<string>, id: string)
    requires NoDuplicates(order)
    ensures var touched := Without(order, id) + [id];
            && NoDuplicates(touched) && (forall x :: x in touched <==> x in order || x == id)
            && |touched| == |order| + if id in order then 0 else 1
  {
    WithoutMembers(order, id);
  }

  lemma {:induction false} WithoutFirst(a: seq<string>, id: string, b: seq<string>)
    requires id !in a
    ensures Without(a + [id] + b, id) == a + b
  {
    var order := a + [id] + b;
    if a == [] {
      assert order[1..] == b == a + b;
    } else {
      assert order[0] == a[0] && order[1..] == a[1..] + [id] + b;
      WithoutFirst(a[1..], id, b);
      assert [a[0]] + (a[1..] + b) == a + b;
    }
  }

  class Store {
    const maxTurns: int
    const maxBytes: int
    var entries: map<string, seq<Message>>
    var order: seq<string>

    /** The order enumerates the dialogs without duplicates, and there are at most 64. */
    ghost predicate Valid()
      reads this
    {
      NoDuplicates(order) && (forall id :: id in order <==> id in entries) && |order| <= LRU_SIZE
    }

    constructor (maxTurns: int, maxBytes: int)
      ensures Valid() && entries == map[] && order == []
      ensures this.maxTurns == maxTurns && this.maxBytes == maxBytes
    {
      this.maxTurns, this.maxBytes := maxTurns, maxBytes;
      entries, order := map[], [];
    }

    method Forget(id: string)
      modifies this`order
      ensures order == Without(old(order), id)
    {
      for i := 0 to |order|
        invariant order == old(order) && id !in order[..i]
      {
        if order[i] == id {
          assert order == order[..i] + [id] + order[i + 1..];
          WithoutFirst(order[..i], id, order[i + 1..]);
          order := order[..i] + order[i + 1..];
          return;
        }
      }
      assert order[..|order|] == order;
    }

    method Touch(id: string)
      modifies this`order
      ensures order == Without(old(order), id) + [id]
    {
      Forget(id);
      order := order + [id];
    }

    /** Makes room for one more dialog: at capacity, the head of `order` is forgotten. */
    method Evict()
      requires Valid()
      modifies this`order, this`entries
      ensures Valid() && |order| < 64
      ensures if |old(order)| < 64 then order == old(order) && entries == old(entries)
              else order == old(order)[1..] && entries == old(entries) - {old(order)[0]}
    {
      KeyCount(order, entries);
      if |entries| < LRU_SIZE || |order| == 0 {
        return;
      }
      var oldest := order[0];
      assert order == [oldest] + order[1..];
      order := order[1..];
      entries := entries - {oldest};
    }

    /** A known dialog becomes the most recently used one. */
    method Load(id: string) returns (messages: Option<seq<Message>>)
      requires Valid()
      modifies this`order
      ensures Valid()
      ensures id == "" || id !in entries ==> messages == None && order == old(order)
      ensures id != "" && id in entries ==> messages == Some(entries[id]) && order == Without(old(order), id) + [id]
    {
      if id == "" || id !in entries {
        return None;
      }
      TouchMembers(order, id);
      Touch(id);
      messages := Some(entries[id]);
    }

    /** The dialog is made the most recently used one, after the least recently used has made
        room for a new one, and its history is trimmed. */
    method Append(id: string, msgs: seq<Message>)
      requires Valid()
      modifies this
      ensures Valid()
      ensures id == "" || msgs == [] ==> order == old(order) && entries == old(entries)
      ensures id != "" && msgs != [] ==>
                var room := if id in old(entries) || |old(order)| < 64 then old(order) else old(order)[1..];
                && order == Without(room, id) + [id]
                && (forall other :: other != id ==> (other in entries <==> other in room))
                && (forall other <- entries :: other != id ==> other in old(entries) && entries[other] == old(entries)[other])
                && id in entries
                && TrimmedTo((if id in old(entries) then old(entries)[id] else []) + msgs, entries[id], maxTurns, maxBytes)
    {
      hide Trimmed, TrimmedTo, Without, NoDuplicates;
      if id == "" || |msgs| == 0 {
        return;
      }
      if id !in entries {
        Evict();
        entries := entries[id := []];
      }
      TouchMembers(order, id);
      Touch(id);
      var now := Trim(entries[id] + msgs, maxTurns, maxBytes);
      entries := entries[id := now];
    }

    method Reset(id: string)
      requires Valid()
      modifies this
      ensures Valid()
      ensures id != "" ==> entries == old(entries) - {id} && order == Without(old(order), id)
      ensures id == "" ==> entries == old(entries) && order == old(order)
    {
      if id == "" || id !in entries {
        return;
      }
      WithoutMembers(order, id);
      entries := entries - {id};
      Forget(id);
    }
  }

  lemma {:induction false} KeyCount(order: seq<string>, entries: map<string, seq<Message>>)
    requires NoDuplicates(order) && forall id :: id in order <==> id in entries
    ensures |entries| == |order|
    decreases |order|
  {
    if order == [] {
      assert entries.Keys == {};
    } else {
      var rest := entries - {order[0]};
      assert order == [order[0]] + order[1..];
      KeyCount(order[1..], rest);
      assert entries.Keys == rest.Keys + {order[0]};
    }
  }
}
