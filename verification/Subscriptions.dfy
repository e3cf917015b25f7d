/** The session catalog and the subscription masks: what the server is told stays the image of
    what the client has selected. */
module Subscriptions {
  import opened Bytes

  const SUB_QUOTATIONS: bv8 := 1
  const SUB_QUOTES: bv8 := 2
  const SUB_ALL_TRADES: bv8 := 4

  datatype Symbol = Symbol(board: string, seccode: string)
  datatype Board = Board(num: u16, code: string)
  datatype Security = Security(id: u16, seccode: string, pits: seq<u16>, flags: bv8)

  /** The server's subscription table is keyed by secid and board number. */
  type Key = (u16, u16)
  datatype Item = Item(key: Key, mask: bv8)

  datatype Dictionary = Dictionary(boards: map<u16, Board>, codes: map<string, Board>,
                                   secs: map<u16, Security>, symbols: map<Symbol, u16>)

  /** Board numbers and codes are unique, and a secid keeps its seccode. */
  predicate Coherent(d: Dictionary) {
    && (forall n <- d.boards :: d.boards[n].num == n && d.boards[n].code in d.codes && d.codes[d.boards[n].code] == d.boards[n])
    && (forall c <- d.codes :: d.codes[c].code == c && d.codes[c].num in d.boards && d.boards[d.codes[c].num] == d.codes[c])
    && (forall id <- d.secs :: d.secs[id].id == id)
    && (forall s <- d.symbols :: s.board in d.codes && d.symbols[s] in d.secs && d.secs[d.symbols[s]].seccode == s.seccode)
  }

  /** The secid and the board number a symbol stands for in the current session. */
  function Resolve(d: Dictionary, s: Symbol): Option<Key> {
    if s in d.symbols && d.symbols[s] in d.secs && s.board in d.codes
    then Some((d.secs[d.symbols[s]].id, d.codes[s.board].num))
    else None
  }

  lemma ResolveInjective(d: Dictionary, s: Symbol, t: Symbol)
    requires Coherent(d) && Resolve(d, s).Some? && Resolve(d, s) == Resolve(d, t)
    ensures s == t
  {
    assert d.codes[s.board] == d.codes[t.board];
  }

  function NamesOn(boards: map<u16, Board>, pits: seq<u16>, seccode: string): set<Symbol> {
    set p | p in pits && p in boards :: Symbol(boards[p].code, seccode)
  }

  /** Every (board, seccode) pair that will find a security: its boards come from its pits. */
  function Names(d: Dictionary, sec: Security): set<Symbol> {
    NamesOn(d.boards, sec.pits, sec.seccode)
  }

  lemma NamesGrow(boards: map<u16, Board>, pits: seq<u16>, p: u16, seccode: string)
    ensures NamesOn(boards, pits + [p], seccode)
         == NamesOn(boards, pits, seccode) + if p in boards then {Symbol(boards[p].code, seccode)} else {}
  {
    var grown, names := NamesOn(boards, pits + [p], seccode), NamesOn(boards, pits, seccode);
    forall s <- names ensures s in grown {
      var q :| q in pits && q in boards && s == Symbol(boards[q].code, seccode);
      assert q in pits + [p];
    }
    assert p in pits + [p];
  }

  lemma RegisterOne(before: map<Symbol, u16>, names: set<Symbol>, s: Symbol, id: u16)
    ensures (before + map t | t in names :: id)[s := id] == before + map t | t in names + {s} :: id
  {
  }

  function Added(d: Dictionary, sec: Security): Dictionary {
    d.(secs := d.secs[sec.id := sec], symbols := d.symbols + map s | s in Names(d, sec) :: sec.id)
  }

  predicate KeepsSeccode(d: Dictionary, sec: Security) {
    sec.id in d.secs ==> d.secs[sec.id].seccode == sec.seccode
  }

  lemma AddedCoherent(d: Dictionary, sec: Security)
    requires Coherent(d) && KeepsSeccode(d, sec)
    ensures Coherent(Added(d, sec))
  {
  }

  lemma AddedResolves(d: Dictionary, sec: Security, s: Symbol)
    requires Coherent(d)
    ensures Resolve(Added(d, sec), s)
         == if s in Names(d, sec) then (if s.board in d.codes then Some((sec.id, d.codes[s.board].num)) else None)
            else Resolve(d, s)
    ensures s in Names(d, sec) ==> s.board in d.codes
  {
  }

  // ---- the server's table ----

  function Put(table: map<Key, bv8>, item: Item): map<Key, bv8> {
    if item.mask == 0 then table - {item.key} else table[item.key := item.mask]
  }

  /** The server applies the items of one RQ_SUBSCRIBE in order. */
  function Apply(table: map<Key, bv8>, items: seq<Item>): map<Key, bv8> {
    if items == [] then table else Put(Apply(table, items[..|items| - 1]), items[|items| - 1])
  }

  predicate Consistent(items: seq<Item>) {
    forall x, y :: x in items && y in items && x.key == y.key ==> x == y
  }

  lemma {:induction false} ApplyByKey(table: map<Key, bv8>, items: seq<Item>, k: Key)
    requires Consistent(items)
    ensures var after := Apply(table, items);
            && (forall x :: x in items && x.key == k ==> (k in after <==> x.mask != 0) && (k in after ==> after[k] == x.mask))
            && ((forall x :: x in items ==> x.key != k) ==> (k in after <==> k in table) && (k in after ==> after[k] == table[k]))
  {
    if items != [] {
      var n := |items| - 1;
      var front, last := items[..n], items[n];
      assert items == front + [last];
      ApplyByKey(table, front, k);
    }
  }

  /** Sorting the items, or visiting them in any other order, makes no difference. */
  lemma OrderIrrelevant(table: map<Key, bv8>, a: seq<Item>, b: seq<Item>)
    requires Consistent(a) && forall x :: x in a <==> x in b
    ensures Apply(table, a) == Apply(table, b)
  {
    var s, t := Apply(table, a), Apply(table, b);
    forall k: Key ensures (k in s <==> k in t) && (k in s ==> s[k] == t[k]) {
      ApplyByKey(table, a, k);
      ApplyByKey(table, b, k);
      if x :| x in a && x.key == k {
        assert x in b;
      }
    }
  }

  /** The items name exactly the symbols of a mask map, with their masks. */
  predicate Announces(d: Dictionary, masks: map<Symbol, bv8>, items: seq<Item>) {
    && (forall x <- items :: exists s <- masks :: ItemOf(d, masks, s, x))
    && (forall s <- masks :: Resolve(d, s).Some? ==> Item(Resolve(d, s).value, masks[s]) in items)
  }

  predicate ItemOf(d: Dictionary, masks: map<Symbol, bv8>, s: Symbol, x: Item)
    requires s in masks
  {
    Resolve(d, s) == Some(x.key) && masks[s] == x.mask
  }

  lemma AnnouncedConsistent(d: Dictionary, masks: map<Symbol, bv8>, items: seq<Item>)
    requires Coherent(d) && Announces(d, masks, items)
    ensures Consistent(items)
  {
    forall x, y | x in items && y in items && x.key == y.key ensures x == y {
      var s :| s in masks && ItemOf(d, masks, s, x);
      var t :| t in masks && ItemOf(d, masks, t, y);
      ResolveInjective(d, s, t);
    }
  }

  predicate Announced(d: Dictionary, subs: map<Symbol, bv8>, k: Key, mask: bv8) {
    exists s <- subs :: Resolve(d, s) == Some(k) && subs[s] == mask
  }

  /** The server knows exactly the resolvable symbols of the client, with their masks. */
  predicate IsImage(d: Dictionary, subs: map<Symbol, bv8>, table: map<Key, bv8>) {
    && (forall s <- subs :: subs[s] != 0)
    && (forall s <- subs :: Resolve(d, s).Some? ==> Resolve(d, s).value in table && table[Resolve(d, s).value] == subs[s])
    && (forall k <- table :: Announced(d, subs, k, table[k]))
  }

  function Merge(subs: map<Symbol, bv8>, next: map<Symbol, bv8>): map<Symbol, bv8> {
    map s | s in subs.Keys + next.Keys && (if s in next then next[s] else subs[s]) != 0
      :: if s in next then next[s] else subs[s]
  }

  lemma ChangeKeepsImage(d: Dictionary, subs: map<Symbol, bv8>, table: map<Key, bv8>, next: map<Symbol, bv8>, items: seq<Item>)
    requires Coherent(d) && IsImage(d, subs, table) && Announces(d, next, items)
    requires forall s <- next :: Resolve(d, s).Some?
    ensures IsImage(d, Merge(subs, next), Apply(table, items))
  {
    hide Coherent, Resolve, Apply;
    AnnouncedConsistent(d, next, items);
    var merged, after := Merge(subs, next), Apply(table, items);
    forall s <- merged | Resolve(d, s).Some?
      ensures Resolve(d, s).value in after && after[Resolve(d, s).value] == merged[s]
    {
      KeyAfter(d, subs, table, next, items, s);
    }
    forall k <- after ensures Announced(d, merged, k, after[k]) {
      ApplyByKey(table, items, k);
      if s :| s in next && Resolve(d, s) == Some(k) {
        assert Item(k, next[s]) in items && s in merged;
      } else {
        forall x <- items ensures x.key != k {
          var s :| s in next && ItemOf(d, next, s, x);
        }
        var s :| s in subs && Resolve(d, s) == Some(k) && subs[s] == table[k];
        assert s in merged && merged[s] == subs[s];
      }
    }
  }

  lemma KeyAfter(d: Dictionary, subs: map<Symbol, bv8>, table: map<Key, bv8>, next: map<Symbol, bv8>, items: seq<Item>, s: Symbol)
    requires Coherent(d) && IsImage(d, subs, table) && Announces(d, next, items) && Consistent(items)
    requires s in subs.Keys + next.Keys && Resolve(d, s).Some?
    ensures var k, after := Resolve(d, s).value, Apply(table, items);
            var mask := if s in next then next[s] else subs[s];
            mask != 0 ==> k in after && after[k] == mask
  {
    hide Coherent, Resolve, Apply;
    var k := Resolve(d, s).value;
    ApplyByKey(table, items, k);
    if s in next {
      assert Item(k, next[s]) in items;
    } else if x :| x in items && x.key == k {
      var t :| t in next && ItemOf(d, next, t, x);
      ResolveInjective(d, s, t);
      assert false;
    }
  }

  /** A reconnect starts from an empty table and announces every subscription that the new
      session still trades. */
  lemma ResubscribeRestoresImage(d: Dictionary, subs: map<Symbol, bv8>, items: seq<Item>)
    requires Coherent(d) && Announces(d, subs, items) && forall s <- subs :: subs[s] != 0
    ensures IsImage(d, subs, Apply(map[], items))
  {
    hide Coherent, Resolve, Apply;
    AnnouncedConsistent(d, subs, items);
    var after := Apply(map[], items);
    forall s <- subs | Resolve(d, s).Some?
      ensures Resolve(d, s).value in after && after[Resolve(d, s).value] == subs[s]
    {
      ApplyByKey(map[], items, Resolve(d, s).value);
      assert Item(Resolve(d, s).value, subs[s]) in items;
    }
    forall k <- after ensures Announced(d, subs, k, after[k]) {
      ApplyByKey(map[], items, k);
      var x :| x in items && x.key == k;
      var s :| s in subs && ItemOf(d, subs, s, x);
    }
  }

  /** A new security leaves the table the image of the masks exactly when every subscribed
      symbol that it registers already stood for it. */
  lemma AddKeepsImage(d: Dictionary, subs: map<Symbol, bv8>, table: map<Key, bv8>, sec: Security)
    requires Coherent(d) && KeepsSeccode(d, sec) && IsImage(d, subs, table)
    ensures IsImage(Added(d, sec), subs, table) <==>
            forall s <- subs :: s in Names(d, sec) ==> s in d.symbols && d.symbols[s] == sec.id
  {
    hide Coherent, Added, Names, Resolve;
    var d' := Added(d, sec);
    if forall s <- subs :: s in Names(d, sec) ==> s in d.symbols && d.symbols[s] == sec.id {
      forall s <- subs ensures Resolve(d', s) == Resolve(d, s) {
        AddedResolves(d, sec, s);
        if s in Names(d, sec) {
          ResolvedName(d, sec, s);
        }
      }
      forall k <- table ensures Announced(d', subs, k, table[k]) {
        var s :| s in subs && Resolve(d, s) == Some(k) && subs[s] == table[k];
      }
    } else {
      var s :| s in subs && s in Names(d, sec) && !(s in d.symbols && d.symbols[s] == sec.id);
      AddedResolves(d, sec, s);
      if IsImage(d', subs, table) {
        var k := Resolve(d', s).value;
        var t :| t in subs && Resolve(d, t) == Some(k) && subs[t] == table[k];
        NameResolves(d, sec, s, t);
      }
    }
  }

  lemma ResolvedName(d: Dictionary, sec: Security, s: Symbol)
    requires Coherent(d) && s in Names(d, sec) && s in d.symbols && d.symbols[s] == sec.id
    ensures s.board in d.codes && Resolve(d, s) == Some((sec.id, d.codes[s.board].num))
  {
  }

  lemma NameResolves(d: Dictionary, sec: Security, s: Symbol, t: Symbol)
    requires Coherent(d) && KeepsSeccode(d, sec) && s in Names(d, sec) && s.board in d.codes
    requires Resolve(d, t) == Some((sec.id, d.codes[s.board].num))
    ensures s == t && s in d.symbols && d.symbols[s] == sec.id
  {
    assert d.codes[s.board] == d.codes[t.board];
  }

  // ---- the mask algebra ----

  datatype Feed = AllTrades | Quotations | Quotes

  datatype Selection = Selection(allTrades: seq<Symbol>, quotations: seq<Symbol>, quotes: seq<Symbol>)

  function FeedBit(f: Feed): bv8 {
    match f
    case AllTrades => SUB_ALL_TRADES
    case Quotations => SUB_QUOTATIONS
    case Quotes => SUB_QUOTES
  }

  predicate HasFeed(mask: bv8, f: Feed) { mask & FeedBit(f) != 0 }

  /** The masks in figures. */
  lemma MasksInFigures(mask: bv8)
    ensures mask < 8 ==>
              && (HasFeed(mask, Quotations) <==> mask in {1, 3, 5, 7}) && (HasFeed(mask, Quotes) <==> mask in {2, 3, 6, 7})
              && (HasFeed(mask, AllTrades) <==> mask in {4, 5, 6, 7})
  {
  }

  function FeedSymbols(sel: Selection, f: Feed): seq<Symbol> {
    match f
    case AllTrades => sel.allTrades
    case Quotations => sel.quotations
    case Quotes => sel.quotes
  }

  function Switched(mask: bv8, bits: bv8, on: bool): bv8 {
    if on then mask | bits else mask & !bits
  }

  function MaskOf(subs: map<Symbol, bv8>, s: Symbol): bv8 {
    if s in subs then subs[s] else 0
  }

  function Wanted(sel: Selection, s: Symbol): bv8 {
    If(s in sel.allTrades, SUB_ALL_TRADES) | If(s in sel.quotations, SUB_QUOTATIONS) | If(s in sel.quotes, SUB_QUOTES)
  }

  /** The mask each symbol named by the call will have, other symbols left out. */
  function Next(subs: map<Symbol, bv8>, sel: Selection, on: bool): map<Symbol, bv8> {
    map s | s in sel.allTrades + sel.quotations + sel.quotes :: Switched(MaskOf(subs, s), Wanted(sel, s), on)
  }

  lemma SwitchTwice(mask: bv8, bits: bv8, on: bool)
    ensures Switched(Switched(mask, bits, on), bits, on) == Switched(mask, bits, on)
  {
  }

  function If(c: bool, bits: bv8): bv8 { if c then bits else 0 }

  function Once(m: bv8, listed: bool, bit: bv8, on: bool): bv8 { if listed then Switched(m, bit, on) else m }

  lemma ThreeSwitches(m: bv8, x: bool, y: bool, z: bool, on: bool)
    ensures Once(Once(Once(m, x, SUB_ALL_TRADES, on), y, SUB_QUOTATIONS, on), z, SUB_QUOTES, on)
         == Switched(m, If(x, SUB_ALL_TRADES) | If(y, SUB_QUOTATIONS) | If(z, SUB_QUOTES), on)
  {
  }

  lemma ThreeOnce(m: bv8, sel: Selection, s: Symbol, on: bool)
    ensures Once(Once(Once(m, s in sel.allTrades, SUB_ALL_TRADES, on), s in sel.quotations, SUB_QUOTATIONS, on),
                 s in sel.quotes, SUB_QUOTES, on)
         == Switched(m, Wanted(sel, s), on)
    ensures s !in sel.allTrades + sel.quotations + sel.quotes ==> Switched(m, Wanted(sel, s), on) == m
  {
    hide Once;
    ThreeSwitches(m, s in sel.allTrades, s in sel.quotations, s in sel.quotes, on);
  }

  lemma SwitchedBit(mask: bv8, sel: Selection, s: Symbol, on: bool, f: Feed)
    ensures HasFeed(Switched(mask, Wanted(sel, s), on), f)
            <==> if s in FeedSymbols(sel, f) then on else HasFeed(mask, f)
  {
  }

  // ---- whole runs ----

  datatype World = World(d: Dictionary, subs: map<Symbol, bv8>, table: map<Key, bv8>)

  /** Successful calls, and the records that change the catalog between them. */
  datatype Op = Change(sel: Selection, on: bool) | Arrival(sec: Security) | Flagged(id: u16, flags: bv8) | Reconnect(d: Dictionary)

  predicate Harmless(w: World, sec: Security) {
    && KeepsSeccode(w.d, sec)
    && forall s <- w.subs :: s in Names(w.d, sec) ==> s in w.d.symbols && w.d.symbols[s] == sec.id
  }

  ghost predicate Stepped(w: World, op: Op, w': World) {
    match op
    case Change(sel, on) =>
      var next := Next(w.subs, sel, on);
      && w'.d == w.d && w'.subs == Merge(w.subs, next)
      && (forall s <- next :: Resolve(w.d, s).Some?)
      && exists items :: Announces(w.d, next, items) && w'.table == Apply(w.table, items)
    case Arrival(sec) => Harmless(w, sec) && w' == w.(d := Added(w.d, sec))
    case Flagged(id, flags) =>
      id in w.d.secs && w' == w.(d := w.d.(secs := w.d.secs[id := w.d.secs[id].(flags := flags)]))
    case Reconnect(d) =>
      && Coherent(d) && w'.d == d && w'.subs == w.subs
      && exists items :: Announces(d, w.subs, items) && w'.table == Apply(map[], items)
  }

  ghost predicate Run(ws: seq<World>, ops: seq<Op>) {
    |ws| == |ops| + 1 && forall i :: 0 <= i < |ops| ==> Stepped(ws[i], ops[i], ws[i + 1])
  }

  predicate Good(w: World) {
    Coherent(w.d) && IsImage(w.d, w.subs, w.table)
  }

  lemma FlagsKeepImage(w: World, id: u16, flags: bv8)
    requires Good(w) && id in w.d.secs
    ensures Good(w.(d := w.d.(secs := w.d.secs[id := w.d.secs[id].(flags := flags)])))
  {
    var d' := w.d.(secs := w.d.secs[id := w.d.secs[id].(flags := flags)]);
    assert forall s :: Resolve(d', s) == Resolve(w.d, s);
    forall k <- w.table ensures Announced(d', w.subs, k, w.table[k]) {
      var s :| s in w.subs && Resolve(w.d, s) == Some(k) && w.subs[s] == w.table[k];
    }
  }

  lemma StepKeepsImage(w: World, op: Op, w': World)
    requires Good(w) && Stepped(w, op, w')
    ensures Good(w')
  {
    hide Coherent, IsImage, Resolve, Apply, Announces, Added, Names;
    match op
    case Change(sel, on) =>
      var next := Next(w.subs, sel, on);
      var items :| Announces(w.d, next, items) && w'.table == Apply(w.table, items);
      ChangeKeepsImage(w.d, w.subs, w.table, next, items);
    case Arrival(sec) =>
      AddedCoherent(w.d, sec);
      AddKeepsImage(w.d, w.subs, w.table, sec);
    case Flagged(id, flags) => FlagsKeepImage(w, id, flags);
    case Reconnect(d) =>
      var items :| Announces(d, w.subs, items) && w'.table == Apply(map[], items);
      NonZero(w);
      ResubscribeRestoresImage(d, w.subs, items);
  }

  lemma NonZero(w: World)
    requires IsImage(w.d, w.subs, w.table)
    ensures forall s <- w.subs :: w.subs[s] != 0
  {
  }

  /** What the caller asked for last about one feed of one symbol. */
  predicate Selected(ops: seq<Op>, s: Symbol, f: Feed) {
    if ops == [] then false
    else
      var last := ops[|ops| - 1];
      if last.Change? && s in FeedSymbols(last.sel, f) then last.on else Selected(ops[..|ops| - 1], s, f)
  }

  lemma StepSelects(w: World, op: Op, w': World, s: Symbol, f: Feed)
    requires Stepped(w, op, w')
    ensures HasFeed(MaskOf(w'.subs, s), f)
            <==> if op.Change? && s in FeedSymbols(op.sel, f) then op.on else HasFeed(MaskOf(w.subs, s), f)
  {
    hide HasFeed, Stepped, Merge, Next, MaskOf, Switched, Wanted, FeedBit, FeedSymbols;
    SubsAfter(w, op, w');
    if op.Change? {
      SwitchedBit(MaskOf(w.subs, s), op.sel, s, op.on, f);
      MaskAfterMerge(w.subs, Next(w.subs, op.sel, op.on), s);
      NextMask(w.subs, op.sel, op.on, s, f);
    }
  }

  lemma SubsAfter(w: World, op: Op, w': World)
    requires Stepped(w, op, w')
    ensures w'.subs == if op.Change? then Merge(w.subs, Next(w.subs, op.sel, op.on)) else w.subs
  {
    hide Coherent, Resolve, Announces, Apply, Names, Merge, Next, Added;
  }

  lemma NextMask(subs: map<Symbol, bv8>, sel: Selection, on: bool, s: Symbol, f: Feed)
    ensures var next := Next(subs, sel, on);
            if s in next then next[s] == Switched(MaskOf(subs, s), Wanted(sel, s), on) else s !in FeedSymbols(sel, f)
  {
    hide MaskOf, Switched, Wanted;
  }

  lemma MaskAfterMerge(subs: map<Symbol, bv8>, next: map<Symbol, bv8>, s: Symbol)
    ensures MaskOf(Merge(subs, next), s) == if s in next then next[s] else MaskOf(subs, s)
  {
  }

  lemma {:induction false} RunSelects(ws: seq<World>, ops: seq<Op>, s: Symbol, f: Feed)
    requires Run(ws, ops) && Good(ws[0]) && ws[0].subs == map[]
    ensures Good(ws[|ops|])
    ensures HasFeed(MaskOf(ws[|ops|].subs, s), f) <==> Selected(ops, s, f)
  {
    hide Good, Stepped, HasFeed;
    if ops == [] {
      NothingSelected(s, f);
    } else {
      var n := |ops| - 1;
      RunSelects(ws[..|ops|], ops[..n], s, f);
      assert Stepped(ws[n], ops[n], ws[n + 1]);
      StepKeepsImage(ws[n], ops[n], ws[n + 1]);
      StepSelects(ws[n], ops[n], ws[n + 1], s, f);
    }
  }

  lemma NothingSelected(s: Symbol, f: Feed)
    ensures !HasFeed(MaskOf(map[], s), f)
  {
  }

  /** After any run of successful calls the server sends a feed of a symbol that the session
      trades exactly when the last call that named it was a subscribe. */
  lemma ServerKnowsSelection(ws: seq<World>, ops: seq<Op>, s: Symbol, f: Feed)
    requires Run(ws, ops) && Good(ws[0]) && ws[0].subs == map[]
    requires Resolve(ws[|ops|].d, s).Some?
    ensures var w := ws[|ops|];
            var k := Resolve(w.d, s).value;
            Selected(ops, s, f) <==> k in w.table && HasFeed(w.table[k], f)
  {
    hide HasFeed, Stepped, Selected, Coherent;
    RunSelects(ws, ops, s, f);
    var w := ws[|ops|];
    var k := Resolve(w.d, s).value;
    if s !in w.subs {
      NothingSelected(s, f);
      if k in w.table {
        var t :| t in w.subs && Resolve(w.d, t) == Some(k) && w.subs[t] == w.table[k];
        ResolveInjective(w.d, s, t);
      }
    }
  }

  // ---- the catalog object ----

  lemma RegisterNone(symbols: map<Symbol, u16>, boards: map<u16, Board>, sec: Security)
    ensures symbols == symbols + map s | s in NamesOn(boards, sec.pits[..0], sec.seccode) :: sec.id
  {
  }

  /** R_SEC_ONOFF (0x0d) replaces the two low bits and may set more, R_SEC_MKT_PERMIT (0x0e)
      switches bit 2; the other attribute records change nothing here. */
  function NewFlags(tag: byte, flags: bv8, v: bv8): bv8 {
    if tag == 0x0d then (flags & 0xfc) | v else if tag == 0x0e then Switched(flags, 4, v != 0) else flags
  }

  /** Every flag bit after an attribute record: R_SEC_ONOFF replaces the two low ones and adds to
      the others, R_SEC_MKT_PERMIT decides the third, any other tag leaves all as they were. */
  lemma FlagBits(tag: byte, flags: bv8, v: bv8)
    ensures tag == 0x0d ==>
              NewFlags(tag, flags, v) & 3 == v & 3 && NewFlags(tag, flags, v) & 0xfc == (flags & 0xfc) | (v & 0xfc)
    ensures tag == 0x0e ==> NewFlags(tag, flags, v) & 0xfb == flags & 0xfb && (NewFlags(tag, flags, v) & 4 != 0 <==> v != 0)
    ensures tag != 0x0d && tag != 0x0e ==> NewFlags(tag, flags, v) == flags
  {
  }

  /** R_SEC_ZALOG, R_SEC_OBLIG, R_SEC_ONOFF and R_SEC_MKT_PERMIT. */
  const ATTRIBUTES: set<byte> := {0x0b, 0x0c, 0x0d, 0x0e}

  datatype Mutation = NotAttribute | ShortBody | Taken

  /** The catalog after an attribute record: a big-endian security number and a value byte. */
  function Reflagged(d: Dictionary, tag: byte, body: seq<byte>): Dictionary
    requires |body| >= 3 && Be16(body[..2]) in d.secs
  {
    var id := Be16(body[..2]);
    d.(secs := d.secs[id := d.secs[id].(flags := NewFlags(tag, d.secs[id].flags, body[2] as bv8))])
  }

  function ByNum(boards: seq<Board>): map<u16, Board> {
    if boards == [] then map[] else ByNum(boards[..|boards| - 1])[boards[|boards| - 1].num := boards[|boards| - 1]]
  }

  function ByCode(boards: seq<Board>): map<string, Board> {
    if boards == [] then map[] else ByCode(boards[..|boards| - 1])[boards[|boards| - 1].code := boards[|boards| - 1]]
  }

  predicate UniqueBoards(boards: seq<Board>) {
    forall i, j :: 0 <= i < j < |boards| ==> boards[i].num != boards[j].num && boards[i].code != boards[j].code
  }

  lemma {:induction false} BoardsIndexed(boards: seq<Board>)
    requires UniqueBoards(boards)
    ensures forall n <- ByNum(boards) :: ByNum(boards)[n] in boards && ByNum(boards)[n].num == n
    ensures forall c <- ByCode(boards) :: ByCode(boards)[c] in boards && ByCode(boards)[c].code == c
    ensures forall b <- boards :: b.num in ByNum(boards) && ByNum(boards)[b.num] == b
                                  && b.code in ByCode(boards) && ByCode(boards)[b.code] == b
  {
    if boards != [] {
      var n := |boards| - 1;
      BoardsIndexed(boards[..n]);
      assert boards == boards[..n] + [boards[n]];
    }
  }

  /** Of boards with the same number, and of boards with the same code, the last is found. */
  lemma {:induction false} LastBoardFound(boards: seq<Board>, i: nat)
    requires i < |boards|
    ensures (forall j :: i < j < |boards| ==> boards[j].num != boards[i].num) ==>
              boards[i].num in ByNum(boards) && ByNum(boards)[boards[i].num] == boards[i]
    ensures (forall j :: i < j < |boards| ==> boards[j].code != boards[i].code) ==>
              boards[i].code in ByCode(boards) && ByCode(boards)[boards[i].code] == boards[i]
    decreases |boards|
  {
    var n := |boards| - 1;
    if i < n {
      LastBoardFound(boards[..n], i);
      assert boards[..n][i] == boards[i];
    }
  }

  /** A catalog fresh from dictionaries with unique boards is coherent. */
  lemma NewCatalogCoherent(boards: seq<Board>)
    requires UniqueBoards(boards)
    ensures Coherent(Dictionary(ByNum(boards), ByCode(boards), map[], map[]))
  {
    BoardsIndexed(boards);
  }

  class Catalog {
    var boards: map<u16, Board>
    var codes: map<string, Board>
    var secs: map<u16, Security>
    var symbols: map<Symbol, u16>
    var order: seq<u16>
    var delivered: nat

    function View(): Dictionary
      reads this
    {
      Dictionary(boards, codes, secs, symbols)
    }

    /** The arrival order enumerates the securities without duplicates. */
    ghost predicate Valid()
      reads this
    {
      && delivered <= |order|
      && (forall i, j :: 0 <= i < j < |order| ==> order[i] != order[j])
      && forall id :: id in order <==> id in secs
    }

    constructor (startup: seq<Board>)
      ensures Valid() && order == [] && View() == Dictionary(ByNum(startup), ByCode(startup), map[], map[])
    {
      boards, codes, secs, symbols, order, delivered := map[], map[], map[], map[], [], 0;
      new;
      var i := 0;
      while i < |startup|
        invariant 0 <= i <= |startup| && boards == ByNum(startup[..i]) && codes == ByCode(startup[..i])
        invariant Valid() && order == [] && secs == map[] && symbols == map[]
      {
        assert startup[..i + 1][..i] == startup[..i];
        boards, codes := boards[startup[i].num := startup[i]], codes[startup[i].code := startup[i]];
        i := i + 1;
      }
      assert startup[..i] == startup;
    }

    method Register(sec: Security)
      modifies this`symbols
      ensures symbols == old(symbols) + map s | s in NamesOn(boards, sec.pits, sec.seccode) :: sec.id
    {
      hide NamesOn;
      RegisterNone(symbols, boards, sec);
      for i := 0 to |sec.pits|
        invariant symbols == old(symbols) + map s | s in NamesOn(boards, sec.pits[..i], sec.seccode) :: sec.id
      {
        var p := sec.pits[i];
        assert sec.pits[..i + 1] == sec.pits[..i] + [p];
        NamesGrow(boards, sec.pits[..i], p, sec.seccode);
        if p in boards {
          var s := Symbol(boards[p].code, sec.seccode);
          RegisterOne(old(symbols), NamesOn(boards, sec.pits[..i], sec.seccode), s, sec.id);
          symbols := symbols[s := sec.id];
        }
      }
      assert sec.pits[..|sec.pits|] == sec.pits;
    }

    /** Enters `sec` in the catalog and queues it for delivery on first arrival. */
    method AddSecurity(sec: Security)
      requires Valid()
      modifies this
      ensures Valid() && View() == Added(old(View()), sec) && delivered == old(delivered)
      ensures order == if sec.id in old(secs) then old(order) else old(order) + [sec.id]
    {
      hide NamesOn;
      if sec.id !in secs {
        order := order + [sec.id];
      }
      secs := secs[sec.id := sec];
      Register(sec);
    }

    /** The securities that arrived since the last call, each once and in arrival order. */
    method DrainPending() returns (chunk: seq<Security>)
      requires Valid()
      modifies this`delivered
      ensures Valid() && delivered == |order|
      ensures |chunk| == |order| - old(delivered)
      ensures forall i :: 0 <= i < |chunk| ==> order[old(delivered) + i] in secs && chunk[i] == secs[order[old(delivered) + i]]
    {
      chunk := [];
      while delivered < |order|
        invariant Valid() && old(delivered) <= delivered && |chunk| == delivered - old(delivered)
        invariant forall i :: 0 <= i < |chunk| ==> order[old(delivered) + i] in secs && chunk[i] == secs[order[old(delivered) + i]]
      {
        chunk := chunk + [secs[order[delivered]]];
        delivered := delivered + 1;
      }
    }

    /** An attribute record changes the flags of the security it names and nothing else; an
        unknown security is passed over, a body without its three bytes is refused. */
    method Mutate(tag: byte, body: seq<byte>) returns (m: Mutation)
      requires Valid()
      modifies this`secs
      ensures Valid()
      ensures m == if tag !in ATTRIBUTES then NotAttribute else if |body| < 3 then ShortBody else Taken
      ensures View() == if m == Taken && Be16(body[..2]) in old(secs) then Reflagged(old(View()), tag, body) else old(View())
    {
      if tag !in ATTRIBUTES {
        return NotAttribute;
      }
      if |body| < 3 {
        return ShortBody;
      }
      m := Taken;
      var id, v := Be16(body[..2]), body[2] as bv8;
      if id !in secs {
        return;
      }
      var flags := secs[id].flags;
      if tag == 0x0d {
        flags := (flags & 0xfc) | v;
      } else if tag == 0x0e {
        flags := Switched(flags, 4, v != 0);
      }
      assert flags == NewFlags(tag, secs[id].flags, v);
      secs := secs[id := secs[id].(flags := flags)];
    }
  }

  // ---- the client ----

  class Server {
    var table: map<Key, bv8>

    constructor ()
      ensures table == map[]
    {
      table := map[];
    }

    method Receive(items: seq<Item>)
      modifies this
      ensures table == Apply(old(table), items)
    {
      for i := 0 to |items|
        invariant table == Apply(old(table), items[..i])
      {
        assert items[..i + 1][..i] == items[..i];
        table := Put(table, items[i]);
      }
      assert items[..|items|] == items;
    }
  }

  lemma NothingSent(table: map<Key, bv8>)
    ensures Apply(table, []) == table
  {
  }

  /** How a send ends: answered, or failed before or after the server applied it. */
  datatype Delivery = Answered | LostBefore | LostAfter

  /** How far a new session gets: dial or login refused, lost while loading (before or after
      the catalog was replaced), or loaded. */
  datatype Opening = Refused | LoadFails(replaced: bool) | Loaded

  lemma ReconnectStep(w: World, d: Dictionary, items: seq<Item>)
    requires Coherent(d) && Announces(d, w.subs, items)
    ensures Stepped(w, Op.Reconnect(d), World(d, w.subs, Apply(map[], items)))
    ensures items == [] <==> forall s <- w.subs :: Resolve(d, s) == None
  {
    hide Resolve, Apply;
    if items != [] {
      assert items[0] in items;
    }
  }

  datatype Outcome = Changed | BeingRecovered | NotConnected | UnknownSecurity | SendFailed

  predicate AnnouncesSome(d: Dictionary, masks: map<Symbol, bv8>, done: set<Symbol>, items: seq<Item>) {
    && (forall x <- items :: exists s <- masks :: ItemOf(d, masks, s, x))
    && (forall s <- masks :: s in done && Resolve(d, s).Some? ==> Item(Resolve(d, s).value, masks[s]) in items)
  }

  lemma AnnounceOne(d: Dictionary, masks: map<Symbol, bv8>, done: set<Symbol>, items: seq<Item>, s: Symbol)
    requires AnnouncesSome(d, masks, done, items) && s in masks
    ensures Resolve(d, s) == None ==> AnnouncesSome(d, masks, done + {s}, items)
    ensures Resolve(d, s).Some? ==> AnnouncesSome(d, masks, done + {s}, items + [Item(Resolve(d, s).value, masks[s])])
  {
    hide Resolve;
    if Resolve(d, s).Some? {
      assert ItemOf(d, masks, s, Item(Resolve(d, s).value, masks[s]));
    }
  }

  function Part(next: map<Symbol, bv8>, done: set<Symbol>): map<Symbol, bv8> {
    map s | s in next && s in done :: next[s]
  }

  lemma MergeNone(subs: map<Symbol, bv8>, next: map<Symbol, bv8>)
    requires forall s <- subs :: subs[s] != 0
    ensures Merge(subs, Part(next, next.Keys - next.Keys)) == subs
  {
  }

  lemma MergeNonZero(subs: map<Symbol, bv8>, next: map<Symbol, bv8>)
    ensures forall s <- Merge(subs, next) :: Merge(subs, next)[s] != 0
  {
  }

  lemma MergeOne(subs: map<Symbol, bv8>, next: map<Symbol, bv8>, done: set<Symbol>, s: Symbol)
    requires s in next
    ensures Merge(subs, Part(next, done + {s}))
         == if next[s] == 0 then Merge(subs, Part(next, done)) - {s} else Merge(subs, Part(next, done))[s := next[s]]
  {
  }

  /** One feed's loop has switched its bit in every listed symbol and left the others alone. */
  predicate Fed(subs: map<Symbol, bv8>, start: map<Symbol, bv8>, symbols: seq<Symbol>, bit: bv8, on: bool, next: map<Symbol, bv8>) {
    && next.Keys == start.Keys + (set s | s in symbols)
    && forall s <- next :: next[s] == Once(if s in start then start[s] else MaskOf(subs, s), s in symbols, bit, on)
  }

  lemma FedNone(subs: map<Symbol, bv8>, start: map<Symbol, bv8>, bit: bv8, on: bool)
    ensures Fed(subs, start, [], bit, on, start)
  {
    hide Switched, MaskOf;
  }

  lemma FedGrows(subs: map<Symbol, bv8>, start: map<Symbol, bv8>, symbols: seq<Symbol>, bit: bv8, on: bool,
                 next: map<Symbol, bv8>, s: Symbol)
    requires Fed(subs, start, symbols, bit, on, next)
    ensures Fed(subs, start, symbols + [s], bit, on,
                next[s := Switched(if s in next then next[s] else MaskOf(subs, s), bit, on)])
  {
    hide Switched, MaskOf, Once;
    var m := if s in start then start[s] else MaskOf(subs, s);
    FedAt(subs, start, symbols, bit, on, next, s);
    OnceMore(m, s in symbols, bit, on);
    forall t: Symbol ensures t in symbols + [s] <==> t in symbols || t == s {}
  }

  lemma OnceMore(m: bv8, listed: bool, bit: bv8, on: bool)
    ensures Switched(Once(m, listed, bit, on), bit, on) == Once(m, true, bit, on)
  {
    SwitchTwice(m, bit, on);
  }

  lemma FedAt(subs: map<Symbol, bv8>, start: map<Symbol, bv8>, symbols: seq<Symbol>, bit: bv8, on: bool,
              next: map<Symbol, bv8>, s: Symbol)
    requires Fed(subs, start, symbols, bit, on, next)
    ensures s in next <==> s in start || s in symbols
    ensures (if s in next then next[s] else MaskOf(subs, s))
         == Once(if s in start then start[s] else MaskOf(subs, s), s in symbols, bit, on)
  {
    hide Switched, MaskOf;
  }

  lemma ThreeFeeds(subs: map<Symbol, bv8>, sel: Selection, on: bool,
                   a: map<Symbol, bv8>, b: map<Symbol, bv8>, c: map<Symbol, bv8>)
    requires Fed(subs, map[], sel.allTrades, SUB_ALL_TRADES, on, a)
    requires Fed(subs, a, sel.quotations, SUB_QUOTATIONS, on, b) && Fed(subs, b, sel.quotes, SUB_QUOTES, on, c)
    ensures c == Next(subs, sel, on)
  {
    hide Switched, MaskOf, Wanted, Once, Fed;
    var n := Next(subs, sel, on);
    forall s: Symbol ensures (s in c <==> s in n) && (s in c ==> c[s] == n[s]) {
      FedAt(subs, map[], sel.allTrades, SUB_ALL_TRADES, on, a, s);
      FedAt(subs, a, sel.quotations, SUB_QUOTATIONS, on, b, s);
      FedAt(subs, b, sel.quotes, SUB_QUOTES, on, c, s);
      ThreeOnce(MaskOf(subs, s), sel, s, on);
    }
  }

  class Client {
    var catalog: Catalog?
    var server: Server?
    var subs: map<Symbol, bv8>
    var recovering: bool

    constructor (c: Catalog, conn: Server)
      ensures catalog == c && server == conn && subs == map[] && !recovering
    {
      catalog, server, subs, recovering := c, conn, map[], false;
    }

    function Now(): World
      reads this, catalog, server
    {
      World(if catalog == null then Dictionary(map[], map[], map[], map[]) else catalog.View(), subs,
            if server == null then map[] else server.table)
    }

    /** The items of a mask map; an unknown symbol is skipped, or ends the collection. */
    method Collect(masks: map<Symbol, bv8>, skipUnknown: bool) returns (ok: bool, items: seq<Item>)
      requires catalog != null
      ensures ok <==> skipUnknown || forall s <- masks :: Resolve(catalog.View(), s).Some?
      ensures ok ==> Announces(catalog.View(), masks, items)
    {
      hide Resolve;
      var d := catalog.View();
      var todo := masks.Keys;
      items := [];
      while todo != {}
        invariant todo <= masks.Keys
        invariant AnnouncesSome(d, masks, masks.Keys - todo, items)
        invariant skipUnknown || forall s <- masks :: s !in todo ==> Resolve(d, s).Some?
        decreases todo
      {
        var s :| s in todo;
        AnnounceOne(d, masks, masks.Keys - todo, items, s);
        assert masks.Keys - (todo - {s}) == (masks.Keys - todo) + {s};
        match Resolve(d, s) {
          case None =>
            if !skipUnknown {
              return false, [];
            }
          case Some(key) => items := items + [Item(key, masks[s])];
        }
        todo := todo - {s};
      }
      ok := true;
    }

    /** No mask of the client is empty. */
    predicate Valid()
      reads this
    {
      forall s <- subs :: subs[s] != 0
    }

    method Record(next: map<Symbol, bv8>)
      requires Valid()
      modifies this`subs
      ensures Valid() && subs == Merge(old(subs), next)
    {
      hide Merge;
      MergeNone(subs, next);
      var todo := next.Keys;
      while todo != {}
        invariant todo <= next.Keys && subs == Merge(old(subs), Part(next, next.Keys - todo))
        decreases todo
      {
        var s :| s in todo;
        MergeOne(old(subs), next, next.Keys - todo, s);
        assert next.Keys - (todo - {s}) == (next.Keys - todo) + {s};
        if next[s] == 0 {
          subs := subs - {s};
        } else {
          subs := subs[s := next[s]];
        }
        todo := todo - {s};
      }
      assert Part(next, next.Keys - todo) == next;
      MergeNonZero(old(subs), next);
    }

    /** One subscribe or unsubscribe: a call that succeeds is a step of the run model, and one
        that fails leaves the client's masks alone. */
    method ChangeSubscription(sel: Selection, on: bool, delivery: Delivery) returns (r: Outcome)
      requires Valid()
      modifies this`subs, server
      ensures Valid() && server == old(server) && catalog == old(catalog)
      ensures r == BeingRecovered <==> recovering
      ensures r == NotConnected <==> !recovering && (server == null || catalog == null)
      ensures r == UnknownSecurity <==> (!recovering && server != null && catalog != null
                                         && exists s <- Next(old(subs), sel, on) :: Resolve(catalog.View(), s) == None)
      ensures r == SendFailed ==> delivery != Answered
      ensures r == Changed ==> delivery == Answered && Stepped(old(Now()), Change(sel, on), Now())
      ensures r != Changed ==> subs == old(subs)
      ensures r != Changed && delivery != LostAfter ==> Now() == old(Now())
    {
      hide Resolve, Next, Merge, Apply, Announces;
      var next := BuildNext(sel, on);
      if recovering {
        return BeingRecovered;
      }
      if server == null || catalog == null {
        return NotConnected;
      }
      var ok, items := Collect(next, false);
      if !ok {
        return UnknownSecurity;
      }
      if delivery != LostBefore {
        server.Receive(items);
      }
      if delivery != Answered {
        return SendFailed;
      }
      Record(next);
      r := Changed;
    }

    /** A new session with a rebuilt catalog and an empty table on the server's side. A session
        that never came to be leaves everything alone; one that is lost while loading or
        resubscribing leaves the client without a connection. */
    method Reconnect(opening: Opening, rebuilt: Catalog, conn: Server, delivery: Delivery) returns (ok: bool)
      requires Valid() && Coherent(rebuilt.View()) && conn.table == map[]
      modifies this, conn
      ensures Valid() && subs == old(subs)
      ensures ok <==> opening.Loaded? && (delivery == Answered || forall s <- subs :: Resolve(rebuilt.View(), s) == None)
      ensures ok ==> server == conn && Stepped(old(Now()), Op.Reconnect(rebuilt.View()), Now())
      ensures opening.Refused? ==> server == old(server) && recovering == old(recovering) && conn.table == map[]
      ensures !opening.Refused? ==> !recovering && (!ok ==> server == null)
      ensures catalog == if opening.Loaded? || (opening.LoadFails? && opening.replaced) then rebuilt else old(catalog)
    {
      hide Resolve, Apply, Stepped;
      if opening.Refused? {
        return false;
      }
      server, recovering := conn, true;
      if opening.LoadFails? {
        if opening.replaced {
          catalog := rebuilt;
        }
        server, recovering := null, false;
        return false;
      }
      catalog := rebuilt;
      var _, items := Collect(subs, true);
      ReconnectStep(old(Now()), rebuilt.View(), items);
      if items == [] {
        NothingSent(map[]);
        recovering := false;
        return true;
      }
      if delivery != LostBefore {
        conn.Receive(items);
      }
      recovering := false;
      if delivery != Answered {
        server := null;
        return false;
      }
      ok := true;
    }

    /** Switches one feed bit of every listed symbol. */
    method ApplyFeed(start: map<Symbol, bv8>, symbols: seq<Symbol>, bit: bv8, on: bool) returns (next: map<Symbol, bv8>)
      ensures Fed(subs, start, symbols, bit, on, next)
    {
      hide Switched, MaskOf, Fed;
      FedNone(subs, start, bit, on);
      next := start;
      for i := 0 to |symbols|
        invariant Fed(subs, start, symbols[..i], bit, on, next)
      {
        var s := symbols[i];
        assert symbols[..i + 1] == symbols[..i] + [s];
        var mask := if s in next then next[s] else MaskOf(subs, s);
        FedGrows(subs, start, symbols[..i], bit, on, next, s);
        next := next[s := Switched(mask, bit, on)];
      }
      assert symbols[..|symbols|] == symbols;
    }

    /** One pass per feed list; `next` ends as the masks of exactly the symbols named. */
    method BuildNext(sel: Selection, on: bool) returns (next: map<Symbol, bv8>)
      ensures next == Next(subs, sel, on)
    {
      hide Fed, Next;
      var a := ApplyFeed(map[], sel.allTrades, SUB_ALL_TRADES, on);
      var b := ApplyFeed(a, sel.quotations, SUB_QUOTATIONS, on);
      next := ApplyFeed(b, sel.quotes, SUB_QUOTES, on);
      ThreeFeeds(subs, sel, on, a, b, next);
    }
  }
}
