/**
 Any tree of local operations and merges, evaluated by the daemon's set and by
 the TypeScript set.
 */
module LwwAgreement {
  import opened Common
  import opened Hlc
  import opened LwwSet

  /** How a replica's state came about. */
  datatype History =
    | Start
    | Add(before: History, key: string, value: string, stamp: Stamp)
    | Remove(before: History, key: string, stamp: Stamp)
    | Merge(left: History, right: History)

  datatype Op =
    | AddOp(key: string, value: string, stamp: Stamp)
    | RemoveOp(key: string, stamp: Stamp)

  function Ops(h: History): set<Op> {
    match h
    case Start => {}
    case Add(b, k, v, s) => Ops(b) + {AddOp(k, v, s)}
    case Remove(b, k, s) => Ops(b) + {RemoveOp(k, s)}
    case Merge(l, r) => Ops(l) + Ops(r)
  }

  function RustEval(h: History): Entries {
    match h
    case Start => map[]
    case Add(b, k, v, s) => Put(RustEval(b), k, Entry(Some(v), s, false))
    case Remove(b, k, s) => Put(RustEval(b), k, Entry(None, s, true))
    case Merge(l, r) => Merged(RustEval(l), RustEval(r))
  }

  /** Here `stamp` is the already incremented stamp that `addLwwElement` and `removeLwwElement` store. */
  function TsEval(h: History): TsSet {
    match h
    case Start => TsSet(map[], map[])
    case Add(b, k, v, s) => var t := TsEval(b); t.(adds := t.adds[k := TsElement(v, s)])
    case Remove(b, k, s) => var t := TsEval(b); t.(removes := t.removes[k := s])
    case Merge(l, r) => TsMerge(TsEval(l), TsEval(r))
  }

  /** Two operations on a key with the same (wallclock, counter) are the same operation. */
  ghost predicate NoTies(ops: set<Op>) {
    forall o, p :: o in ops && p in ops && o.key == p.key && Tie(o.stamp, p.stamp) ==> o == p
  }

  /** No local add (remove) is stamped behind an add (remove) of its key that the replica already holds. */
  ghost predicate NeverBackward(h: History) {
    match h
    case Start => true
    case Add(b, k, _, s) =>
      NeverBackward(b) && forall o :: o in Ops(b) && o.AddOp? && o.key == k ==> CompareHlc(o.stamp, s) <= 0
    case Remove(b, k, s) =>
      NeverBackward(b) && forall o :: o in Ops(b) && o.RemoveOp? && o.key == k ==> CompareHlc(o.stamp, s) <= 0
    case Merge(l, r) => NeverBackward(l) && NeverBackward(r)
  }

  /** No operation of `ops` on the same key dominates `o`. */
  ghost predicate Newest(ops: set<Op>, o: Op) {
    o in ops && forall p :: p in ops && p.key == o.key ==> !Dominates(p.stamp, o.stamp)
  }

  /** No operation of `ops` on the same key is after `o` in the total order. */
  ghost predicate Last(ops: set<Op>, o: Op) {
    o in ops && forall p :: p in ops && p.key == o.key ==> CompareHlc(p.stamp, o.stamp) <= 0
  }

  ghost function AddsOf(ops: set<Op>): set<Op> {
    set o | o in ops && o.AddOp?
  }

  ghost function RemovesOf(ops: set<Op>): set<Op> {
    set o | o in ops && o.RemoveOp?
  }

  function EntryOf(o: Op): Entry {
    match o
    case AddOp(_, v, s) => Entry(Some(v), s, false)
    case RemoveOp(_, s) => Entry(None, s, true)
  }

  /** An entry is the effect of a newest operation on its key; a missing entry means no operation. */
  ghost predicate RustHolds(m: Entries, ops: set<Op>, k: string) {
    if k in m then exists o :: Newest(ops, o) && o.key == k && m[k] == EntryOf(o)
    else forall o :: o in ops ==> o.key != k
  }

  ghost predicate TsHolds(t: TsSet, ops: set<Op>, k: string) {
    && (if k in t.adds then Last(AddsOf(ops), AddOp(k, t.adds[k].value, t.adds[k].hlc))
        else forall o :: o in AddsOf(ops) ==> o.key != k)
    && (if k in t.removes then Last(RemovesOf(ops), RemoveOp(k, t.removes[k]))
        else forall o :: o in RemovesOf(ops) ==> o.key != k)
  }

  lemma NewestOfUnion(a: set<Op>, b: set<Op>, o: Op, p: Op)
    requires Newest(a, o) && Newest(b, p) && o.key == p.key && !Dominates(p.stamp, o.stamp)
    ensures Newest(a + b, o)
  {
    forall q | q in b && q.key == o.key ensures !Dominates(q.stamp, o.stamp) {
      DominatesOrder(q.stamp, p.stamp, o.stamp);
      DominatesOrder(p.stamp, q.stamp, o.stamp);
    }
  }

  lemma NewestAlone(a: set<Op>, b: set<Op>, o: Op)
    requires Newest(a, o) && forall q :: q in b ==> q.key != o.key
    ensures Newest(a + b, o)
  {
  }

  lemma PutHolds(m: Entries, ops: set<Op>, o: Op, k: string)
    requires RustHolds(m, ops, k)
    ensures RustHolds(Put(m, o.key, EntryOf(o)), ops + {o}, k)
  {
    if k != o.key {
      if k in m {
        var n :| Newest(ops, n) && n.key == k && m[k] == EntryOf(n);
        NewestAlone(ops, {o}, n);
      }
    } else if k in m {
      var n :| Newest(ops, n) && n.key == k && m[k] == EntryOf(n);
      assert Newest({o}, o) by { DominatesOrder(o.stamp, o.stamp, o.stamp); }
      DominatesOrder(o.stamp, n.stamp, o.stamp);
      if Dominates(o.stamp, n.stamp) {
        NewestOfUnion({o}, ops, o, n);
        assert {o} + ops == ops + {o};
      } else {
        NewestOfUnion(ops, {o}, n, o);
      }
    } else {
      DominatesOrder(o.stamp, o.stamp, o.stamp);
      assert Newest(ops + {o}, o);
    }
  }

  lemma MergedHolds(a: Entries, b: Entries, p: set<Op>, q: set<Op>, k: string)
    requires RustHolds(a, p, k) && RustHolds(b, q, k)
    ensures RustHolds(Merged(a, b), p + q, k)
  {
    assert p + q == q + p;
    if k in a {
      var o :| Newest(p, o) && o.key == k && a[k] == EntryOf(o);
      if k in b {
        var n :| Newest(q, n) && n.key == k && b[k] == EntryOf(n);
        DominatesOrder(o.stamp, n.stamp, o.stamp);
        if Dominates(n.stamp, o.stamp) {
          NewestOfUnion(q, p, n, o);
        } else {
          NewestOfUnion(p, q, o, n);
        }
      } else {
        NewestAlone(p, q, o);
      }
    } else if k in b {
      var n :| Newest(q, n) && n.key == k && b[k] == EntryOf(n);
      NewestAlone(q, p, n);
    }
  }

  /** The daemon's entry for a key is always a newest operation on it, ties or not. */
  lemma {:induction false} RustKeepsNewest(h: History, k: string)
    ensures RustHolds(RustEval(h), Ops(h), k)
  {
    match h
    case Start =>
    case Add(b, key, v, s) =>
      RustKeepsNewest(b, k);
      PutHolds(RustEval(b), Ops(b), AddOp(key, v, s), k);
    case Remove(b, key, s) =>
      RustKeepsNewest(b, k);
      PutHolds(RustEval(b), Ops(b), RemoveOp(key, s), k);
    case Merge(l, r) =>
      RustKeepsNewest(l, k);
      RustKeepsNewest(r, k);
      MergedHolds(RustEval(l), RustEval(r), Ops(l), Ops(r), k);
  }

  /** `compareHlc` never prefers a dominated stamp. */
  lemma CompareRespectsDominates(a: Stamp, b: Stamp)
    ensures Dominates(a, b) ==> CompareHlc(a, b) > 0
    ensures CompareHlc(a, b) > 0 ==> !Dominates(b, a)
    ensures CompareHlc(a, b) <= 0 ==> !Dominates(a, b)
  {
  }

  lemma LastOfUnion(a: set<Op>, b: set<Op>, o: Op, p: Op)
    requires Last(a, o) && Last(b, p) && o.key == p.key && CompareHlc(p.stamp, o.stamp) <= 0
    ensures Last(a + b, o)
  {
    forall q | q in b && q.key == o.key ensures CompareHlc(q.stamp, o.stamp) <= 0 {
      Trichotomy(o.stamp, p.stamp, q.stamp);
    }
  }

  lemma TsMergedHolds(a: TsSet, b: TsSet, p: set<Op>, q: set<Op>, k: string)
    requires TsHolds(a, p, k) && TsHolds(b, q, k)
    ensures TsHolds(TsMerge(a, b), p + q, k)
  {
    assert AddsOf(p + q) == AddsOf(p) + AddsOf(q) == AddsOf(q) + AddsOf(p);
    assert RemovesOf(p + q) == RemovesOf(p) + RemovesOf(q) == RemovesOf(q) + RemovesOf(p);
    if k in a.adds && k in b.adds {
      var o, n := AddOp(k, a.adds[k].value, a.adds[k].hlc), AddOp(k, b.adds[k].value, b.adds[k].hlc);
      CompareHlcOrder(n.stamp, o.stamp, n.stamp);
      if CompareHlc(n.stamp, o.stamp) > 0 {
        LastOfUnion(AddsOf(q), AddsOf(p), n, o);
      } else {
        LastOfUnion(AddsOf(p), AddsOf(q), o, n);
      }
    }
    if k in a.removes && k in b.removes {
      var o, n := RemoveOp(k, a.removes[k]), RemoveOp(k, b.removes[k]);
      CompareHlcOrder(n.stamp, o.stamp, n.stamp);
      if CompareHlc(n.stamp, o.stamp) > 0 {
        LastOfUnion(RemovesOf(q), RemovesOf(p), n, o);
      } else {
        LastOfUnion(RemovesOf(p), RemovesOf(q), o, n);
      }
    }
  }

  /** The TypeScript maps hold the last add and the last remove of every key. */
  lemma {:induction false} TsKeepsLast(h: History, k: string)
    requires NeverBackward(h)
    ensures TsHolds(TsEval(h), Ops(h), k)
  {
    match h
    case Start =>
    case Add(b, key, v, s) =>
      TsKeepsLast(b, k);
      assert AddsOf(Ops(h)) == AddsOf(Ops(b)) + {AddOp(key, v, s)};
      assert RemovesOf(Ops(h)) == RemovesOf(Ops(b));
    case Remove(b, key, s) =>
      TsKeepsLast(b, k);
      assert AddsOf(Ops(h)) == AddsOf(Ops(b));
      assert RemovesOf(Ops(h)) == RemovesOf(Ops(b)) + {RemoveOp(key, s)};
    case Merge(l, r) =>
      TsKeepsLast(l, k);
      TsKeepsLast(r, k);
      TsMergedHolds(TsEval(l), TsEval(r), Ops(l), Ops(r), k);
  }

  lemma LastIsNewest(ops: set<Op>, o: Op)
    requires Last(ops, o)
    ensures Newest(ops, o)
  {
    forall p | p in ops && p.key == o.key ensures !Dominates(p.stamp, o.stamp) {
      CompareRespectsDominates(p.stamp, o.stamp);
    }
  }

  /** Without ties, of two operations on a key one dominates or they are the same. */
  lemma Decided(ops: set<Op>, o: Op, p: Op)
    requires NoTies(ops) && o in ops && p in ops && o.key == p.key && o != p
    ensures Dominates(o.stamp, p.stamp) || Dominates(p.stamp, o.stamp)
  {
    DominatesOrder(o.stamp, p.stamp, o.stamp);
  }

  lemma NewestUnique(ops: set<Op>, kind: set<Op>, o: Op, p: Op)
    requires NoTies(ops) && kind <= ops && Newest(ops, o) && o in kind && Newest(kind, p) && o.key == p.key
    ensures o == p
  {
    if o != p {
      Decided(ops, o, p);
    }
  }

  /** The TypeScript set holds an add of `k` that is later than any remove of it. */
  predicate AddIsLast(t: TsSet, k: string) {
    k in t.adds && (k in t.removes ==> CompareHlc(t.removes[k], t.adds[k].hlc) < 0)
  }

  predicate RemoveIsLast(t: TsSet, k: string) {
    k in t.removes && (k in t.adds ==> CompareHlc(t.removes[k], t.adds[k].hlc) > 0)
  }

  /** What the daemon's one entry is, in terms of the two TypeScript maps. */
  lemma EntryIsLast(h: History, k: string)
    requires NoTies(Ops(h)) && NeverBackward(h)
    ensures var m, t := RustEval(h), TsEval(h);
            if k in m then
              || (AddIsLast(t, k) && m[k] == Entry(Some(t.adds[k].value), t.adds[k].hlc, false))
              || (RemoveIsLast(t, k) && m[k] == Entry(None, t.removes[k], true))
            else k !in t.adds && k !in t.removes
  {
    var m, t, ops := RustEval(h), TsEval(h), Ops(h);
    RustKeepsNewest(h, k);
    TsKeepsLast(h, k);
    if k in t.adds {
      LastIsNewest(AddsOf(ops), AddOp(k, t.adds[k].value, t.adds[k].hlc));
    }
    if k in t.removes {
      LastIsNewest(RemovesOf(ops), RemoveOp(k, t.removes[k]));
    }
    if k in m {
      var o :| Newest(ops, o) && o.key == k && m[k] == EntryOf(o);
      if o.AddOp? {
        assert o in AddsOf(ops);
        NewestUnique(ops, AddsOf(ops), o, AddOp(k, t.adds[k].value, t.adds[k].hlc));
        if k in t.removes {
          Decided(ops, o, RemoveOp(k, t.removes[k]));
          CompareRespectsDominates(o.stamp, t.removes[k]);
          CompareHlcOrder(o.stamp, t.removes[k], o.stamp);
        }
      } else {
        assert o in RemovesOf(ops);
        NewestUnique(ops, RemovesOf(ops), o, RemoveOp(k, t.removes[k]));
        if k in t.adds {
          Decided(ops, o, AddOp(k, t.adds[k].value, t.adds[k].hlc));
          CompareRespectsDominates(o.stamp, t.adds[k].hlc);
        }
      }
    }
  }

  /**
   The two implementations answer every lookup alike, after any tree of
   operations and merges without ties or backward stamps.
   */
  lemma Agreement(h: History, k: string)
    requires NoTies(Ops(h)) && NeverBackward(h)
    ensures Get(RustEval(h), k) == TsLookup(TsEval(h), k)
  {
    EntryIsLast(h, k);
  }

  // ----- stamps that go backward

  ghost predicate PartOf(g: History, h: History) {
    || g == h
    || match h
       case Start => false
       case Add(b, _, _, _) => PartOf(g, b)
       case Remove(b, _, _) => PartOf(g, b)
       case Merge(l, r) => PartOf(g, l) || PartOf(g, r)
  }

  /** The TypeScript maps hold, for every key, its last add and its last remove. */
  ghost predicate HoldsLast(h: History) {
    forall k :: TsHolds(TsEval(h), Ops(h), k)
  }

  lemma {:induction false} PartNeverBackward(g: History, h: History)
    requires PartOf(g, h) && NeverBackward(h)
    ensures NeverBackward(g)
  {
    if g != h {
      match h
      case Add(b, _, _, _) => PartNeverBackward(g, b);
      case Remove(b, _, _) => PartNeverBackward(g, b);
      case Merge(l, r) =>
        if PartOf(g, l) {
          PartNeverBackward(g, l);
        } else {
          PartNeverBackward(g, r);
        }
    }
  }

  lemma {:induction false} HoldingIsForward(h: History)
    requires forall g :: PartOf(g, h) ==> HoldsLast(g)
    ensures NeverBackward(h)
  {
    assert PartOf(h, h);
    match h
    case Start =>
    case Add(b, k, v, s) =>
      HoldingIsForward(b);
      assert TsHolds(TsEval(h), Ops(h), k);
      assert forall o :: o in Ops(b) && o.AddOp? ==> o in AddsOf(Ops(h));
    case Remove(b, k, s) =>
      HoldingIsForward(b);
      assert TsHolds(TsEval(h), Ops(h), k);
      assert forall o :: o in Ops(b) && o.RemoveOp? ==> o in RemovesOf(Ops(h));
    case Merge(l, r) =>
      HoldingIsForward(l);
      HoldingIsForward(r);
  }

  /** The maps hold the last add and remove at every point of a history exactly when no stamp goes backward. */
  lemma NeverBackwardIff(h: History)
    ensures NeverBackward(h) <==> forall g :: PartOf(g, h) ==> HoldsLast(g)
  {
    if NeverBackward(h) {
      forall g | PartOf(g, h) ensures HoldsLast(g) {
        PartNeverBackward(g, h);
        forall k ensures TsHolds(TsEval(g), Ops(g), k) {
          TsKeepsLast(g, k);
        }
      }
    }
    if forall g :: PartOf(g, h) ==> HoldsLast(g) {
      HoldingIsForward(h);
    }
  }

  /** The stamps of two operations, one of which the other implementation's maps hold. */
  lemma Compared(ops: set<Op>, o: Op, p: Op)
    requires NoTies(ops) && o in ops && p in ops && o.key == p.key
    ensures Dominates(o.stamp, p.stamp) <==> CompareHlc(o.stamp, p.stamp) > 0
    ensures o != p ==> CompareHlc(o.stamp, p.stamp) != 0
    ensures CompareHlc(o.stamp, p.stamp) == -CompareHlc(p.stamp, o.stamp)
  {
    CompareHlcOrder(o.stamp, p.stamp, o.stamp);
    CompareRespectsDominates(o.stamp, p.stamp);
    if o != p {
      Decided(ops, o, p);
      CompareRespectsDominates(p.stamp, o.stamp);
    }
  }

  /** The held add and remove of `k` are operations of the history. */
  lemma HeldAreOps(h: History, k: string)
    requires NeverBackward(h)
    ensures k in TsEval(h).adds ==> AddOp(k, TsEval(h).adds[k].value, TsEval(h).adds[k].hlc) in Ops(h)
    ensures k in TsEval(h).removes ==> RemoveOp(k, TsEval(h).removes[k]) in Ops(h)
  {
    TsKeepsLast(h, k);
  }

  /**
   After one more add, with any stamp, the implementations disagree on its key
   exactly when the stamp is behind an add that is last there, unless the two
   values are equal and no remove lies between.
   */
  lemma AddAgreesIff(b: History, k: string, v: string, s: Stamp)
    requires NeverBackward(b) && NoTies(Ops(Add(b, k, v, s)))
    ensures var t := TsEval(b);
            Get(RustEval(Add(b, k, v, s)), k) != TsLookup(TsEval(Add(b, k, v, s)), k) <==>
              && AddIsLast(t, k) && CompareHlc(t.adds[k].hlc, s) > 0
              && (t.adds[k].value != v || (k in t.removes && CompareHlc(t.removes[k], s) >= 0))
  {
    var t, ops, n := TsEval(b), Ops(Add(b, k, v, s)), AddOp(k, v, s);
    assert NoTies(Ops(b));
    EntryIsLast(b, k);
    HeldAreOps(b, k);
    if k in t.adds {
      Compared(ops, n, AddOp(k, t.adds[k].value, t.adds[k].hlc));
    }
    if k in t.removes {
      Compared(ops, n, RemoveOp(k, t.removes[k]));
      if k in t.adds {
        Trichotomy(t.removes[k], t.adds[k].hlc, s);
        CompareHlcOrder(t.removes[k], t.adds[k].hlc, s);
      }
    }
  }

  /** After one more remove they disagree exactly when its stamp is behind an add that another remove had already undone. */
  lemma RemoveAgreesIff(b: History, k: string, s: Stamp)
    requires NeverBackward(b) && NoTies(Ops(Remove(b, k, s)))
    ensures var t := TsEval(b);
            Get(RustEval(Remove(b, k, s)), k) != TsLookup(TsEval(Remove(b, k, s)), k) <==>
              k in t.adds && RemoveIsLast(t, k) && CompareHlc(t.adds[k].hlc, s) > 0
  {
    var t, ops, n := TsEval(b), Ops(Remove(b, k, s)), RemoveOp(k, s);
    assert NoTies(Ops(b));
    EntryIsLast(b, k);
    HeldAreOps(b, k);
    if k in t.adds {
      Compared(ops, n, AddOp(k, t.adds[k].value, t.adds[k].hlc));
    }
    if k in t.removes {
      Compared(ops, n, RemoveOp(k, t.removes[k]));
      if k in t.adds {
        Trichotomy(t.adds[k].hlc, t.removes[k], s);
        CompareHlcOrder(s, t.removes[k], t.adds[k].hlc);
      }
    }
  }

  /** An add of "new" and an add of "old", stamped earlier, performed in either order at one kiosk. */
  function BackwardHistory(newFirst: bool): History {
    if newFirst then Add(Add(Start, "sku", "new", Stamp(9, 0, "a")), "sku", "old", Stamp(5, 0, "a"))
    else Add(Add(Start, "sku", "old", Stamp(5, 0, "a")), "sku", "new", Stamp(9, 0, "a"))
  }

  /** Without ties, a backward stamp makes the implementations differ, and the TypeScript set depend on the order. */
  lemma BackwardDisagrees()
    ensures var g, h := BackwardHistory(true), BackwardHistory(false);
            && Ops(g) == Ops(h) && NoTies(Ops(g)) && !NeverBackward(g) && NeverBackward(h)
            && Get(RustEval(g), "sku") == Some("new") && TsLookup(TsEval(g), "sku") == Some("old")
            && TsLookup(TsEval(h), "sku") == Some("new")
  {
    var g, h := BackwardHistory(true), BackwardHistory(false);
    assert Ops(g) == {AddOp("sku", "new", Stamp(9, 0, "a")), AddOp("sku", "old", Stamp(5, 0, "a"))} == Ops(h);
    assert CompareHlc(Stamp(9, 0, "a"), Stamp(5, 0, "a")) == 1;
    assert AddOp("sku", "new", Stamp(9, 0, "a")) in Ops(Add(Start, "sku", "new", Stamp(9, 0, "a")));
  }

  // ----- convergence

  /** Every key has one newest effect. */
  ghost predicate OneNewest(ops: set<Op>) {
    forall o, p :: Newest(ops, o) && Newest(ops, p) && o.key == p.key ==> EntryOf(o) == EntryOf(p)
  }

  /** Every key has one last add. */
  ghost predicate OneLast(ops: set<Op>) {
    forall o, p :: Last(AddsOf(ops), o) && Last(AddsOf(ops), p) && o.key == p.key ==> o == p
  }

  lemma RustConvergesAt(g: History, h: History, k: string)
    requires Ops(g) == Ops(h) && OneNewest(Ops(g))
    ensures k in RustEval(g) <==> k in RustEval(h)
    ensures k in RustEval(g) ==> RustEval(g)[k] == RustEval(h)[k]
  {
    RustKeepsNewest(g, k);
    RustKeepsNewest(h, k);
  }

  lemma RustConverges(g: History, h: History)
    requires Ops(g) == Ops(h) && OneNewest(Ops(g))
    ensures RustEval(g) == RustEval(h)
  {
    var a, b := RustEval(g), RustEval(h);
    forall k ensures (k in a <==> k in b) && (k in a ==> a[k] == b[k]) {
      RustConvergesAt(g, h, k);
    }
    assert a.Keys == b.Keys;
  }

  lemma TsConvergesAt(g: History, h: History, k: string)
    requires Ops(g) == Ops(h) && OneLast(Ops(g)) && NeverBackward(g) && NeverBackward(h)
    ensures var t, u := TsEval(g), TsEval(h);
            && (k in t.adds <==> k in u.adds) && (k in t.adds ==> t.adds[k] == u.adds[k])
            && (k in t.removes <==> k in u.removes) && (k in t.removes ==> t.removes[k] == u.removes[k])
  {
    var t, u := TsEval(g), TsEval(h);
    TsKeepsLast(g, k);
    TsKeepsLast(h, k);
    if k in t.removes && k in u.removes {
      CompareHlcOrder(t.removes[k], u.removes[k], t.removes[k]);
    }
  }

  lemma TsConverges(g: History, h: History)
    requires Ops(g) == Ops(h) && OneLast(Ops(g)) && NeverBackward(g) && NeverBackward(h)
    ensures TsEval(g) == TsEval(h)
  {
    var t, u := TsEval(g), TsEval(h);
    forall k ensures (k in t.adds <==> k in u.adds) && (k in t.adds ==> t.adds[k] == u.adds[k]) {
      TsConvergesAt(g, h, k);
    }
    forall k ensures (k in t.removes <==> k in u.removes) && (k in t.removes ==> t.removes[k] == u.removes[k]) {
      TsConvergesAt(g, h, k);
    }
    SameMap(t.adds, u.adds);
    SameMap(t.removes, u.removes);
  }

  lemma SameMap<V>(a: map<string, V>, b: map<string, V>)
    requires forall k :: (k in a <==> k in b) && (k in a ==> a[k] == b[k])
    ensures a == b
  {
    assert a.Keys == b.Keys;
  }

  function Single(o: Op): History {
    match o
    case AddOp(k, v, s) => Add(Start, k, v, s)
    case RemoveOp(k, s) => Remove(Start, k, s)
  }

  lemma SingleEval(o: Op)
    ensures Ops(Single(o)) == {o} && NeverBackward(Single(o))
    ensures RustEval(Single(o)) == map[o.key := EntryOf(o)]
    ensures TsEval(Single(o)).adds == if o.AddOp? then map[o.key := TsElement(o.value, o.stamp)] else map[]
  {
  }

  /** Kiosks that perform one operation each, all merged into the one that performed `o`. */
  lemma {:induction false} Gather(o: Op, rest: set<Op>) returns (h: History)
    ensures Ops(h) == {o} + rest && NeverBackward(h)
    ensures Newest({o} + rest, o) ==> o.key in RustEval(h) && RustEval(h)[o.key] == EntryOf(o)
    ensures Last(AddsOf({o} + rest), o) ==> o.key in TsEval(h).adds && TsEval(h).adds[o.key] == TsElement(o.value, o.stamp)
    decreases rest
  {
    if rest == {} {
      h := Single(o);
      SingleEval(o);
      assert {o} + rest == {o};
    } else {
      var q :| q in rest;
      var g := Gather(o, rest - {q});
      h := Merge(g, Single(q));
      SingleEval(q);
      assert {o} + rest == ({o} + (rest - {q})) + {q};
      GatherOne(g, {o} + (rest - {q}), o, q);
    }
  }

  /** Merging one more operation does not displace a newest (last) one. */
  lemma GatherOne(g: History, ops: set<Op>, o: Op, q: Op)
    requires o in ops
    requires Newest(ops, o) ==> o.key in RustEval(g) && RustEval(g)[o.key] == EntryOf(o)
    requires Last(AddsOf(ops), o) ==> o.key in TsEval(g).adds && TsEval(g).adds[o.key] == TsElement(o.value, o.stamp)
    ensures var h := Merge(g, Single(q));
            && (Newest(ops + {q}, o) ==> o.key in RustEval(h) && RustEval(h)[o.key] == EntryOf(o))
            && (Last(AddsOf(ops + {q}), o) ==>
                 o.key in TsEval(h).adds && TsEval(h).adds[o.key] == TsElement(o.value, o.stamp))
  {
    SingleEval(q);
    if Newest(ops + {q}, o) {
      assert Newest(ops, o);
      assert q in ops + {q};
    }
    if Last(AddsOf(ops + {q}), o) {
      assert AddsOf(ops) <= AddsOf(ops + {q});
      assert o in AddsOf(ops);
      assert q.AddOp? ==> q in AddsOf(ops + {q});
    }
  }

  /** The daemon's state depends only on the operations absorbed exactly when every key has one newest effect. */
  lemma RustConvergesIff(ops: set<Op>)
    ensures (forall g, h :: Ops(g) == ops && Ops(h) == ops ==> RustEval(g) == RustEval(h)) <==> OneNewest(ops)
  {
    if OneNewest(ops) {
      forall g, h | Ops(g) == ops && Ops(h) == ops ensures RustEval(g) == RustEval(h) {
        RustConverges(g, h);
      }
    } else {
      var o, p :| Newest(ops, o) && Newest(ops, p) && o.key == p.key && EntryOf(o) != EntryOf(p);
      assert {o} + ops == ops && {p} + ops == ops;
      var g := Gather(o, ops);
      var h := Gather(p, ops);
      assert RustEval(g)[o.key] != RustEval(h)[o.key];
    }
  }

  /** Without ties that is so. */
  lemma NoTiesOneNewest(ops: set<Op>)
    requires NoTies(ops)
    ensures OneNewest(ops)
  {
    forall o, p | Newest(ops, o) && Newest(ops, p) && o.key == p.key ensures o == p {
      NewestUnique(ops, ops, o, p);
    }
  }

  /**
   The TypeScript state depends only on the operations absorbed, for histories
   without backward stamps, exactly when every key has one last add.
   */
  lemma TsConvergesIff(ops: set<Op>)
    ensures (forall g, h :: Ops(g) == ops && Ops(h) == ops && NeverBackward(g) && NeverBackward(h) ==>
              TsEval(g) == TsEval(h)) <==> OneLast(ops)
  {
    if OneLast(ops) {
      forall g, h | Ops(g) == ops && Ops(h) == ops && NeverBackward(g) && NeverBackward(h)
        ensures TsEval(g) == TsEval(h)
      {
        TsConverges(g, h);
      }
    } else {
      var o, p :| Last(AddsOf(ops), o) && Last(AddsOf(ops), p) && o.key == p.key && o != p;
      assert {o} + ops == ops && {p} + ops == ops;
      var g := Gather(o, ops);
      var h := Gather(p, ops);
      assert TsEval(g).adds[o.key] != TsEval(h).adds[o.key];
    }
  }

  /** Equal stamps carry equal elements. */
  ghost predicate StampsIdentify(ops: set<Op>) {
    forall o, p :: o in ops && p in ops && o.AddOp? && p.AddOp? && o.key == p.key && o.stamp == p.stamp ==> o == p
  }

  /** Ties between kiosks do no harm to the TypeScript set: only equal stamps would. */
  lemma StampsIdentifyOneLast(ops: set<Op>)
    requires StampsIdentify(ops)
    ensures OneLast(ops)
  {
    forall o, p | Last(AddsOf(ops), o) && Last(AddsOf(ops), p) && o.key == p.key ensures o == p {
      CompareHlcOrder(o.stamp, p.stamp, o.stamp);
    }
  }

  // ----- agreement, exactly

  function Reads(o: Op): Option<string> {
    match o
    case AddOp(_, v, _) => Some(v)
    case RemoveOp(_, _) => None
  }

  /** Every newest operation on a key reads as any maps do that hold a last add and the last remove of the key. */
  ghost predicate ReadAlike(ops: set<Op>) {
    forall o, t :: Newest(ops, o) && TsHolds(t, ops, o.key) ==> Reads(o) == TsLookup(t, o.key)
  }

  lemma AlikeAgrees(h: History, k: string)
    requires NeverBackward(h) && ReadAlike(Ops(h))
    ensures Get(RustEval(h), k) == TsLookup(TsEval(h), k)
  {
    RustKeepsNewest(h, k);
    TsKeepsLast(h, k);
    if k in RustEval(h) {
      var o :| Newest(Ops(h), o) && o.key == k && RustEval(h)[k] == EntryOf(o);
    }
  }

  lemma SameLastRemove(t: TsSet, u: TsSet, ops: set<Op>, k: string)
    requires TsHolds(t, ops, k) && TsHolds(u, ops, k)
    ensures (k in t.adds <==> k in u.adds) && (k in t.removes <==> k in u.removes)
    ensures k in t.removes ==> t.removes[k] == u.removes[k]
  {
    if k in t.removes && k in u.removes {
      CompareHlcOrder(t.removes[k], u.removes[k], t.removes[k]);
    }
  }

  /** Performing a last add once more, locally, changes only which last add the TypeScript maps hold. */
  lemma Repeat(g: History, o: Op, a: Op)
    requires NeverBackward(g) && a.AddOp? && Last(AddsOf(Ops(g)), a) && Newest(Ops(g), o) && o.key == a.key
    requires o.key in RustEval(g) && RustEval(g)[o.key] == EntryOf(o)
    ensures var h := Add(g, a.key, a.value, a.stamp);
            && Ops(h) == Ops(g) && NeverBackward(h) && RustEval(h) == RustEval(g)
            && TsEval(h) == TsEval(g).(adds := TsEval(g).adds[a.key := TsElement(a.value, a.stamp)])
  {
    assert a in Ops(g);
    assert Ops(g) + {a} == Ops(g);
    assert forall q :: q in Ops(g) && q.AddOp? ==> q in AddsOf(Ops(g));
  }

  /** A forward tree in which the daemon holds `o` while the TypeScript maps read as `t`. */
  lemma Realise(o: Op, t: TsSet, ops: set<Op>) returns (h: History)
    requires Newest(ops, o) && TsHolds(t, ops, o.key)
    ensures Ops(h) == ops && NeverBackward(h)
    ensures Get(RustEval(h), o.key) == Reads(o) && TsLookup(TsEval(h), o.key) == TsLookup(t, o.key)
  {
    var k := o.key;
    assert {o} + ops == ops;
    h := Gather(o, ops);
    TsKeepsLast(h, k);
    SameLastRemove(t, TsEval(h), ops, k);
    if k in t.adds {
      var a := AddOp(k, t.adds[k].value, t.adds[k].hlc);
      Repeat(h, o, a);
      h := Add(h, k, a.value, a.stamp);
    }
  }

  /**
   Both implementations answer every lookup alike after all forward trees over
   some operations exactly when every newest operation reads as the last ones do.
   */
  lemma AgreementIff(ops: set<Op>)
    ensures (forall h, k :: Ops(h) == ops && NeverBackward(h) ==> Get(RustEval(h), k) == TsLookup(TsEval(h), k))
            <==> ReadAlike(ops)
  {
    if ReadAlike(ops) {
      forall h, k | Ops(h) == ops && NeverBackward(h) ensures Get(RustEval(h), k) == TsLookup(TsEval(h), k) {
        AlikeAgrees(h, k);
      }
    } else {
      var o, t :| Newest(ops, o) && TsHolds(t, ops, o.key) && Reads(o) != TsLookup(t, o.key);
      var h := Realise(o, t, ops);
      assert Get(RustEval(h), o.key) != TsLookup(TsEval(h), o.key);
    }
  }

  // ----- a tie

  /** One kiosk's only operation: an add of `value`, stamped like the other kiosk's. */
  function TiedAdd(node: string, value: string): History {
    Add(Start, "sku", value, Stamp(7, 0, node))
  }

  /**
   After a tie, however often the two daemons exchange their sets, each reads
   its own value for good, while the TypeScript twins agree after one merge.
   */
  lemma TieDiverges(log: seq<Exchange>)
    ensures var a, b := TiedAdd("k1", "1"), TiedAdd("k2", "2");
            var after := AfterExchanges(map["k1" := RustEval(a), "k2" := RustEval(b)], log);
            && after.Keys == {"k1", "k2"}
            && Get(after["k1"], "sku") == Some("1") && Get(after["k2"], "sku") == Some("2")
            && TsLookup(TsEval(Merge(a, b)), "sku") == TsLookup(TsEval(Merge(b, a)), "sku") == Some("2")
  {
    var a, b := TiedAdd("k1", "1"), TiedAdd("k2", "2");
    TiesAreForGood(map["k1" := RustEval(a), "k2" := RustEval(b)], log, "sku");
    assert RustEval(a)["sku"] == Entry(Some("1"), Stamp(7, 0, "k1"), false);
    assert RustEval(b)["sku"] == Entry(Some("2"), Stamp(7, 0, "k2"), false);
    TiedTs(a, b);
  }

  lemma TiedTs(a: History, b: History)
    requires a == TiedAdd("k1", "1") && b == TiedAdd("k2", "2")
    ensures TsLookup(TsEval(Merge(a, b)), "sku") == TsLookup(TsEval(Merge(b, a)), "sku") == Some("2")
  {
    assert JsLess("k1", "k2") by { assert "k1"[1..] == "1" && "k2"[1..] == "2"; }
    LexLessAsymmetric(Utf16Rank, "k1", "k2");
    assert CompareHlc(Stamp(7, 0, "k2"), Stamp(7, 0, "k1")) == 1;
    assert CompareHlc(Stamp(7, 0, "k1"), Stamp(7, 0, "k2")) == -1;
    assert TsEval(a).adds["sku"] == TsElement("1", Stamp(7, 0, "k1"));
    assert TsEval(b).adds["sku"] == TsElement("2", Stamp(7, 0, "k2"));
  }
}
