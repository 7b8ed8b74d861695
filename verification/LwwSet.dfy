/**
 The last-writer-wins element set twice: the daemon keeps one stamped entry per
 key, the TypeScript twin separate maps of adds and removes. Each is modelled
 with its own comparison, then the two are proved to answer alike.
 */
module LwwSet {
  import opened Common
  import opened Hlc

  // ----- the daemon's set

  datatype Entry = Entry(value: Option<string>, hlc: Stamp, removed: bool)

  type Entries = map<string, Entry>

  function Put(m: Entries, key: string, e: Entry): Entries {
    if key in m && !Dominates(e.hlc, m[key].hlc) then m else m[key := e]
  }

  function Get(m: Entries, key: string): Option<string> {
    if key !in m || m[key].removed then None else m[key].value
  }

  function Merged(a: Entries, b: Entries): Entries {
    map k | k in a.Keys + b.Keys ::
      if k !in a then b[k] else if k in b && Dominates(b[k].hlc, a[k].hlc) then b[k] else a[k]
  }

  class LwwElementSet {
    var entries: Entries

    constructor ()
      ensures entries == map[]
    {
      entries := map[];
    }

    method Add(key: string, value: string, hlc: Stamp) returns (applied: bool)
      modifies this
      ensures entries == Put(old(entries), key, Entry(Some(value), hlc, false))
      ensures applied <==> key !in old(entries) || Dominates(hlc, old(entries)[key].hlc)
      ensures entries == if applied then old(entries)[key := Entry(Some(value), hlc, false)] else old(entries)
    {
      if key in entries && !Dominates(hlc, entries[key].hlc) {
        return false;
      }
      entries := entries[key := Entry(Some(value), hlc, false)];
      applied := true;
    }

    method Remove(key: string, hlc: Stamp) returns (applied: bool)
      modifies this
      ensures entries == Put(old(entries), key, Entry(None, hlc, true))
      ensures applied <==> key !in old(entries) || Dominates(hlc, old(entries)[key].hlc)
      ensures entries == if applied then old(entries)[key := Entry(None, hlc, true)] else old(entries)
    {
      if key in entries && !Dominates(hlc, entries[key].hlc) {
        return false;
      }
      var newEntry := if key in entries then entries[key] else Entry(None, hlc, false);
      newEntry := newEntry.(value := None, hlc := hlc, removed := true);
      entries := entries[key := newEntry];
      applied := true;
    }

    method Lookup(key: string) returns (v: Option<string>)
      ensures v == Get(entries, key)
      ensures key !in entries || entries[key].removed ==> v == None
      ensures key in entries && !entries[key].removed ==> v == entries[key].value
    {
      if key in entries && !entries[key].removed {
        v := entries[key].value;
      } else {
        v := None;
      }
    }

    method Merge(other: LwwElementSet)
      requires other != this
      modifies this
      ensures entries == Merged(old(entries), other.entries)
      ensures entries.Keys == old(entries.Keys) + other.entries.Keys
      ensures forall k :: k in other.entries && (k !in old(entries) || Dominates(other.entries[k].hlc, old(entries)[k].hlc)) ==>
                entries[k] == other.entries[k]
      ensures forall k :: k in old(entries) && !(k in other.entries && Dominates(other.entries[k].hlc, old(entries)[k].hlc)) ==>
                entries[k] == old(entries)[k]
    {
      ghost var mine := entries;
      var keys := other.entries.Keys;
      while keys != {}
        invariant keys <= other.entries.Keys == old(other.entries).Keys
        invariant other.entries == old(other.entries)
        invariant entries.Keys == mine.Keys + (other.entries.Keys - keys)
        invariant forall k :: k in entries ==> entries[k] == if k in keys then mine[k] else Merged(mine, other.entries)[k]
        decreases keys
      {
        var k :| k in keys;
        var keepOther := k !in entries || Dominates(other.entries[k].hlc, entries[k].hlc);
        if keepOther {
          entries := entries[k := other.entries[k]];
        }
        keys := keys - {k};
      }
    }
  }

  lemma MergedCommutesAt(a: Entries, b: Entries, k: string)
    requires k in a || k in b
    ensures Merged(a, b)[k] == Merged(b, a)[k] <==>
              (k in a && k in b && Tie(a[k].hlc, b[k].hlc) ==> a[k] == b[k])
  {
    if k in a && k in b {
      DominatesOrder(a[k].hlc, b[k].hlc, a[k].hlc);
    }
  }

  /** Merging commutes exactly when stamps that tie on (wallclock, counter) carry the same entry. */
  lemma MergedCommutesIff(a: Entries, b: Entries)
    ensures Merged(a, b) == Merged(b, a) <==>
              forall k :: k in a && k in b && Tie(a[k].hlc, b[k].hlc) ==> a[k] == b[k]
  {
    var ab, ba := Merged(a, b), Merged(b, a);
    assert ab.Keys == ba.Keys;
    forall k | k in ab
      ensures ab[k] == ba[k] <==> (k in a && k in b && Tie(a[k].hlc, b[k].hlc) ==> a[k] == b[k])
    {
      MergedCommutesAt(a, b, k);
    }
    if k :| k in a && k in b && Tie(a[k].hlc, b[k].hlc) && a[k] != b[k] {
      assert k in ab && ab[k] != ba[k];
    }
  }

  // ----- the TypeScript set

  datatype TsElement = TsElement(value: string, hlc: Stamp)

  datatype TsSet = TsSet(adds: map<string, TsElement>, removes: map<string, Stamp>)

  function TsLookup(s: TsSet, id: string): Option<string> {
    if id !in s.adds then None
    else if id in s.removes && CompareHlc(s.removes[id], s.adds[id].hlc) >= 0 then None
    else Some(s.adds[id].value)
  }

  /** `addLwwElement`, with `now` the reading `incrementHlc` takes. */
  function TsAdd(s: TsSet, id: string, value: string, localHlc: Stamp, now: nat): TsSet {
    s.(adds := s.adds[id := TsElement(value, IncrementHlc(localHlc, None, now))])
  }

  function TsRemove(s: TsSet, id: string, localHlc: Stamp, now: nat): TsSet {
    s.(removes := s.removes[id := IncrementHlc(localHlc, None, now)])
  }

  function MergeAdds(a: map<string, TsElement>, b: map<string, TsElement>): map<string, TsElement> {
    map id | id in a.Keys + b.Keys ::
      if id !in a then b[id] else if id in b && CompareHlc(b[id].hlc, a[id].hlc) > 0 then b[id] else a[id]
  }

  function MergeRemoves(a: map<string, Stamp>, b: map<string, Stamp>): map<string, Stamp> {
    map id | id in a.Keys + b.Keys ::
      if id !in a then b[id] else if id in b && CompareHlc(b[id], a[id]) > 0 then b[id] else a[id]
  }

  function TsMerge(a: TsSet, b: TsSet): TsSet {
    TsSet(MergeAdds(a.adds, b.adds), MergeRemoves(a.removes, b.removes))
  }

  method MergeLwwElementSet(a: TsSet, b: TsSet) returns (r: TsSet)
    ensures r == TsMerge(a, b)
  {
    var adds := MergeAddsLoop(a.adds, b.adds);
    var removes := MergeRemovesLoop(a.removes, b.removes);
    r := TsSet(adds, removes);
  }

  /** First loop of `mergeLwwElementSet`. */
  method MergeAddsLoop(a: map<string, TsElement>, b: map<string, TsElement>) returns (adds: map<string, TsElement>)
    ensures adds == MergeAdds(a, b)
  {
    adds := a;
    var ids := b.Keys;
    while ids != {}
      invariant ids <= b.Keys
      invariant adds.Keys == a.Keys + (b.Keys - ids)
      invariant forall id :: id in adds ==> adds[id] == if id in ids then a[id] else MergeAdds(a, b)[id]
      decreases ids
    {
      var id :| id in ids;
      if id !in adds || CompareHlc(b[id].hlc, adds[id].hlc) > 0 {
        adds := adds[id := b[id]];
      }
      ids := ids - {id};
    }
  }

  /** Second loop of `mergeLwwElementSet`. */
  method MergeRemovesLoop(a: map<string, Stamp>, b: map<string, Stamp>) returns (removes: map<string, Stamp>)
    ensures removes == MergeRemoves(a, b)
  {
    removes := a;
    var ids := b.Keys;
    while ids != {}
      invariant ids <= b.Keys
      invariant removes.Keys == a.Keys + (b.Keys - ids)
      invariant forall id :: id in removes ==> removes[id] == if id in ids then a[id] else MergeRemoves(a, b)[id]
      decreases ids
    {
      var id :| id in ids;
      if id !in removes || CompareHlc(b[id], removes[id]) > 0 {
        removes := removes[id := b[id]];
      }
      ids := ids - {id};
    }
  }

  /** Equal stamps carry equal elements. */
  ghost predicate Coherent(a: TsSet, b: TsSet) {
    forall id :: id in a.adds && id in b.adds && a.adds[id].hlc == b.adds[id].hlc ==> a.adds[id] == b.adds[id]
  }

  /** Merging commutes exactly on coherent sets. */
  lemma TsMergeCommutesIff(a: TsSet, b: TsSet)
    ensures TsMerge(a, b) == TsMerge(b, a) <==> Coherent(a, b)
  {
    var ab, ba := MergeAdds(a.adds, b.adds), MergeAdds(b.adds, a.adds);
    assert ab.Keys == ba.Keys;
    forall id | id in a.adds && id in b.adds
      ensures ab[id] == ba[id] <==> (a.adds[id].hlc == b.adds[id].hlc ==> a.adds[id] == b.adds[id])
    {
      CompareHlcOrder(a.adds[id].hlc, b.adds[id].hlc, a.adds[id].hlc);
    }
    forall id | id in ab && !(id in a.adds && id in b.adds) ensures ab[id] == ba[id] {
    }
    RemovesCommute(a.removes, b.removes);
    if id :| id in a.adds && id in b.adds && a.adds[id].hlc == b.adds[id].hlc && a.adds[id] != b.adds[id] {
      assert ab[id] != ba[id];
    }
  }

  lemma RemovesCommute(a: map<string, Stamp>, b: map<string, Stamp>)
    ensures MergeRemoves(a, b) == MergeRemoves(b, a)
  {
    forall id | id in a && id in b ensures MergeRemoves(a, b)[id] == MergeRemoves(b, a)[id] {
      CompareHlcOrder(a[id], b[id], a[id]);
    }
  }

  /** Associative and idempotent without any condition on the elements. */
  lemma TsMergeLaws(a: TsSet, b: TsSet, c: TsSet)
    ensures TsMerge(TsMerge(a, b), c) == TsMerge(a, TsMerge(b, c))
    ensures TsMerge(a, a) == a
  {
    AddsAssociate(a.adds, b.adds, c.adds);
    RemovesAssociate(a.removes, b.removes, c.removes);
    assert MergeAdds(a.adds, a.adds) == a.adds;
    assert MergeRemoves(a.removes, a.removes) == a.removes;
  }

  lemma AddsAssociate(a: map<string, TsElement>, b: map<string, TsElement>, c: map<string, TsElement>)
    ensures MergeAdds(MergeAdds(a, b), c) == MergeAdds(a, MergeAdds(b, c))
  {
    var l, r := MergeAdds(MergeAdds(a, b), c), MergeAdds(a, MergeAdds(b, c));
    assert l.Keys == r.Keys;
    forall id | id in l ensures l[id] == r[id] {
      if id in a && id in b && id in c {
        Trichotomy(a[id].hlc, b[id].hlc, c[id].hlc);
      }
    }
  }

  lemma RemovesAssociate(a: map<string, Stamp>, b: map<string, Stamp>, c: map<string, Stamp>)
    ensures MergeRemoves(MergeRemoves(a, b), c) == MergeRemoves(a, MergeRemoves(b, c))
  {
    var l, r := MergeRemoves(MergeRemoves(a, b), c), MergeRemoves(a, MergeRemoves(b, c));
    assert l.Keys == r.Keys;
    forall id | id in l ensures l[id] == r[id] {
      if id in a && id in b && id in c {
        Trichotomy(a[id], b[id], c[id]);
      }
    }
  }

  /** "Not newer" is transitive, and so is any chain with a strict step. */
  lemma Trichotomy(a: Stamp, b: Stamp, c: Stamp)
    ensures CompareHlc(c, b) > 0 && CompareHlc(b, a) > 0 ==> CompareHlc(c, a) > 0
    ensures CompareHlc(c, b) <= 0 && CompareHlc(b, a) <= 0 ==> CompareHlc(c, a) <= 0
  {
    CompareHlcOrder(c, b, a);
    CompareHlcOrder(a, b, c);
    CompareHlcOrder(b, a, c);
    CompareHlcOrder(a, c, b);
    CompareHlcOrder(b, c, a);
  }

  /** The local clock is at or above every stamp the set holds for `id`. */
  predicate ClockAhead(s: TsSet, id: string, localHlc: Stamp) {
    && (id in s.adds ==> CompareHlc(localHlc, s.adds[id].hlc) >= 0)
    && (id in s.removes ==> CompareHlc(localHlc, s.removes[id]) >= 0)
  }

  /** An incremented clock is newer than anything the clock was not behind. */
  lemma IncrementWins(localHlc: Stamp, now: nat, x: Stamp)
    requires CompareHlc(localHlc, x) >= 0 && FitsJs(localHlc) && !IncrementSaturates(localHlc, now)
    ensures CompareHlc(IncrementHlc(localHlc, None, now), x) > 0
    ensures CompareHlc(x, IncrementHlc(localHlc, None, now)) < 0
  {
    var stamp := IncrementHlc(localHlc, None, now);
    TsMovesDominateIff(localHlc, localHlc, now);
    CompareHlcOrder(stamp, localHlc, x);
    CompareHlcOrder(localHlc, x, stamp);
    CompareHlcOrder(stamp, x, stamp);
  }

  /** The stamp a local operation stores. */
  function LocalStamp(localHlc: Stamp, now: nat): Stamp {
    IncrementHlc(localHlc, None, now)
  }

  /**
   When local operations move up the merge order, and when they are seen at
   once, for any local clock: both depend on the stored stamp against those held.
   */
  lemma LocalOpsAscendIff(s: TsSet, id: string, value: string, localHlc: Stamp, now: nat)
    ensures var stamp := LocalStamp(localHlc, now);
            TsMerge(s, TsAdd(s, id, value, localHlc, now)) == TsAdd(s, id, value, localHlc, now) <==>
              (id in s.adds ==> CompareHlc(stamp, s.adds[id].hlc) > 0 || s.adds[id] == TsElement(value, stamp))
    ensures var stamp := LocalStamp(localHlc, now);
            TsMerge(s, TsRemove(s, id, localHlc, now)) == TsRemove(s, id, localHlc, now) <==>
              (id in s.removes ==> CompareHlc(stamp, s.removes[id]) >= 0)
    ensures var stamp := LocalStamp(localHlc, now);
            TsLookup(TsAdd(s, id, value, localHlc, now), id) == Some(value) <==>
              (id in s.removes ==> CompareHlc(stamp, s.removes[id]) > 0)
    ensures var stamp := LocalStamp(localHlc, now);
            TsLookup(TsRemove(s, id, localHlc, now), id) == None <==>
              (id in s.adds ==> CompareHlc(stamp, s.adds[id].hlc) >= 0)
  {
    var stamp := LocalStamp(localHlc, now);
    AddsAscendIff(s.adds, id, TsElement(value, stamp));
    RemovesAscendIff(s.removes, id, stamp);
    assert MergeAdds(s.adds, s.adds) == s.adds && MergeRemoves(s.removes, s.removes) == s.removes;
    if id in s.removes {
      CompareHlcOrder(stamp, s.removes[id], stamp);
    }
  }

  lemma AddsAscendIff(adds: map<string, TsElement>, id: string, e: TsElement)
    ensures MergeAdds(adds, adds[id := e]) == adds[id := e] <==>
              (id in adds ==> CompareHlc(e.hlc, adds[id].hlc) > 0 || adds[id] == e)
  {
    var up, m := adds[id := e], MergeAdds(adds, adds[id := e]);
    assert m.Keys == up.Keys;
    assert m == up <==> m[id] == up[id];
  }

  lemma RemovesAscendIff(removes: map<string, Stamp>, id: string, stamp: Stamp)
    ensures MergeRemoves(removes, removes[id := stamp]) == removes[id := stamp] <==>
              (id in removes ==> CompareHlc(stamp, removes[id]) >= 0)
  {
    var up, m := removes[id := stamp], MergeRemoves(removes, removes[id := stamp]);
    assert m.Keys == up.Keys;
    assert m == up <==> m[id] == up[id];
    if id in removes {
      CompareHlcOrder(stamp, removes[id], stamp);
    }
  }

  /** A clock at or above every stamp held for the element, and not full, is enough for all of that. */
  lemma LocalOpsAscend(s: TsSet, id: string, value: string, localHlc: Stamp, now: nat)
    requires ClockAhead(s, id, localHlc) && FitsJs(localHlc) && !IncrementSaturates(localHlc, now)
    ensures TsMerge(s, TsAdd(s, id, value, localHlc, now)) == TsAdd(s, id, value, localHlc, now)
    ensures TsMerge(s, TsRemove(s, id, localHlc, now)) == TsRemove(s, id, localHlc, now)
    ensures TsLookup(TsAdd(s, id, value, localHlc, now), id) == Some(value)
    ensures TsLookup(TsRemove(s, id, localHlc, now), id) == None
  {
    LocalOpsAscendIff(s, id, value, localHlc, now);
    if id in s.adds {
      IncrementWins(localHlc, now, s.adds[id].hlc);
    }
    if id in s.removes {
      IncrementWins(localHlc, now, s.removes[id]);
    }
  }

  // ----- ties between daemons

  /** One merge: `to` absorbs what `from` holds. */
  datatype Exchange = Exchange(to: string, from: string)

  function AfterExchanges(replicas: map<string, Entries>, log: seq<Exchange>): map<string, Entries> {
    if log == [] then replicas
    else
      var before := AfterExchanges(replicas, log[..|log| - 1]);
      var x := log[|log| - 1];
      if x.to in before && x.from in before then before[x.to := Merged(before[x.to], before[x.from])] else before
  }

  /** All entries that any replica holds for `k` tie. */
  ghost predicate AllTied(replicas: map<string, Entries>, k: string) {
    forall x, y :: x in replicas && y in replicas && k in replicas[x] && k in replicas[y] ==>
      Tie(replicas[x][k].hlc, replicas[y][k].hlc)
  }

  /** Ties are for good: however the daemons exchange their sets, each keeps the tied entry it had. */
  lemma {:induction false} TiesAreForGood(replicas: map<string, Entries>, log: seq<Exchange>, k: string)
    requires AllTied(replicas, k)
    ensures var after := AfterExchanges(replicas, log);
            && after.Keys == replicas.Keys && AllTied(after, k)
            && forall x :: x in replicas && k in replicas[x] ==> k in after[x] && after[x][k] == replicas[x][k]
    decreases |log|
  {
    if log != [] {
      TiesAreForGood(replicas, log[..|log| - 1], k);
    }
  }
}
