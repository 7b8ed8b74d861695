/**
 The observed-remove set of the sync engine: tagged additions, tombstoned tags.
 `State` is what the vectors and maps mean; the class holds them and is proved
 against it.
 */
module OrSet {
  import opened Common

  type Tag = string

  /** The (element, tag) pairs that still count, and the tags that never will again. */
  datatype State<!T(==)> = State(live: set<(T, Tag)>, dead: set<Tag>)

  ghost function Empty<T>(): State<T> {
    State({}, {})
  }

  /** The tags under which `e` is live. */
  ghost function TagsOf<T>(s: State<T>, e: T): set<Tag> {
    set p | p in s.live && p.0 == e :: p.1
  }

  ghost function Alive<T>(pairs: set<(T, Tag)>, dead: set<Tag>): set<(T, Tag)> {
    set p | p in pairs && p.1 !in dead
  }

  ghost function Added<T>(s: State<T>, e: T, t: Tag): State<T> {
    if t in s.dead then s else State(s.live + {(e, t)}, s.dead)
  }

  ghost function Removed<T>(s: State<T>, e: T): State<T> {
    State(Alive(s.live, s.dead + TagsOf(s, e)), s.dead + TagsOf(s, e))
  }

  ghost function Join<T>(a: State<T>, b: State<T>): State<T> {
    State(Alive(a.live + b.live, a.dead + b.dead), a.dead + b.dead)
  }

  ghost predicate Member<T>(s: State<T>, e: T) {
    exists p :: p in s.live && p.0 == e
  }

  ghost function Members<T>(s: State<T>): set<T> {
    set p | p in s.live :: p.0
  }

  ghost predicate Valid<T>(s: State<T>) {
    forall p :: p in s.live ==> p.1 !in s.dead
  }

  /** No tag is live under two elements. */
  ghost predicate Unshared<T>(s: State<T>) {
    forall p, q :: p in s.live && q in s.live && p.1 == q.1 ==> p == q
  }

  /** `b` knows everything `a` does: all its tombstones, and of each of its pairs either the pair or its tombstone. */
  ghost predicate Leq<T>(a: State<T>, b: State<T>) {
    && a.dead <= b.dead
    && forall p :: p in a.live ==> p in b.live || p.1 in b.dead
  }

  /** Merging is the least upper bound of a partial order on valid states. */
  lemma JoinIsLub<T>(a: State<T>, b: State<T>, c: State<T>)
    requires Valid(a) && Valid(b) && Valid(c)
    ensures Valid(Join(a, b))
    ensures Leq(a, Join(a, b)) && Leq(b, Join(a, b))
    ensures Leq(a, c) && Leq(b, c) ==> Leq(Join(a, b), c)
    ensures Leq(a, b) && Leq(b, a) ==> a == b
    ensures Leq(a, b) && Leq(b, c) ==> Leq(a, c)
  {
    if Leq(a, b) && Leq(b, a) {
      assert a.live == b.live;
    }
  }

  lemma JoinLaws<T>(a: State<T>, b: State<T>, c: State<T>)
    requires Valid(a)
    ensures Join(a, b) == Join(b, a)
    ensures Join(Join(a, b), c) == Join(a, Join(b, c))
    ensures Join(a, a) == a
  {
    assert a.live + b.live == b.live + a.live;
    assert a.dead + b.dead == b.dead + a.dead;
    assert Join(Join(a, b), c).live == Join(a, Join(b, c)).live;
    assert Join(Join(a, b), c).dead == Join(a, Join(b, c)).dead;
    assert Join(a, a).live == a.live;
  }

  /** Local operations only move up the order that merging joins. */
  lemma OperationsAscend<T>(s: State<T>, e: T, t: Tag)
    requires Valid(s)
    ensures Valid(Added(s, e, t)) && Leq(s, Added(s, e, t))
    ensures Valid(Removed(s, e)) && Leq(s, Removed(s, e)) && !Member(Removed(s, e), e)
  {
    forall p | p in s.live && p.0 == e ensures p.1 in TagsOf(s, e) {
    }
  }

  // ----- the data structure

  ghost function Elements(tags: seq<Tag>): set<Tag> {
    set t | t in tags
  }

  /** What a map of tag vectors and a tombstone vector stand for. */
  ghost function View<T>(entries: map<T, seq<Tag>>, removed: seq<Tag>): State<T> {
    State(Alive(Pairs(entries), Elements(removed)), Elements(removed))
  }

  /** Every stored entry still has a tag without a tombstone. */
  ghost predicate Tidy<T>(entries: map<T, seq<Tag>>, removed: seq<Tag>) {
    forall e :: e in entries ==> exists t :: t in entries[e] && t !in removed
  }

  /** Nothing tombstoned and nothing empty is stored. */
  ghost predicate Clean<T>(entries: map<T, seq<Tag>>, removed: seq<Tag>) {
    forall e :: e in entries ==> entries[e] != [] && forall t :: t in entries[e] ==> t !in removed
  }

  ghost function Pairs<T>(entries: map<T, seq<Tag>>): set<(T, Tag)> {
    set e, t | e in entries && t in entries[e] :: (e, t)
  }

  /** The fields of one set. */
  datatype Storage<!T(==)> = Storage(entries: map<T, seq<Tag>>, removed: seq<Tag>)

  ghost function Meaning<T>(s: Storage<T>): State<T> {
    View(s.entries, s.removed)
  }

  ghost predicate CleanStorage<T>(s: Storage<T>) {
    Clean(s.entries, s.removed)
  }

  function EmptyStorage<T(==)>(): Storage<T> {
    Storage(map[], [])
  }

  /** `add` on the fields. */
  function StoreAdd<T(==)>(s: Storage<T>, e: T, t: Tag): Storage<T> {
    if t in s.removed then s
    else s.(entries := s.entries[e := (if e in s.entries then s.entries[e] else []) + [t]])
  }

  /** `remove` on the fields. */
  function StoreRemove<T(==)>(s: Storage<T>, e: T): Storage<T> {
    if e in s.entries then Storage(map x | x in s.entries && x != e :: s.entries[x], s.removed + s.entries[e])
    else s
  }

  /** What `merge` leaves in the fields, up to the order of tags: the join, stored cleanly. */
  ghost predicate StoreMerge<T>(mine: Storage<T>, theirs: Storage<T>, merged: Storage<T>) {
    Meaning(merged) == Join(Meaning(mine), Meaning(theirs)) && CleanStorage(merged)
  }

  lemma StoreAddMeans<T>(s: Storage<T>, e: T, t: Tag)
    ensures Meaning(StoreAdd(s, e, t)) == Added(Meaning(s), e, t)
    ensures CleanStorage(s) ==> CleanStorage(StoreAdd(s, e, t))
  {
    if t !in s.removed {
      var s' := StoreAdd(s, e, t);
      forall p ensures p in Pairs(s'.entries) <==> p in Pairs(s.entries) + {(e, t)} {
        UpdatedPairs(s.entries, e, s'.entries[e], p);
      }
      assert Meaning(s').live == Added(Meaning(s), e, t).live;
    }
  }

  /** No other entry stores a tag that the entry of `e` stores. */
  ghost predicate SharesNone<T>(s: Storage<T>, e: T) {
    e in s.entries ==>
      forall x, t :: x in s.entries && x != e && t in s.entries[x] ==> t !in s.entries[e]
  }

  /** Every other entry stores a tag that is not tombstoned and not stored for `e`. */
  ghost predicate StrandsNone<T>(s: Storage<T>, e: T) {
    forall x :: x in s.entries && x != e ==> Keeps(s, e, x)
  }

  ghost predicate Keeps<T>(s: Storage<T>, e: T, x: T)
    requires x in s.entries
  {
    exists t :: t in s.entries[x] && t !in s.removed && (e in s.entries ==> t !in s.entries[e])
  }

  lemma StoreRemoveMeans<T>(s: Storage<T>, e: T)
    ensures Meaning(StoreRemove(s, e)) == Removed(Meaning(s), e)
  {
    var before := Meaning(s);
    if e in s.entries {
      RemovedView(s.entries, s.removed, e);
    } else {
      assert TagsOf(before, e) == {};
      assert before.dead + {} == before.dead;
      assert Alive(before.live, before.dead) == before.live;
    }
  }

  /** A remove leaves clean storage clean exactly when no other entry shares a tag with what it removes. */
  lemma RemoveCleanIff<T>(s: Storage<T>, e: T)
    requires CleanStorage(s)
    ensures CleanStorage(StoreRemove(s, e)) <==> SharesNone(s, e)
  {
    var s' := StoreRemove(s, e);
    if e in s.entries {
      assert s'.entries.Keys == s.entries.Keys - {e};
      if x, t :| x in s.entries && x != e && t in s.entries[x] && t in s.entries[e] {
        assert x in s'.entries && t in s'.entries[x] && t in s'.removed;
      }
    }
  }

  /** After a remove from any storage, `len()` counts the elements exactly when no other entry is stranded. */
  lemma RemoveLenIff<T>(s: Storage<T>, e: T)
    ensures LenRight(StoreRemove(s, e)) <==> StrandsNone(s, e)
  {
    var s' := StoreRemove(s, e);
    EntryCount(s'.entries, s'.removed);
    forall x | x in s.entries && x != e
      ensures x in s'.entries
      ensures Keeps(s, e, x) <==> exists t :: t in s'.entries[x] && t !in s'.removed
    {
      assert s'.entries[x] == s.entries[x];
      if t :| t in s'.entries[x] && t !in s'.removed {
        assert t in s.entries[x] && t !in s.removed && (e in s.entries ==> t !in s.entries[e]);
      }
      if Keeps(s, e, x) {
        var t :| t in s.entries[x] && t !in s.removed && (e in s.entries ==> t !in s.entries[e]);
        assert t in s'.entries[x] && t !in s'.removed;
      }
    }
    assert forall x :: x in s'.entries ==> x in s.entries && x != e;
  }

  /** `len()` is the number of elements. */
  ghost predicate LenRight<T>(s: Storage<T>) {
    |s.entries| == |Members(Meaning(s))|
  }

  /** Without shared tags a remove strands nothing. */
  lemma UnsharedSharesNone<T>(s: Storage<T>, e: T)
    requires CleanStorage(s) && Unshared(Meaning(s))
    ensures SharesNone(s, e)
  {
    var live := Meaning(s).live;
    if e in s.entries {
      assert forall t :: t in s.entries[e] ==> (e, t) in live;
      forall x, t | x in s.entries && x != e && t in s.entries[x] ensures t !in s.entries[e] {
        assert (x, t) in live;
      }
    }
  }

  class ORSet<T(==)> {
    var entries: map<T, seq<Tag>>
    var removedTags: seq<Tag>

    ghost function Abs(): State<T>
      reads this
    {
      View(entries, removedTags)
    }

    ghost function Fields(): Storage<T>
      reads this
    {
      Storage(entries, removedTags)
    }

    constructor ()
      ensures Fields() == EmptyStorage()
      ensures Abs() == Empty<T>() && Clean(entries, removedTags)
    {
      entries, removedTags := map[], [];
    }

    method Add(element: T, tag: Tag)
      modifies this
      ensures Fields() == StoreAdd(old(Fields()), element, tag)
      ensures Abs() == Added(old(Abs()), element, tag)
      ensures old(Clean(entries, removedTags)) ==> Clean(entries, removedTags)
    {
      StoreAddMeans(Fields(), element, tag);
      if tag in removedTags {
        return;
      }
      var tags := if element in entries then entries[element] else [];
      entries := entries[element := tags + [tag]];
    }

    method Remove(element: T)
      modifies this
      ensures Fields() == StoreRemove(old(Fields()), element)
      ensures Abs() == Removed(old(Abs()), element)
      ensures |entries| == |Members(Abs())| <==> old(StrandsNone(Fields(), element))
      ensures old(Clean(entries, removedTags)) ==> (Clean(entries, removedTags) <==> old(SharesNone(Fields(), element)))
      ensures old(Clean(entries, removedTags)) && Unshared(old(Abs())) ==> Clean(entries, removedTags)
    {
      StoreRemoveMeans(Fields(), element);
      RemoveLenIff(Fields(), element);
      if Clean(entries, removedTags) {
        RemoveCleanIff(Fields(), element);
        if Unshared(Abs()) {
          UnsharedSharesNone(Fields(), element);
        }
      }
      if element in entries {
        removedTags := removedTags + entries[element];
        entries := map e | e in entries && e != element :: entries[e];
      }
    }

    method Contains(element: T) returns (r: bool)
      ensures r <==> Member(Abs(), element)
    {
      r := element in entries && exists t | t in entries[element] :: t !in removedTags;
      if r {
        var t :| t in entries[element] && t !in removedTags;
        assert (element, t) in Abs().live;
      }
    }

    /** The elements in an arbitrary order, each once. */
    method ListElements() returns (out: seq<T>)
      ensures (set e | e in out) == Members(Abs())
      ensures |out| == |Members(Abs())|
    {
      out := [];
      ghost var seen: set<T> := {};
      var keys := entries.Keys;
      while keys != {}
        invariant keys <= entries.Keys
        invariant seen == (set e | e in out) && |seen| == |out|
        invariant seen == (set e | e in Members(Abs()) && e !in keys)
        invariant seen !! keys
        decreases keys
      {
        var e :| e in keys;
        if exists t | t in entries[e] :: t !in removedTags {
          var t :| t in entries[e] && t !in removedTags;
          assert (e, t) in Abs().live && e in Members(Abs());
          out := out + [e];
          seen := seen + {e};
        } else {
          assert e !in Members(Abs());
        }
        keys := keys - {e};
      }
      assert seen == Members(Abs());
    }

    /** `len` counts entries; it counts elements exactly in tidy states. */
    method Len() returns (n: nat)
      ensures n == |entries|
      ensures n == |Members(Abs())| <==> Tidy(entries, removedTags)
    {
      n := |entries|;
      EntryCount(entries, removedTags);
    }

    method Merge(other: ORSet<T>)
      requires other != this
      modifies this
      ensures StoreMerge(old(Fields()), other.Fields(), Fields())
      ensures Abs() == Join(old(Abs()), other.Abs())
      ensures Clean(entries, removedTags)
    {
      ghost var mine := Pairs(entries);
      ghost var theirs := Pairs(other.entries);
      MergeTombstones(other.removedTags);
      ghost var dead := Elements(removedTags);
      MergeEntries(other.entries);
      assert Alive(Pairs(entries), dead) == Alive(mine + theirs, dead);
      Retain();
      assert Abs().live == Join(old(Abs()), other.Abs()).live;
    }

    /** First loop of `merge`: append the tombstones not yet known. */
    method MergeTombstones(tags: seq<Tag>)
      modifies this`removedTags
      ensures Elements(removedTags) == old(Elements(removedTags)) + Elements(tags)
    {
      for i := 0 to |tags|
        invariant forall t :: t in removedTags <==> t in old(removedTags) || t in tags[..i]
      {
        assert tags[..i + 1] == tags[..i] + [tags[i]];
        if tags[i] !in removedTags {
          removedTags := removedTags + [tags[i]];
        }
      }
      assert tags[..|tags|] == tags;
    }

    /** Second loop of `merge`: append to each vector the tags it lacks, unless tombstoned. */
    method MergeEntries(other: map<T, seq<Tag>>)
      modifies this`entries
      ensures Pairs(entries) == old(Pairs(entries)) + Alive(Pairs(other), Elements(removedTags))
    {
      var keys := other.Keys;
      ghost var dead := Elements(removedTags);
      while keys != {}
        invariant keys <= other.Keys
        invariant forall p :: p in Pairs(entries) <==> p in old(Pairs(entries)) || (p in Alive(Pairs(other), dead) && p.0 !in keys)
        decreases keys
      {
        var e :| e in keys;
        var tags := if e in entries then entries[e] else [];
        ghost var before, start := entries, tags;
        for i := 0 to |other[e]|
          invariant forall t :: t in tags <==> t in start || (t in other[e][..i] && t !in removedTags)
        {
          var tag := other[e][i];
          assert other[e][..i + 1] == other[e][..i] + [tag];
          if tag !in tags && tag !in removedTags {
            tags := tags + [tag];
          }
        }
        assert other[e][..|other[e]|] == other[e];
        entries := entries[e := tags];
        forall p ensures p in Pairs(entries) <==> p in Pairs(before) || (p in Alive(Pairs(other), dead) && p.0 == e) {
          UpdatedPairs(before, e, tags, p);
        }
        keys := keys - {e};
      }
    }

    /** The clean-up of `merge`: drop tombstoned tags, then entries left without tags. */
    method Retain()
      modifies this`entries
      ensures Pairs(entries) == Alive(old(Pairs(entries)), Elements(removedTags))
      ensures Clean(entries, removedTags)
    {
      var kept: map<T, seq<Tag>> := map[];
      var keys := entries.Keys;
      ghost var dead := Elements(removedTags);
      while keys != {}
        invariant keys <= entries.Keys && kept.Keys !! keys
        invariant forall e :: e in kept ==> kept[e] != [] && forall t :: t in kept[e] ==> t !in removedTags
        invariant forall p :: p in Pairs(kept) <==> p in Alive(Pairs(entries), dead) && p.0 !in keys
        decreases keys
      {
        var e :| e in keys;
        ghost var before := kept;
        var tags := [];
        for i := 0 to |entries[e]|
          invariant forall t :: t in tags <==> t in entries[e][..i] && t !in removedTags
        {
          assert entries[e][..i + 1] == entries[e][..i] + [entries[e][i]];
          if entries[e][i] !in removedTags {
            tags := tags + [entries[e][i]];
          }
        }
        assert entries[e][..|entries[e]|] == entries[e];
        keys := keys - {e};
        if tags != [] {
          kept := kept[e := tags];
          forall p ensures p in Pairs(kept) <==> p in Alive(Pairs(entries), dead) && p.0 !in keys {
            UpdatedPairs(before, e, tags, p);
          }
        }
      }
      entries := kept;
    }
  }

  /** There are as many entries as elements exactly in tidy states; clean states are tidy. */
  lemma EntryCount<T>(entries: map<T, seq<Tag>>, removed: seq<Tag>)
    ensures |entries| == |Members(View(entries, removed))| <==> Tidy(entries, removed)
    ensures Clean(entries, removed) ==> Tidy(entries, removed)
  {
    var s := View(entries, removed);
    var m := Members(s);
    assert m <= entries.Keys;
    if Tidy(entries, removed) {
      forall e | e in entries ensures e in m {
        var t :| t in entries[e] && t !in removed;
        assert (e, t) in s.live;
      }
      assert m == entries.Keys;
    } else {
      var e :| e in entries && !exists t :: t in entries[e] && t !in removed;
      assert e !in m;
      SubsetCardinality(m, entries.Keys - {e});
    }
    if Clean(entries, removed) {
      forall e | e in entries ensures exists t :: t in entries[e] && t !in removed {
        assert entries[e][0] in entries[e];
      }
    }
  }

  lemma UpdatedPairs<T>(entries: map<T, seq<Tag>>, e: T, tags: seq<Tag>, p: (T, Tag))
    ensures p in Pairs(entries[e := tags]) <==> if p.0 == e then p.1 in tags else p in Pairs(entries)
  {
  }

  /** Moving all of an element's stored tags to the tombstones is `Removed`, even if some were dead already. */
  lemma RemovedView<T>(entries: map<T, seq<Tag>>, removed: seq<Tag>, e: T)
    requires e in entries
    ensures View(map x | x in entries && x != e :: entries[x], removed + entries[e]) == Removed(View(entries, removed), e)
  {
    var s := View(entries, removed);
    var s' := View(map x | x in entries && x != e :: entries[x], removed + entries[e]);
    forall t ensures t in s'.dead <==> t in s.dead + TagsOf(s, e) {
      if t in entries[e] && t !in removed {
        assert (e, t) in s.live;
      }
    }
    assert s'.dead == s.dead + TagsOf(s, e);
    forall p ensures p in s'.live <==> p in Removed(s, e).live {
    }
  }
}
