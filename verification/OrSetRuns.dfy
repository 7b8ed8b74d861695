/**
 Runs of replicas that add to, remove from and merge observed-remove sets,
 receiving any past state of any replica any number of times in any order.
 */
module OrSetRuns {
  import opened Common
  import opened OrSet

  type Element = string

  /** A remove records the element and the tags it observed. */
  datatype Op =
    | AddOp(element: Element, tag: Tag)
    | RemoveOp(element: Element, observed: set<Tag>)

  /** The fields of a replica, with the set of operations they have absorbed. */
  datatype Replica = Replica(fields: Storage<Element>, history: set<Op>) {
    ghost function State(): State<Element> {
      Meaning(fields)
    }
  }

  /**
   `sent` only grows: every state a replica ever had may reach anyone, at any
   time, repeatedly. `ops` are all operations performed so far.
   */
  datatype World = World(replicas: map<string, Replica>, sent: set<Replica>, ops: set<Op>)

  datatype Step =
    | AddStep(id: string, element: Element, tag: Tag)
    | RemoveStep(id: string, element: Element)
    | MergeStep(id: string, from: Replica, merged: Storage<Element>)

  ghost predicate Possible(w: World, s: Step) {
    && s.id in w.replicas
    && (s.MergeStep? ==> s.from in w.sent && StoreMerge(w.replicas[s.id].fields, s.from.fields, s.merged))
  }

  /** The tag has never been used before, by anyone. */
  ghost predicate FreshTag(w: World, s: Step) {
    s.AddStep? ==> forall e :: AddOp(e, s.tag) !in w.ops
  }

  /** What the steps of a run observe: nothing, new tags for adds, or a guard on removes. */
  datatype Policy = AnyStep | FreshTags | SharingNone | StrandingNone

  ghost predicate Allowed(p: Policy, w: World, s: Step)
    requires Possible(w, s)
  {
    match p
    case AnyStep => true
    case FreshTags => FreshTag(w, s)
    case SharingNone => s.RemoveStep? ==> SharesNone(w.replicas[s.id].fields, s.element)
    case StrandingNone => s.RemoveStep? ==> StrandsNone(w.replicas[s.id].fields, s.element)
  }

  ghost function Update(r: Replica, s: Step): Replica {
    match s
    case AddStep(_, e, t) => Replica(StoreAdd(r.fields, e, t), r.history + {AddOp(e, t)})
    case RemoveStep(_, e) => Replica(StoreRemove(r.fields, e), r.history + {RemoveOp(e, TagsOf(r.State(), e))})
    case MergeStep(_, from, merged) => Replica(merged, r.history + from.history)
  }

  ghost function Apply(w: World, s: Step): World
    requires Possible(w, s)
  {
    var r := Update(w.replicas[s.id], s);
    World(w.replicas[s.id := r], w.sent + {r}, w.ops + r.history)
  }

  ghost predicate Init(w: World) {
    && (forall x :: x in w.replicas ==> w.replicas[x] == Replica(EmptyStorage(), {}))
    && w.sent == {Replica(EmptyStorage(), {})} && w.ops == {}
  }

  ghost predicate Next(p: Policy, w: World, w': World) {
    exists s :: Possible(w, s) && Allowed(p, w, s) && w' == Apply(w, s)
  }

  ghost predicate StepAt(p: Policy, trace: seq<World>, i: int)
    requires 0 <= i < |trace| - 1
  {
    Next(p, trace[i], trace[i + 1])
  }

  ghost predicate IsRun(p: Policy, trace: seq<World>) {
    && |trace| > 0 && Init(trace[0])
    && forall i :: 0 <= i < |trace| - 1 ==> StepAt(p, trace, i)
  }

  // ----- the state a history determines

  ghost function DeadTags(h: set<Op>): set<Tag> {
    set o, t | o in h && o.RemoveOp? && t in o.observed :: t
  }

  ghost function AddedPairs(h: set<Op>): set<(Element, Tag)> {
    set o | o in h && o.AddOp? :: (o.element, o.tag)
  }

  ghost function StateOf(h: set<Op>): State<Element> {
    State(Alive(AddedPairs(h), DeadTags(h)), DeadTags(h))
  }

  lemma StateOfUnion(g: set<Op>, h: set<Op>)
    ensures StateOf(g + h) == Join(StateOf(g), StateOf(h))
  {
    assert DeadTags(g + h) == DeadTags(g) + DeadTags(h);
    assert AddedPairs(g + h) == AddedPairs(g) + AddedPairs(h);
  }

  lemma StateOfAdd(h: set<Op>, e: Element, t: Tag)
    ensures StateOf(h + {AddOp(e, t)}) == Added(StateOf(h), e, t)
  {
    var h' := h + {AddOp(e, t)};
    assert DeadTags(h') == DeadTags(h);
    forall p ensures p in AddedPairs(h') <==> p in AddedPairs(h) + {(e, t)} {
      if p == (e, t) {
        assert AddOp(e, t) in h';
      }
    }
    assert StateOf(h').live == Added(StateOf(h), e, t).live;
  }

  lemma StateOfRemove(h: set<Op>, e: Element, tags: set<Tag>)
    requires tags == TagsOf(StateOf(h), e)
    ensures StateOf(h + {RemoveOp(e, tags)}) == Removed(StateOf(h), e)
  {
    var h' := h + {RemoveOp(e, tags)};
    forall t ensures t in DeadTags(h') <==> t in DeadTags(h) + tags {
      if t in tags {
        assert RemoveOp(e, tags) in h';
      }
    }
    assert DeadTags(h') == DeadTags(h) + tags;
    assert AddedPairs(h') == AddedPairs(h);
    assert StateOf(h').live == Removed(StateOf(h), e).live;
  }

  // ----- invariants

  ghost predicate Determined(w: World) {
    && (forall x :: x in w.replicas ==> w.replicas[x] in w.sent)
    && (forall r :: r in w.sent ==> r.State() == StateOf(r.history))
  }

  /** Over everything anyone did: a tag belongs to one element, and a remove observes only tags of its own element. */
  ghost predicate Owned(w: World) {
    && (forall r :: r in w.sent ==> r.history <= w.ops)
    && (forall e, e', t :: AddOp(e, t) in w.ops && AddOp(e', t) in w.ops ==> e == e')
    && (forall o, t :: o in w.ops && o.RemoveOp? && t in o.observed ==> AddOp(o.element, t) in w.ops)
  }

  ghost predicate AllClean(w: World) {
    forall r :: r in w.sent ==> CleanStorage(r.fields)
  }

  lemma UpdateDetermined(r: Replica, s: Step)
    requires r.State() == StateOf(r.history)
    requires s.MergeStep? ==> s.from.State() == StateOf(s.from.history) && StoreMerge(r.fields, s.from.fields, s.merged)
    ensures Update(r, s).State() == StateOf(Update(r, s).history)
  {
    match s
    case AddStep(_, e, t) =>
      StateOfAdd(r.history, e, t);
      StoreAddMeans(r.fields, e, t);
    case RemoveStep(_, e) =>
      StateOfRemove(r.history, e, TagsOf(r.State(), e));
      StoreRemoveMeans(r.fields, e);
    case MergeStep(_, from, _) => StateOfUnion(r.history, from.history);
  }

  /** Tags of one element each make a replica's state unshared. */
  lemma OwnedUnshared(w: World, r: Replica)
    requires Determined(w) && Owned(w) && r in w.sent
    ensures Unshared(r.State())
  {
    assert forall p :: p in r.State().live ==> AddOp(p.0, p.1) in w.ops;
  }

  /** With tags of one element each, every operation leaves clean storage clean. */
  lemma UpdateClean(r: Replica, s: Step)
    requires CleanStorage(r.fields) && Unshared(r.State())
    requires s.MergeStep? ==> StoreMerge(r.fields, s.from.fields, s.merged)
    ensures CleanStorage(Update(r, s).fields)
  {
    match s
    case AddStep(_, e, t) => StoreAddMeans(r.fields, e, t);
    case RemoveStep(_, e) =>
      UnsharedSharesNone(r.fields, e);
      RemoveCleanIff(r.fields, e);
    case MergeStep(_, _, _) =>
  }

  lemma StepKeepsOwned(w: World, s: Step)
    requires Determined(w) && Owned(w) && Possible(w, s) && FreshTag(w, s)
    ensures Owned(Apply(w, s))
  {
    var r := w.replicas[s.id];
    assert r in w.sent && r.history <= w.ops;
    if s.RemoveStep? {
      forall t | t in TagsOf(r.State(), s.element) ensures AddOp(s.element, t) in w.ops {
        assert (s.element, t) in AddedPairs(r.history);
      }
    }
  }

  lemma {:induction false} RunInv(p: Policy, trace: seq<World>, i: nat)
    requires IsRun(p, trace) && i < |trace|
    ensures Determined(trace[i])
    ensures p.FreshTags? ==> Owned(trace[i]) && AllClean(trace[i])
  {
    if i == 0 {
      assert StateOf({}) == Empty<Element>() == Meaning(EmptyStorage<Element>());
    } else {
      RunInv(p, trace, i - 1);
      var w := trace[i - 1];
      assert StepAt(p, trace, i - 1);
      var s :| Possible(w, s) && Allowed(p, w, s) && trace[i] == Apply(w, s);
      UpdateDetermined(w.replicas[s.id], s);
      if p.FreshTags? {
        StepKeepsOwned(w, s);
        OwnedUnshared(w, w.replicas[s.id]);
        UpdateClean(w.replicas[s.id], s);
      }
    }
  }

  // ----- theorems

  /**
   Strong eventual consistency: in every run, whatever the tags, a replica's
   state is determined by the operations it has absorbed, so replicas that have
   absorbed the same ones hold the same elements.
   */
  lemma Convergence(trace: seq<World>, i: nat, j: nat, x: string, y: string)
    requires IsRun(AnyStep, trace) && i < |trace| && j < |trace|
    requires x in trace[i].replicas && y in trace[j].replicas
    ensures trace[i].replicas[x].State() == StateOf(trace[i].replicas[x].history)
    ensures trace[i].replicas[x].history == trace[j].replicas[y].history ==>
              trace[i].replicas[x].State() == trace[j].replicas[y].State()
  {
    RunInv(AnyStep, trace, i);
    RunInv(AnyStep, trace, j);
  }

  /** Add wins: an element is present exactly when some add of it was observed by no remove of it. */
  lemma ObservedRemove(trace: seq<World>, i: nat, x: string, e: Element)
    requires IsRun(FreshTags, trace) && i < |trace| && x in trace[i].replicas
    ensures var h := trace[i].replicas[x].history;
            Member(trace[i].replicas[x].State(), e) <==>
              exists t :: AddOp(e, t) in h && forall o :: o in h && o.RemoveOp? && o.element == e ==> t !in o.observed
  {
    RunInv(FreshTags, trace, i);
    var r := trace[i].replicas[x];
    var h := r.history;
    assert r in trace[i].sent;
    if Member(r.State(), e) {
      var p :| p in r.State().live && p.0 == e;
      assert AddOp(e, p.1) in h;
      assert forall o :: o in h && o.RemoveOp? && o.element == e ==> p.1 !in o.observed;
    }
    if t :| AddOp(e, t) in h && forall o :: o in h && o.RemoveOp? && o.element == e ==> t !in o.observed {
      assert forall o :: o in h && o.RemoveOp? && t in o.observed ==> AddOp(o.element, t) in trace[i].ops;
      assert t !in DeadTags(h);
      assert (e, t) in r.State().live;
    }
  }

  /** With fresh tags no two elements of a replica ever share a tag. */
  lemma TagsNotShared(trace: seq<World>, i: nat, x: string)
    requires IsRun(FreshTags, trace) && i < |trace| && x in trace[i].replicas
    ensures Unshared(trace[i].replicas[x].State())
  {
    RunInv(FreshTags, trace, i);
    OwnedUnshared(trace[i], trace[i].replicas[x]);
  }

  /**
   In every run with fresh tags, at every moment, the storage holds nothing
   tombstoned and nothing empty, and `len()` is the number of elements.
   */
  lemma LenCountsElements(trace: seq<World>, i: nat, x: string)
    requires IsRun(FreshTags, trace) && i < |trace| && x in trace[i].replicas
    ensures CleanStorage(trace[i].replicas[x].fields)
    ensures |trace[i].replicas[x].fields.entries| == |Members(trace[i].replicas[x].State())|
  {
    RunInv(FreshTags, trace, i);
    var f := trace[i].replicas[x].fields;
    EntryCount(f.entries, f.removed);
  }

  // ----- the exact guards on removes, whatever the tags

  /** Only a remove can spoil the storage of a replica: the others keep it clean, and keep `len()` right. */
  lemma StepSpoilsIff(w: World, s: Step)
    requires Possible(w, s)
    ensures CleanStorage(w.replicas[s.id].fields) ==>
              (CleanStorage(Apply(w, s).replicas[s.id].fields) <==> Allowed(SharingNone, w, s))
    ensures LenRight(w.replicas[s.id].fields) ==>
              (LenRight(Apply(w, s).replicas[s.id].fields) <==> Allowed(StrandingNone, w, s))
  {
    var f := w.replicas[s.id].fields;
    match s
    case AddStep(_, e, t) =>
      StoreAddMeans(f, e, t);
      if LenRight(f) {
        AddKeepsLen(f, e, t);
      }
    case RemoveStep(_, e) =>
      RemoveLenIff(f, e);
      if CleanStorage(f) {
        RemoveCleanIff(f, e);
      }
    case MergeStep(_, _, merged) =>
      EntryCount(merged.entries, merged.removed);
  }

  lemma AddKeepsLen(s: Storage<Element>, e: Element, t: Tag)
    requires LenRight(s)
    ensures LenRight(StoreAdd(s, e, t))
  {
    var s' := StoreAdd(s, e, t);
    EntryCount(s.entries, s.removed);
    EntryCount(s'.entries, s'.removed);
    if t !in s.removed {
      forall x | x in s'.entries ensures exists y :: y in s'.entries[x] && y !in s'.removed {
        if x == e {
          assert t in s'.entries[x];
        }
      }
    }
  }

  ghost predicate ReplicasClean(w: World) {
    forall x :: x in w.replicas ==> CleanStorage(w.replicas[x].fields)
  }

  ghost predicate LensRight(w: World) {
    forall x :: x in w.replicas ==> LenRight(w.replicas[x].fields)
  }

  lemma StepClean(w: World, s: Step)
    requires Possible(w, s) && ReplicasClean(w)
    ensures ReplicasClean(Apply(w, s)) <==> Allowed(SharingNone, w, s)
  {
    StepSpoilsIff(w, s);
  }

  lemma StepLens(w: World, s: Step)
    requires Possible(w, s) && LensRight(w)
    ensures LensRight(Apply(w, s)) <==> Allowed(StrandingNone, w, s)
  {
    StepSpoilsIff(w, s);
  }

  lemma InitRight(w: World)
    requires Init(w)
    ensures ReplicasClean(w) && LensRight(w)
  {
    assert Meaning(EmptyStorage<Element>()) == Empty<Element>();
  }

  lemma {:induction false} GuardedClean(trace: seq<World>, i: nat)
    requires IsRun(SharingNone, trace) && i < |trace|
    ensures ReplicasClean(trace[i])
  {
    if i == 0 {
      InitRight(trace[0]);
    } else {
      GuardedClean(trace, i - 1);
      assert StepAt(SharingNone, trace, i - 1);
      var s :| Possible(trace[i - 1], s) && Allowed(SharingNone, trace[i - 1], s) && trace[i] == Apply(trace[i - 1], s);
      StepClean(trace[i - 1], s);
    }
  }

  lemma {:induction false} GuardedLens(trace: seq<World>, i: nat)
    requires IsRun(StrandingNone, trace) && i < |trace|
    ensures LensRight(trace[i])
  {
    if i == 0 {
      InitRight(trace[0]);
    } else {
      GuardedLens(trace, i - 1);
      assert StepAt(StrandingNone, trace, i - 1);
      var s :| Possible(trace[i - 1], s) && Allowed(StrandingNone, trace[i - 1], s) && trace[i] == Apply(trace[i - 1], s);
      StepLens(trace[i - 1], s);
    }
  }

  /** In any run, all storage is clean at every moment exactly when no remove takes a tag that another entry stores. */
  lemma CleanIff(trace: seq<World>)
    requires IsRun(AnyStep, trace)
    ensures (forall i :: 0 <= i < |trace| ==> ReplicasClean(trace[i])) <==> IsRun(SharingNone, trace)
  {
    if forall i :: 0 <= i < |trace| ==> ReplicasClean(trace[i]) {
      forall i | 0 <= i < |trace| - 1 ensures StepAt(SharingNone, trace, i) {
        assert StepAt(AnyStep, trace, i);
        var s :| Possible(trace[i], s) && trace[i + 1] == Apply(trace[i], s);
        assert ReplicasClean(trace[i]) && ReplicasClean(trace[i + 1]);
        StepClean(trace[i], s);
      }
    }
    if IsRun(SharingNone, trace) {
      forall i | 0 <= i < |trace| ensures ReplicasClean(trace[i]) {
        GuardedClean(trace, i);
      }
    }
  }

  /**
   In any run, whatever the tags, `len()` is the number of elements at every
   replica and moment exactly when no remove strands another entry.
   */
  lemma LenCountsElementsIff(trace: seq<World>)
    requires IsRun(AnyStep, trace)
    ensures (forall i :: 0 <= i < |trace| ==> LensRight(trace[i])) <==> IsRun(StrandingNone, trace)
  {
    if forall i :: 0 <= i < |trace| ==> LensRight(trace[i]) {
      forall i | 0 <= i < |trace| - 1 ensures StepAt(StrandingNone, trace, i) {
        assert StepAt(AnyStep, trace, i);
        var s :| Possible(trace[i], s) && trace[i + 1] == Apply(trace[i], s);
        assert LensRight(trace[i]) && LensRight(trace[i + 1]);
        StepLens(trace[i], s);
      }
    }
    if IsRun(StrandingNone, trace) {
      forall i | 0 <= i < |trace| ensures LensRight(trace[i]) {
        GuardedLens(trace, i);
      }
    }
  }

  /** A reused tag breaks it: an element removed with another's tag is gone, and still counted. */
  lemma SharedTagMiscounts() returns (trace: seq<World>)
    ensures IsRun(AnyStep, trace)
    ensures "kiosk" in trace[|trace| - 1].replicas
    ensures var r := trace[|trace| - 1].replicas["kiosk"];
            |r.fields.entries| == 1 && Members(r.State()) == {}
  {
    var r0 := Replica(EmptyStorage(), {});
    trace := [World(map["kiosk" := r0], {r0}, {})];
    trace := Extend(trace, AddStep("kiosk", "a", "t"));
    trace := Extend(trace, AddStep("kiosk", "b", "t"));
    trace := Extend(trace, RemoveStep("kiosk", "a"));
    SharedTagStays();
  }

  lemma Extend(trace: seq<World>, s: Step) returns (trace': seq<World>)
    requires IsRun(AnyStep, trace) && Possible(trace[|trace| - 1], s)
    ensures IsRun(AnyStep, trace') && |trace'| == |trace| + 1 && trace'[|trace|] == Apply(trace[|trace| - 1], s)
  {
    trace' := trace + [Apply(trace[|trace| - 1], s)];
    forall i | 0 <= i < |trace'| - 1 ensures StepAt(AnyStep, trace', i) {
      if i < |trace| - 1 {
        assert StepAt(AnyStep, trace, i);
      }
    }
  }

  lemma SharedTagStays()
    ensures var s := StoreRemove(StoreAdd(StoreAdd(EmptyStorage(), "a", "t"), "b", "t"), "a");
            s == Storage(map["b" := ["t"]], ["t"]) && Members(Meaning(s)) == {}
  {
    assert [] + ["t"] == ["t"];
    assert StoreAdd(EmptyStorage(), "a", "t") == Storage(map["a" := ["t"]], []);
    assert StoreAdd(Storage(map["a" := ["t"]], []), "b", "t") == Storage(map["a" := ["t"], "b" := ["t"]], []);
    var s := Storage(map["b" := ["t"]], ["t"]);
    assert StoreRemove(Storage(map["a" := ["t"], "b" := ["t"]], []), "a") == s;
    assert Meaning(s).live == {};
  }
}
