/**
 The multi-value register: the daemon's, whose merge never prunes local entries,
 and the TypeScript merge, which keeps less than it says.
 */
module MvRegister {
  import opened Common
  import opened Hlc

  datatype Entry = Entry(value: string, hlc: Stamp)

  /** `any(|other| other.hlc.dominates(hlc) && other.hlc != hlc)`. */
  predicate Dominated(hlc: Stamp, values: seq<Entry>) {
    exists e :: e in values && Dominates(e.hlc, hlc) && e.hlc != hlc
  }

  function Undominated(values: seq<Entry>, hlc: Stamp): (r: seq<Entry>)
    ensures forall e :: e in r <==> e in values && !Dominates(hlc, e.hlc)
  {
    if values == [] then []
    else
      Undominated(values[..|values| - 1], hlc)
      + if Dominates(hlc, values[|values| - 1].hlc) then [] else [values[|values| - 1]]
  }

  function Written(values: seq<Entry>, value: string, hlc: Stamp): seq<Entry> {
    Undominated(values, hlc) + [Entry(value, hlc)]
  }

  /** One round of the merge loop. */
  function Offered(values: seq<Entry>, e: Entry): seq<Entry> {
    if Dominated(e.hlc, values) || (exists o :: o in values && o.hlc == e.hlc) then values else values + [e]
  }

  function Merged(values: seq<Entry>, other: seq<Entry>): seq<Entry> {
    if other == [] then values
    else Offered(Merged(values, other[..|other| - 1]), other[|other| - 1])
  }

  /** The entries `read` returns the values of. */
  function Maximal(values: seq<Entry>, all: seq<Entry>): (r: seq<Entry>)
    ensures forall e :: e in r ==> e in values
  {
    if values == [] then []
    else
      Maximal(values[..|values| - 1], all)
      + if Dominated(values[|values| - 1].hlc, all) then [] else [values[|values| - 1]]
  }

  lemma {:induction false} MaximalMember(values: seq<Entry>, all: seq<Entry>, e: Entry)
    ensures e in Maximal(values, all) <==> e in values && !Dominated(e.hlc, all)
    decreases |values|
  {
    if values != [] {
      MaximalMember(values[..|values| - 1], all, e);
    }
  }

  function ValuesOf(entries: seq<Entry>): seq<string> {
    if entries == [] then [] else ValuesOf(entries[..|entries| - 1]) + [entries[|entries| - 1].value]
  }

  /** `sort_by` on the debug text of values: `v` goes behind everything not after it. */
  function Inserted(text: string -> string, v: string, s: seq<string>): seq<string> {
    if s == [] then [v]
    else if StrLess(text(v), text(s[0])) then [v] + s
    else [s[0]] + Inserted(text, v, s[1..])
  }

  function Sorted(text: string -> string, s: seq<string>): seq<string> {
    if s == [] then [] else Inserted(text, s[|s| - 1], Sorted(text, s[..|s| - 1]))
  }

  /** The vector `read` returns; `text` is the debug formatting of values. */
  function Reading(text: string -> string, values: seq<Entry>): seq<string> {
    Sorted(text, ValuesOf(Maximal(values, values)))
  }

  /** What `read` has collected after looking at the first `i` entries. */
  function Collected(values: seq<Entry>, i: nat): seq<string>
    requires i <= |values|
  {
    ValuesOf(Maximal(values[..i], values))
  }

  lemma CollectedNext(values: seq<Entry>, i: nat)
    requires i < |values|
    ensures Collected(values, i + 1)
            == Collected(values, i) + if Dominated(values[i].hlc, values) then [] else [values[i].value]
  {
    assert values[..i + 1][..i] == values[..i];
    var before := Maximal(values[..i], values);
    assert before + [] == before && ValuesOf(before) + [] == ValuesOf(before);
    ValuesOfLast(before, values[i]);
  }

  class MvRegister {
    var values: seq<Entry>

    constructor ()
      ensures values == []
    {
      values := [];
    }

    method Write(value: string, hlc: Stamp)
      modifies this
      ensures values == Written(old(values), value, hlc)
    {
      var kept := [];
      for i := 0 to |values|
        invariant kept == Undominated(values[..i], hlc)
      {
        assert values[..i + 1][..i] == values[..i];
        if !Dominates(hlc, values[i].hlc) {
          kept := kept + [values[i]];
        }
      }
      assert values[..|values|] == values;
      values := kept + [Entry(value, hlc)];
    }

    method Read(text: string -> string) returns (maximal: seq<string>)
      ensures maximal == Reading(text, values)
    {
      maximal := [];
      for i := 0 to |values|
        invariant maximal == Collected(values, i)
      {
        var dominated := exists e | e in values :: Dominates(e.hlc, values[i].hlc) && e.hlc != values[i].hlc;
        CollectedNext(values, i);
        if !dominated {
          maximal := maximal + [values[i].value];
        }
      }
      assert values[..|values|] == values;
      maximal := Sorted(text, maximal);
    }

    method Merge(other: MvRegister)
      requires other != this
      modifies this
      ensures values == Merged(old(values), other.values)
    {
      for i := 0 to |other.values|
        invariant other.values == old(other.values)
        invariant values == Merged(old(values), other.values[..i])
      {
        var e := other.values[i];
        assert other.values[..i + 1][..i] == other.values[..i];
        var dominated := exists o | o in values :: Dominates(o.hlc, e.hlc) && o.hlc != e.hlc;
        var duplicate := exists o | o in values :: o.hlc == e.hlc;
        if !dominated && !duplicate {
          values := values + [e];
        }
      }
      assert other.values[..|other.values|] == other.values;
    }
  }

  // ----- any tree of writes and merges

  datatype History =
    | Start
    | Write(before: History, value: string, stamp: Stamp)
    | Merge(left: History, right: History)

  function Writes(h: History): set<Entry> {
    match h
    case Start => {}
    case Write(b, v, s) => Writes(b) + {Entry(v, s)}
    case Merge(l, r) => Writes(l) + Writes(r)
  }

  function Eval(h: History): seq<Entry> {
    match h
    case Start => []
    case Write(b, v, s) => Written(Eval(b), v, s)
    case Merge(l, r) => Merged(Eval(l), Eval(r))
  }

  /** Equal stamps carry equal values. */
  ghost predicate Consistent(writes: set<Entry>) {
    forall e, f :: e in writes && f in writes && e.hlc == f.hlc ==> e == f
  }

  /** Some stored entry is as new as `w`: the same stamp, or one that dominates it. */
  ghost predicate Covered(w: Entry, values: seq<Entry>) {
    exists e :: e in values && (e.hlc == w.hlc || Dominates(e.hlc, w.hlc))
  }

  ghost predicate Represents(values: seq<Entry>, writes: set<Entry>) {
    && (forall e :: e in values ==> e in writes)
    && (forall w :: w in writes ==> Covered(w, values))
  }

  lemma CoveredBy(w: Entry, values: seq<Entry>, e: Entry)
    requires e in values && (e.hlc == w.hlc || Dominates(e.hlc, w.hlc))
    ensures Covered(w, values)
  {
  }

  lemma WrittenRepresents(values: seq<Entry>, writes: set<Entry>, v: string, s: Stamp)
    requires Represents(values, writes)
    ensures Represents(Written(values, v, s), writes + {Entry(v, s)})
  {
    var values' := Written(values, v, s);
    assert Entry(v, s) in values';
    forall w | w in writes ensures Covered(w, values') {
      assert Covered(w, values);
      var e :| e in values && (e.hlc == w.hlc || Dominates(e.hlc, w.hlc));
      if Dominates(s, e.hlc) {
        DominatesOrder(s, e.hlc, w.hlc);
        CoveredBy(w, values', Entry(v, s));
      } else {
        CoveredBy(w, values', e);
      }
    }
    CoveredBy(Entry(v, s), values', Entry(v, s));
  }

  lemma OfferedRepresents(values: seq<Entry>, e: Entry)
    ensures forall o :: o in values ==> o in Offered(values, e)
    ensures forall o :: o in Offered(values, e) ==> o in values || o == e
    ensures Covered(e, Offered(values, e))
  {
    if Dominated(e.hlc, values) {
      var o :| o in values && Dominates(o.hlc, e.hlc) && o.hlc != e.hlc;
      CoveredBy(e, values, o);
    } else if o :| o in values && o.hlc == e.hlc {
      CoveredBy(e, values, o);
    } else {
      CoveredBy(e, Offered(values, e), e);
    }
  }

  /** Merging keeps every local entry and covers every entry of the other side. */
  lemma {:induction false} MergedCovers(values: seq<Entry>, other: seq<Entry>)
    ensures forall o :: o in values ==> o in Merged(values, other)
    ensures forall o :: o in Merged(values, other) ==> o in values || o in other
    ensures forall e :: e in other ==> Covered(e, Merged(values, other))
    decreases |other|
  {
    if other != [] {
      var n := |other| - 1;
      MergedCovers(values, other[..n]);
      var prev := Merged(values, other[..n]);
      OfferedRepresents(prev, other[n]);
      forall e | e in other ensures Covered(e, Merged(values, other)) {
        if e in other[..n] {
          assert Covered(e, prev);
          var o :| o in prev && (o.hlc == e.hlc || Dominates(o.hlc, e.hlc));
          CoveredBy(e, Merged(values, other), o);
        }
      }
    }
  }

  /** Merging leaves the local entries where they are, and stores nothing stale behind them. */
  lemma {:induction false} MergedAppends(values: seq<Entry>, other: seq<Entry>)
    ensures values <= Merged(values, other)
    ensures forall i :: |values| <= i < |Merged(values, other)| ==>
              && Merged(values, other)[i] in other
              && !Dominated(Merged(values, other)[i].hlc, values)
    decreases |other|
  {
    if other != [] {
      var n := |other| - 1;
      MergedAppends(values, other[..n]);
      var before := Merged(values, other[..n]);
      assert forall e :: e in values ==> e in before;
      if Dominated(other[n].hlc, values) {
        var e :| e in values && Dominates(e.hlc, other[n].hlc) && e.hlc != other[n].hlc;
        assert e in before;
      }
    }
  }

  lemma MergedRepresents(a: seq<Entry>, b: seq<Entry>, p: set<Entry>, q: set<Entry>)
    requires Represents(a, p) && Represents(b, q)
    ensures Represents(Merged(a, b), p + q)
  {
    MergedCovers(a, b);
    forall w | w in p ensures Covered(w, Merged(a, b)) {
      assert Covered(w, a);
      var e :| e in a && (e.hlc == w.hlc || Dominates(e.hlc, w.hlc));
      CoveredBy(w, Merged(a, b), e);
    }
    forall w | w in q ensures Covered(w, Merged(a, b)) {
      assert Covered(w, b);
      var e :| e in b && (e.hlc == w.hlc || Dominates(e.hlc, w.hlc));
      assert Covered(e, Merged(a, b));
      var o :| o in Merged(a, b) && (o.hlc == e.hlc || Dominates(o.hlc, e.hlc));
      DominatesOrder(o.hlc, e.hlc, w.hlc);
      CoveredBy(w, Merged(a, b), o);
    }
  }

  lemma {:induction false} EvalRepresents(h: History)
    ensures Represents(Eval(h), Writes(h))
  {
    match h
    case Start =>
    case Write(b, v, s) =>
      EvalRepresents(b);
      WrittenRepresents(Eval(b), Writes(b), v, s);
    case Merge(l, r) =>
      EvalRepresents(l);
      EvalRepresents(r);
      MergedRepresents(Eval(l), Eval(r), Writes(l), Writes(r));
  }

  /** A write of the history that no other write of the history dominates. */
  ghost predicate MaximalWrite(w: Entry, writes: set<Entry>) {
    w in writes && forall o :: o in writes ==> !Dominates(o.hlc, w.hlc)
  }

  lemma MaximalIffRead(values: seq<Entry>, writes: set<Entry>, w: Entry)
    requires Represents(values, writes) && Consistent(writes)
    ensures w in Maximal(values, values) <==> MaximalWrite(w, writes)
  {
    MaximalMember(values, values, w);
    if MaximalWrite(w, writes) {
      assert Covered(w, values);
      var e :| e in values && (e.hlc == w.hlc || Dominates(e.hlc, w.hlc));
      assert e in writes && e == w;
    }
    if w in values && !Dominated(w.hlc, values) {
      forall o | o in writes ensures !Dominates(o.hlc, w.hlc) {
        assert Covered(o, values);
        var e :| e in values && (e.hlc == o.hlc || Dominates(e.hlc, o.hlc));
        DominatesOrder(e.hlc, o.hlc, w.hlc);
        DominatesOrder(w.hlc, w.hlc, w.hlc);
      }
    }
  }

  /**
   After any tree of writes and merges, `read` returns exactly the maximal
   writes of the whole history, although merging never prunes.
   */
  lemma ReadIsMaximal(h: History, w: Entry)
    requires Consistent(Writes(h))
    ensures w in Maximal(Eval(h), Eval(h)) <==> MaximalWrite(w, Writes(h))
  {
    EvalRepresents(h);
    MaximalIffRead(Eval(h), Writes(h), w);
  }

  // ----- repeated stamps

  ghost predicate DistinctStamps(values: seq<Entry>) {
    forall i, j :: 0 <= i < j < |values| ==> values[i].hlc != values[j].hlc
  }

  ghost predicate Holds(values: seq<Entry>, hlc: Stamp) {
    exists e :: e in values && e.hlc == hlc
  }

  /** No write reuses a stamp that its replica holds. */
  ghost predicate FreshWrites(h: History) {
    match h
    case Start => true
    case Write(b, _, s) => FreshWrites(b) && !Holds(Eval(b), s)
    case Merge(l, r) => FreshWrites(l) && FreshWrites(r)
  }

  /** No register on the way to `h` ever holds a stamp twice. */
  ghost predicate AlwaysDistinct(h: History) {
    && DistinctStamps(Eval(h))
    && match h
       case Start => true
       case Write(b, _, _) => AlwaysDistinct(b)
       case Merge(l, r) => AlwaysDistinct(l) && AlwaysDistinct(r)
  }

  lemma AppendDistinct(s: seq<Entry>, e: Entry)
    requires DistinctStamps(s)
    ensures DistinctStamps(s + [e]) <==> !Holds(s, e.hlc)
  {
    if Holds(s, e.hlc) {
      var x :| x in s && x.hlc == e.hlc;
      var i :| 0 <= i < |s| && s[i] == x;
      assert (s + [e])[i].hlc == (s + [e])[|s|].hlc;
    }
  }

  lemma {:induction false} UndominatedDistinct(values: seq<Entry>, hlc: Stamp)
    requires DistinctStamps(values)
    ensures DistinctStamps(Undominated(values, hlc))
    decreases |values|
  {
    if values != [] {
      var n := |values| - 1;
      UndominatedDistinct(values[..n], hlc);
      assert !Holds(values[..n], values[n].hlc);
      AppendDistinct(Undominated(values[..n], hlc), values[n]);
    }
  }

  /** A write stores its stamp twice exactly when the register already held it. */
  lemma WrittenDistinctIff(values: seq<Entry>, v: string, s: Stamp)
    requires DistinctStamps(values)
    ensures DistinctStamps(Written(values, v, s)) <==> !Holds(values, s)
  {
    UndominatedDistinct(values, s);
    AppendDistinct(Undominated(values, s), Entry(v, s));
    DominatesOrder(s, s, s);
    assert Holds(values, s) <==> Holds(Undominated(values, s), s);
  }

  lemma {:induction false} MergedDistinct(values: seq<Entry>, other: seq<Entry>)
    requires DistinctStamps(values)
    ensures DistinctStamps(Merged(values, other))
    decreases |other|
  {
    if other != [] {
      var n := |other| - 1;
      MergedDistinct(values, other[..n]);
      AppendDistinct(Merged(values, other[..n]), other[n]);
    }
  }

  /** Stamps stay distinct throughout exactly when no write reuses a stamp its replica holds. */
  lemma {:induction false} FreshWritesIff(h: History)
    ensures FreshWrites(h) <==> AlwaysDistinct(h)
  {
    match h
    case Start =>
    case Write(b, v, s) =>
      FreshWritesIff(b);
      if AlwaysDistinct(b) {
        WrittenDistinctIff(Eval(b), v, s);
      }
    case Merge(l, r) =>
      FreshWritesIff(l);
      FreshWritesIff(r);
      if AlwaysDistinct(l) {
        MergedDistinct(Eval(l), Eval(r));
      }
  }

  // ----- how often a write is read

  /** How many stored entries carry the stamp. */
  function StampCount(values: seq<Entry>, s: Stamp): nat {
    if values == [] then 0
    else StampCount(values[..|values| - 1], s) + if values[|values| - 1].hlc == s then 1 else 0
  }

  lemma CountAppend(values: seq<Entry>, e: Entry, s: Stamp)
    ensures StampCount(values + [e], s) == StampCount(values, s) + if e.hlc == s then 1 else 0
  {
    assert (values + [e])[..|values|] == values;
  }

  lemma {:induction false} CountHolds(values: seq<Entry>, s: Stamp)
    ensures StampCount(values, s) > 0 <==> Holds(values, s)
    decreases |values|
  {
    if values != [] {
      var n := |values| - 1;
      CountHolds(values[..n], s);
      assert values[n] in values;
      assert forall e :: e in values <==> e in values[..n] || e == values[n];
    }
  }

  lemma {:induction false} UndominatedCount(values: seq<Entry>, t: Stamp, s: Stamp)
    ensures StampCount(Undominated(values, t), s) == if Dominates(t, s) then 0 else StampCount(values, s)
    decreases |values|
  {
    if values != [] {
      var n := |values| - 1;
      var before := Undominated(values[..n], t);
      UndominatedCount(values[..n], t, s);
      assert before + [] == before;
      CountAppend(before, values[n], s);
    }
  }

  lemma WrittenCount(values: seq<Entry>, v: string, t: Stamp, s: Stamp)
    ensures StampCount(Written(values, v, t), s)
            == (if Dominates(t, s) then 0 else StampCount(values, s)) + if t == s then 1 else 0
  {
    UndominatedCount(values, t, s);
    CountAppend(Undominated(values, t), Entry(v, t), s);
  }

  /** A merge never adds a stamp that is held, nor a missing one twice. */
  lemma {:induction false} MergedCount(values: seq<Entry>, other: seq<Entry>, s: Stamp)
    ensures Holds(values, s) ==> StampCount(Merged(values, other), s) == StampCount(values, s)
    ensures !Holds(values, s) ==> StampCount(Merged(values, other), s) <= 1
    decreases |other|
  {
    CountHolds(values, s);
    if other != [] {
      var n := |other| - 1;
      var before := Merged(values, other[..n]);
      MergedCount(values, other[..n], s);
      CountHolds(before, s);
      CountAppend(before, other[n], s);
    }
  }

  lemma {:induction false} MaximalCount(values: seq<Entry>, all: seq<Entry>, s: Stamp)
    ensures StampCount(Maximal(values, all), s) == if Dominated(s, all) then 0 else StampCount(values, s)
    decreases |values|
  {
    if values != [] {
      var n := |values| - 1;
      var before := Maximal(values[..n], all);
      MaximalCount(values[..n], all, s);
      assert before + [] == before;
      CountAppend(before, values[n], s);
    }
  }

  /** No write of `s` met a register that held `s`, as far as its copies could get to the end of `h`. */
  ghost predicate Once(h: History, s: Stamp) {
    match h
    case Start => true
    case Write(b, _, t) => if t == s then !Holds(Eval(b), s) else Once(b, s)
    case Merge(l, r) => Holds(Eval(l), s) ==> Once(l, s)
  }

  /** A stamp that nothing dominates is stored at most once exactly when it was written so. */
  lemma {:induction false} OnceIff(h: History, s: Stamp)
    requires forall w :: w in Writes(h) ==> !Dominates(w.hlc, s)
    ensures StampCount(Eval(h), s) <= 1 <==> Once(h, s)
  {
    match h
    case Start =>
    case Write(b, v, t) =>
      OnceIff(b, s);
      assert Entry(v, t) in Writes(h);
      WrittenCount(Eval(b), v, t, s);
      CountHolds(Eval(b), s);
    case Merge(l, r) =>
      OnceIff(l, s);
      MergedCount(Eval(l), Eval(r), s);
  }

  ghost function MaximalWrites(writes: set<Entry>): set<Entry> {
    set w | w in writes && MaximalWrite(w, writes)
  }

  ghost predicate EachOnce(h: History) {
    forall w :: w in MaximalWrites(Writes(h)) ==> Once(h, w.hlc)
  }

  lemma {:induction false} Multiplicity(values: seq<Entry>, e: Entry)
    requires forall x :: x in values && x.hlc == e.hlc ==> x == e
    ensures multiset(values)[e] == StampCount(values, e.hlc)
    decreases |values|
  {
    if values != [] {
      var n := |values| - 1;
      assert values[n] in values;
      Multiplicity(values[..n], e);
      assert values == values[..n] + [values[n]];
    }
  }

  /** A maximal write is read at least once, and as often as its stamp is stored. */
  lemma ReadMultiplicity(h: History, e: Entry)
    requires Consistent(Writes(h))
    ensures var m := multiset(Maximal(Eval(h), Eval(h)))[e];
            if e in MaximalWrites(Writes(h)) then m >= 1 && (m == 1 <==> Once(h, e.hlc)) else m == 0
  {
    var values := Eval(h);
    var read := Maximal(values, values);
    ReadIsMaximal(h, e);
    if e in MaximalWrites(Writes(h)) {
      EvalRepresents(h);
      assert forall x :: x in read ==> x in values && x in Writes(h);
      Multiplicity(read, e);
      MaximalMember(values, values, e);
      MaximalCount(values, values, e.hlc);
      OnceIff(h, e.hlc);
    }
  }

  lemma PermutationWhenOnce(h: History)
    requires Consistent(Writes(h)) && EachOnce(h)
    ensures multiset(Maximal(Eval(h), Eval(h))) == multiset(MaximalWrites(Writes(h)))
  {
    var a, b := multiset(Maximal(Eval(h), Eval(h))), multiset(MaximalWrites(Writes(h)));
    forall e ensures a[e] == b[e] {
      ReadMultiplicity(h, e);
    }
  }

  /** `read` returns each maximal write once, and nothing else, exactly when each was written so. */
  lemma ReadIsPermutationIff(h: History)
    requires Consistent(Writes(h))
    ensures multiset(Maximal(Eval(h), Eval(h))) == multiset(MaximalWrites(Writes(h))) <==> EachOnce(h)
  {
    if EachOnce(h) {
      PermutationWhenOnce(h);
    } else {
      var w :| w in MaximalWrites(Writes(h)) && !Once(h, w.hlc);
      ReadMultiplicity(h, w);
      assert multiset(Maximal(Eval(h), Eval(h)))[w] != multiset(MaximalWrites(Writes(h)))[w];
    }
  }

  /** Never reusing a held stamp is enough. */
  lemma FreshIsOnce(h: History)
    requires FreshWrites(h)
    ensures EachOnce(h)
  {
    forall w | w in MaximalWrites(Writes(h)) ensures Once(h, w.hlc) {
      FreshWritesIff(h);
      DistinctCount(Eval(h), w.hlc);
      OnceIff(h, w.hlc);
    }
  }

  lemma {:induction false} DistinctCount(values: seq<Entry>, s: Stamp)
    requires DistinctStamps(values)
    ensures StampCount(values, s) <= 1
    decreases |values|
  {
    if values != [] {
      var n := |values| - 1;
      DistinctCount(values[..n], s);
      CountHolds(values[..n], s);
    }
  }

  /** No stamp is read twice. */
  ghost predicate ReadsDistinct(values: seq<Entry>) {
    forall t :: StampCount(Maximal(values, values), t) <= 1
  }

  lemma WrittenDominated(values: seq<Entry>, v: string, s: Stamp, t: Stamp)
    ensures Dominated(t, Written(values, v, s)) <==> Dominated(t, values) || Dominates(s, t)
  {
    var written := Written(values, v, s);
    assert Entry(v, s) in written;
    DominatesOrder(t, t, t);
    if e :| e in values && Dominates(e.hlc, t) && e.hlc != t {
      DominatesOrder(s, e.hlc, t);
      assert !Dominates(s, e.hlc) ==> e in written;
    }
  }

  /** What a caller can check: a write makes `read` repeat an entry exactly when its stamp is held and undominated. */
  lemma WriteRepeatsIff(values: seq<Entry>, v: string, s: Stamp)
    requires ReadsDistinct(values)
    ensures ReadsDistinct(Written(values, v, s)) <==> !(Holds(values, s) && !Dominated(s, values))
  {
    var written := Written(values, v, s);
    forall t
      ensures StampCount(Maximal(written, written), t) <= 1 <==> !(t == s && Holds(values, s) && !Dominated(s, values))
    {
      assert StampCount(Maximal(values, values), t) <= 1;
      MaximalCount(values, values, t);
      MaximalCount(written, written, t);
      WrittenDominated(values, v, s, t);
      WrittenCount(values, v, s, t);
      CountHolds(values, t);
      DominatesOrder(s, s, s);
    }
    if ReadsDistinct(written) {
      assert StampCount(Maximal(written, written), s) <= 1;
    }
  }

  // ----- equality of registers

  lemma {:induction false} InsertedCounts(text: string -> string, v: string, s: seq<string>)
    ensures multiset(Inserted(text, v, s)) == multiset(s) + multiset{v}
    decreases |s|
  {
    if s != [] && !StrLess(text(v), text(s[0])) {
      InsertedCounts(text, v, s[1..]);
      assert s == [s[0]] + s[1..];
    }
  }

  ghost predicate InOrder(text: string -> string, s: seq<string>) {
    forall i, j :: 0 <= i < j < |s| ==> !StrLess(text(s[j]), text(s[i]))
  }

  ghost predicate Bounds(text: string -> string, v: string, s: seq<string>) {
    forall x :: x in s ==> !StrLess(text(x), text(v))
  }

  lemma OrderedCons(text: string -> string, v: string, s: seq<string>)
    requires InOrder(text, s) && Bounds(text, v, s)
    ensures InOrder(text, [v] + s)
  {
    var t := [v] + s;
    forall i, j | 0 <= i < j < |t| ensures !StrLess(text(t[j]), text(t[i])) {
      assert t[j] == s[j - 1] && t[j] in s && (i > 0 ==> t[i] == s[i - 1]);
    }
  }

  lemma {:induction false} InsertedInOrder(text: string -> string, v: string, s: seq<string>)
    requires InOrder(text, s)
    ensures InOrder(text, Inserted(text, v, s))
    decreases |s|
  {
    if s != [] {
      assert Bounds(text, s[0], s[1..]);
      if StrLess(text(v), text(s[0])) {
        forall x | x in s ensures !StrLess(text(x), text(v)) {
          if StrLess(text(x), text(v)) {
            StrLessTransitive(text(x), text(v), text(s[0]));
            StrLessIrreflexive(text(x));
          }
        }
        OrderedCons(text, v, s);
      } else {
        InsertedInOrder(text, v, s[1..]);
        InsertedCounts(text, v, s[1..]);
        forall x | x in Inserted(text, v, s[1..]) ensures !StrLess(text(x), text(s[0])) {
          assert x in multiset(Inserted(text, v, s[1..]));
        }
        OrderedCons(text, s[0], Inserted(text, v, s[1..]));
      }
    }
  }

  lemma {:induction false} SortedInOrder(text: string -> string, s: seq<string>)
    ensures InOrder(text, Sorted(text, s)) && multiset(Sorted(text, s)) == multiset(s)
    decreases |s|
  {
    if s != [] {
      var n := |s| - 1;
      SortedInOrder(text, s[..n]);
      InsertedInOrder(text, s[n], Sorted(text, s[..n]));
      InsertedCounts(text, s[n], Sorted(text, s[..n]));
      assert s == s[..n] + [s[n]];
    }
  }

  /** Different values have different debug texts, as strings and numbers do. */
  ghost predicate InjectiveText(text: string -> string) {
    forall a, b :: text(a) == text(b) ==> a == b
  }

  lemma {:induction false} OneOrder(text: string -> string, a: seq<string>, b: seq<string>)
    requires InjectiveText(text) && InOrder(text, a) && InOrder(text, b) && multiset(a) == multiset(b)
    ensures a == b
    decreases |a|
  {
    assert |a| == |multiset(a)| == |multiset(b)| == |b|;
    if a != [] {
      OneLeast(text, a, b);
      WithoutFirst(a);
      WithoutFirst(b);
      assert InOrder(text, a[1..]) && InOrder(text, b[1..]);
      OneOrder(text, a[1..], b[1..]);
      assert a == [a[0]] + a[1..] && b == [b[0]] + b[1..];
    }
  }

  lemma WithoutFirst(a: seq<string>)
    requires a != []
    ensures multiset(a[1..]) == multiset(a) - multiset{a[0]}
  {
    assert a == [a[0]] + a[1..];
  }

  lemma LeastFirst(text: string -> string, a: seq<string>, x: string)
    requires InOrder(text, a) && x in a
    ensures !StrLess(text(x), text(a[0]))
  {
    StrLessIrreflexive(text(x));
  }

  lemma OneLeast(text: string -> string, a: seq<string>, b: seq<string>)
    requires InjectiveText(text) && InOrder(text, a) && InOrder(text, b) && multiset(a) == multiset(b) && a != [] && b != []
    ensures a[0] == b[0]
  {
    assert a[0] in multiset(b) && b[0] in multiset(a);
    LeastFirst(text, a, b[0]);
    LeastFirst(text, b, a[0]);
    StrLessTotal(text(a[0]), text(b[0]));
  }

  lemma ValuesOfLast(s: seq<Entry>, e: Entry)
    ensures ValuesOf(s + [e]) == ValuesOf(s) + [e.value]
    ensures multiset(ValuesOf(s + [e])) == multiset(ValuesOf(s)) + multiset{e.value}
  {
    assert (s + [e])[..|s|] == s;
  }

  function Without(s: seq<Entry>, i: nat): seq<Entry>
    requires i < |s|
  {
    s[..i] + s[i + 1..]
  }

  lemma WithoutLast(s: seq<Entry>, e: Entry, i: nat)
    requires i < |s|
    ensures Without(s + [e], i) == Without(s, i) + [e]
  {
  }

  /** Taking one entry out of a sequence takes its value out of the values. */
  lemma {:induction false} ValuesWithout(s: seq<Entry>, i: nat)
    requires i < |s|
    ensures multiset(ValuesOf(s)) == multiset(ValuesOf(Without(s, i))) + multiset{s[i].value}
    decreases |s|
  {
    var n := |s| - 1;
    var t, e := s[..n], s[n];
    assert s == t + [e];
    ValuesOfLast(t, e);
    if i == n {
      assert Without(s, i) == t;
    } else {
      ValuesWithout(t, i);
      WithoutLast(t, e, i);
      ValuesOfLast(Without(t, i), e);
    }
  }

  lemma CountsWithout(s: seq<Entry>, i: nat)
    requires i < |s|
    ensures multiset(Without(s, i)) == multiset(s) - multiset{s[i]}
  {
    assert s == s[..i] + ([s[i]] + s[i + 1..]);
  }

  lemma {:induction false} SameValues(a: seq<Entry>, b: seq<Entry>)
    requires multiset(a) == multiset(b)
    ensures multiset(ValuesOf(a)) == multiset(ValuesOf(b))
    decreases |a|
  {
    assert |a| == |multiset(a)| == |multiset(b)| == |b|;
    if a != [] {
      var n := |a| - 1;
      assert a[n] in multiset(b);
      var i :| 0 <= i < |b| && b[i] == a[n];
      CountsWithout(a, n);
      CountsWithout(b, i);
      SameValues(Without(a, n), Without(b, i));
      ValuesWithout(a, n);
      ValuesWithout(b, i);
    }
  }

  lemma {:induction false} ValuesLength(s: seq<Entry>)
    ensures |ValuesOf(s)| == |s|
    decreases |s|
  {
    if s != [] {
      ValuesLength(s[..|s| - 1]);
    }
  }

  lemma ReadingLength(text: string -> string, values: seq<Entry>)
    ensures |Reading(text, values)| == |Maximal(values, values)|
  {
    var vs := ValuesOf(Maximal(values, values));
    SortedInOrder(text, vs);
    ValuesLength(Maximal(values, values));
    assert |Sorted(text, vs)| == |multiset(Sorted(text, vs))| == |multiset(vs)| == |vs|;
  }

  lemma SameRead(text: string -> string, a: seq<Entry>, b: seq<Entry>)
    requires InjectiveText(text) && multiset(Maximal(a, a)) == multiset(Maximal(b, b))
    ensures Reading(text, a) == Reading(text, b)
  {
    SameValues(Maximal(a, a), Maximal(b, b));
    SortedInOrder(text, ValuesOf(Maximal(a, a)));
    SortedInOrder(text, ValuesOf(Maximal(b, b)));
    OneOrder(text, Reading(text, a), Reading(text, b));
  }

  lemma MoreAndNotMore(a: multiset<Entry>, b: multiset<Entry>)
    requires b <= a && |a| == |b|
    ensures a == b
  {
    assert a == b + (a - b);
  }

  /**
   Against a register that reads each maximal write once, one that has absorbed
   the same writes compares as equal exactly when it does so too.
   */
  lemma ReadConvergesIff(text: string -> string, g: History, h: History)
    requires InjectiveText(text) && Writes(g) == Writes(h) && Consistent(Writes(g)) && EachOnce(g)
    ensures Reading(text, Eval(g)) == Reading(text, Eval(h)) <==> EachOnce(h)
  {
    var a, b := Maximal(Eval(g), Eval(g)), Maximal(Eval(h), Eval(h));
    ReadIsPermutationIff(g);
    ReadIsPermutationIff(h);
    if EachOnce(h) {
      SameRead(text, Eval(g), Eval(h));
    } else if Reading(text, Eval(g)) == Reading(text, Eval(h)) {
      ReadingLength(text, Eval(g));
      ReadingLength(text, Eval(h));
      forall e ensures multiset(a)[e] <= multiset(b)[e] {
        ReadMultiplicity(h, e);
      }
      assert |multiset(a)| == |a| && |multiset(b)| == |b|;
      MoreAndNotMore(multiset(b), multiset(a));
    }
  }

  /** A stamp written twice breaks that: the same writes, and registers that compare as different. */
  lemma DoubleWriteDiffers(text: string -> string, once: History, twice: History, v: string, s: Stamp)
    requires once == Write(Start, v, s) && twice == Write(once, v, s)
    ensures Writes(once) == Writes(twice) && Consistent(Writes(once)) && EachOnce(once) && !EachOnce(twice)
    ensures Reading(text, Eval(once)) == [v] && Reading(text, Eval(twice)) == [v, v]
  {
    TwiceNotOnce(once, twice, v, s);
    TwiceReads(text, once, twice, v, s);
  }

  lemma TwiceNotOnce(once: History, twice: History, v: string, s: Stamp)
    requires once == Write(Start, v, s) && twice == Write(once, v, s)
    ensures Writes(once) == Writes(twice) && Consistent(Writes(once)) && EachOnce(once) && !EachOnce(twice)
  {
    var e := Entry(v, s);
    assert Writes(twice) == Writes(once) == {e};
    assert MaximalWrite(e, {e}) by {
      DominatesOrder(s, s, s);
    }
    assert Once(once, s) && !Once(twice, s) by {
      EvalTwice(v, s);
    }
    assert e in MaximalWrites(Writes(twice));
  }

  lemma TwiceReads(text: string -> string, once: History, twice: History, v: string, s: Stamp)
    requires once == Write(Start, v, s) && twice == Write(once, v, s)
    ensures Reading(text, Eval(once)) == [v] && Reading(text, Eval(twice)) == [v, v]
  {
    EvalTwice(v, s);
    ReadOnce(text, Entry(v, s));
    ReadTwice(text, Entry(v, s));
  }

  lemma EvalTwice(v: string, s: Stamp)
    ensures Eval(Write(Start, v, s)) == [Entry(v, s)]
    ensures Eval(Write(Write(Start, v, s), v, s)) == [Entry(v, s), Entry(v, s)]
    ensures Holds(Eval(Write(Start, v, s)), s)
  {
    var e := Entry(v, s);
    assert Eval(Write(Start, v, s)) == [e];
    assert Undominated([e], s) == [e] by {
      DominatesOrder(s, s, s);
      assert [e][..0] == [];
    }
    assert e in [e];
  }

  lemma ReadOnce(text: string -> string, e: Entry)
    ensures Reading(text, [e]) == [e.value]
  {
    var v := e.value;
    DominatesOrder(e.hlc, e.hlc, e.hlc);
    assert [e][..0] == [] && [v][..0] == [];
    assert Maximal([e], [e]) == [e];
    assert ValuesOf([e]) == [v];
    assert Sorted(text, [v]) == [v];
  }

  lemma ReadTwice(text: string -> string, e: Entry)
    ensures Reading(text, [e, e]) == [e.value, e.value]
  {
    var v := e.value;
    DominatesOrder(e.hlc, e.hlc, e.hlc);
    assert [e][..0] == [] && [e, e][..1] == [e];
    assert Maximal([e], [e, e]) == [e];
    assert Maximal([e, e], [e, e]) == [e, e];
    assert ValuesOf([e]) == [v];
    SortedTwice(text, v);
  }

  lemma SortedTwice(text: string -> string, v: string)
    ensures Sorted(text, [v, v]) == [v, v]
  {
    StrLessIrreflexive(text(v));
    assert [v][..0] == [] && [v, v][..1] == [v] && [v][1..] == [];
    assert Sorted(text, [v]) == [v];
    assert Inserted(text, v, [v]) == [v, v];
  }

  // ----- the TypeScript merge

  /** No entry of `all` is after `e` in the total order. */
  predicate Top(all: seq<Entry>, e: Entry) {
    forall o :: o in all ==> CompareHlc(o.hlc, e.hlc) <= 0
  }

  /** `mergeMvRegister`; its test `other !== candidate` is moot, because a stamp never beats itself. */
  method MergeMvRegister(a: seq<Entry>, b: seq<Entry>) returns (survivors: seq<Entry>)
    ensures forall e :: e in survivors <==> e in a + b && Top(a + b, e)
    ensures forall i, j :: 0 <= i < j < |survivors| ==> survivors[i] != survivors[j]
  {
    var combined := a + b;
    survivors := [];
    for i := 0 to |combined|
      invariant forall e :: e in survivors <==> e in combined[..i] && Top(combined, e)
      invariant forall j, k :: 0 <= j < k < |survivors| ==> survivors[j] != survivors[k]
    {
      var c := combined[i];
      assert combined[..i + 1] == combined[..i] + [c];
      var dominated := exists o | o in combined :: CompareHlc(o.hlc, c.hlc) > 0;
      var alreadyIncluded := exists e | e in survivors :: CompareHlc(e.hlc, c.hlc) == 0 && e.value == c.value;
      IncludedIff(survivors, c);
      assert dominated <==> !Top(combined, c);
      if !dominated && !alreadyIncluded {
        survivors := survivors + [c];
      }
    }
    assert combined[..|combined|] == combined;
  }

  lemma IncludedIff(s: seq<Entry>, c: Entry)
    ensures (exists e :: e in s && CompareHlc(e.hlc, c.hlc) == 0 && e.value == c.value) <==> c in s
  {
    CompareHlcOrder(c.hlc, c.hlc, c.hlc);
    forall e | e in s && CompareHlc(e.hlc, c.hlc) == 0 && e.value == c.value ensures e == c {
      CompareHlcOrder(e.hlc, c.hlc, c.hlc);
    }
  }

  /** All survivors share one stamp: concurrent writes of different kiosks are not kept side by side. */
  lemma TsSurvivorsShareStamp(all: seq<Entry>, e: Entry, f: Entry)
    requires e in all && Top(all, e) && f in all && Top(all, f)
    ensures e.hlc == f.hlc
  {
    CompareHlcOrder(e.hlc, f.hlc, e.hlc);
  }

  /** Two concurrent writes, neither dominating: a merge keeps only the one of the greater node id. */
  lemma TsDropsConcurrent()
    ensures var a, b := Entry("1", Stamp(7, 0, "k1")), Entry("2", Stamp(7, 0, "k2"));
            && !Dominates(a.hlc, b.hlc) && !Dominates(b.hlc, a.hlc)
            && !Top([a, b], a) && Top([a, b], b)
  {
    var a, b := Entry("1", Stamp(7, 0, "k1")), Entry("2", Stamp(7, 0, "k2"));
    assert JsLess("k1", "k2") by { assert "k1"[1..] == "1" && "k2"[1..] == "2"; }
    CompareHlcOrder(a.hlc, b.hlc, a.hlc);
    CompareHlcOrder(b.hlc, b.hlc, b.hlc);
    assert b in [a, b] && CompareHlc(b.hlc, a.hlc) == 1;
  }
}
