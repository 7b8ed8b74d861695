/**
 The positive-negative counter (both copies in the daemon have this code), its
 merge as a pointwise maximum, and what any run of replicas can read.
 */
module PnCounter {
  import opened Common

  type Counts = map<string, nat>

  datatype Counter = Counter(pos: Counts, neg: Counts)

  const TWO_64: nat := U64_MAX + 1

  function Get(m: Counts, k: string): nat {
    if k in m then m[k] else 0
  }

  function Bumped(m: Counts, k: string, amount: nat): Counts {
    m[k := SaturatingAdd(Get(m, k), amount, U64_MAX)]
  }

  function JoinCounts(a: Counts, b: Counts): Counts {
    map k | k in a.Keys + b.Keys :: Max(Get(a, k), Get(b, k))
  }

  function Join(a: Counter, b: Counter): Counter {
    Counter(JoinCounts(a.pos, b.pos), JoinCounts(a.neg, b.neg))
  }

  /** The sum of the counts of `keys`, in no particular order. */
  ghost function Total(m: Counts, keys: set<string>): nat
    decreases keys
  {
    if keys == {} then 0
    else
      var k :| k in keys;
      Get(m, k) + Total(m, keys - {k})
  }

  /** `value()`: two `u64` sums, which wrap in a release build, then a saturating difference. */
  ghost function Reading(c: Counter): nat {
    Max(0, Total(c.pos, c.pos.Keys) % TWO_64 - Total(c.neg, c.neg.Keys) % TWO_64)
  }

  /** The sums wrap: counts that pass a `u64` together read as what is left of them. */
  lemma ReadingWraps(a: string, b: string)
    requires a != b
    ensures Reading(Counter(map[a := U64_MAX, b := 8], map[])) == 7
  {
    var m: Counts := map[a := U64_MAX, b := 8];
    TotalPick(m, {a, b}, a);
    TotalPick(m, {b}, b);
    assert {a, b} - {a} == {b} && {b} - {b} == {};
    assert m.Keys == {a, b};
  }

  lemma {:induction false} TotalPick(m: Counts, keys: set<string>, k: string)
    requires k in keys
    ensures Total(m, keys) == Get(m, k) + Total(m, keys - {k})
    decreases keys
  {
    var x :| x in keys && Total(m, keys) == Get(m, x) + Total(m, keys - {x});
    if x != k {
      TotalPick(m, keys - {x}, k);
      TotalPick(m, keys - {k}, x);
      assert keys - {x} - {k} == keys - {k} - {x};
    }
  }

  /** Keys without a count add nothing, and only the counts matter. */
  lemma {:induction false} TotalSame(m: Counts, n: Counts, some: set<string>, all: set<string>)
    requires some <= all
    requires forall k :: k in all ==> Get(m, k) == Get(n, k)
    requires forall k :: k in all && k !in some ==> Get(m, k) == 0
    ensures Total(m, some) == Total(n, all)
    decreases all
  {
    if all != {} {
      var k :| k in all;
      TotalPick(n, all, k);
      if k in some {
        TotalPick(m, some, k);
      } else {
        assert some - {k} == some;
      }
      TotalSame(m, n, some - {k}, all - {k});
    }
  }

  lemma TermAtMostTotal(m: Counts, keys: set<string>, k: string)
    requires k in keys
    ensures Get(m, k) <= Total(m, keys)
  {
    TotalPick(m, keys, k);
  }

  /** Merging is a join: commutative, associative, idempotent. */
  lemma JoinLaws(a: Counter, b: Counter, c: Counter)
    ensures Join(a, b) == Join(b, a)
    ensures Join(Join(a, b), c) == Join(a, Join(b, c))
    ensures Join(a, a) == a
  {
    JoinCountsLaws(a.pos, b.pos, c.pos);
    JoinCountsLaws(a.neg, b.neg, c.neg);
  }

  lemma GetJoin(a: Counts, b: Counts, k: string)
    ensures Get(JoinCounts(a, b), k) == Max(Get(a, k), Get(b, k))
    ensures k in JoinCounts(a, b) <==> k in a || k in b
  {
  }

  lemma CountsEqual(a: Counts, b: Counts)
    requires forall k :: (k in a <==> k in b) && Get(a, k) == Get(b, k)
    ensures a == b
  {
    assert a.Keys == b.Keys;
    assert forall k :: k in a ==> a[k] == Get(a, k) && b[k] == Get(b, k);
  }

  lemma JoinCountsLaws(a: Counts, b: Counts, c: Counts)
    ensures JoinCounts(a, b) == JoinCounts(b, a)
    ensures JoinCounts(JoinCounts(a, b), c) == JoinCounts(a, JoinCounts(b, c))
    ensures JoinCounts(a, a) == a
  {
    JoinCountsAssociate(a, b, c);
    var ab, ba := JoinCounts(a, b), JoinCounts(b, a);
    forall k ensures (k in ab <==> k in ba) && Get(ab, k) == Get(ba, k) {
      GetJoin(a, b, k);
      GetJoin(b, a, k);
    }
    CountsEqual(ab, ba);
    CountsEqual(JoinCounts(a, a), a);
  }

  lemma JoinCountsAssociate(a: Counts, b: Counts, c: Counts)
    ensures JoinCounts(JoinCounts(a, b), c) == JoinCounts(a, JoinCounts(b, c))
  {
    var ab, bc := JoinCounts(a, b), JoinCounts(b, c);
    var l, r := JoinCounts(ab, c), JoinCounts(a, bc);
    forall k ensures (k in l <==> k in r) && Get(l, k) == Get(r, k) {
      GetJoin(a, b, k);
      GetJoin(b, c, k);
      GetJoin(ab, c, k);
      GetJoin(a, bc, k);
    }
    CountsEqual(l, r);
  }

  lemma WrapAdd(a: nat, b: nat)
    ensures (a % TWO_64 + b) % TWO_64 == (a + b) % TWO_64
  {
    var q := a / TWO_64;
    assert a == q * TWO_64 + a % TWO_64;
  }

  class PNCounter {
    var positives: Counts
    var negatives: Counts

    ghost function Abs(): Counter
      reads this
    {
      Counter(positives, negatives)
    }

    constructor ()
      ensures Abs() == Counter(map[], map[])
    {
      positives, negatives := map[], map[];
    }

    method Increment(origin: string, amount: nat)
      modifies this
      ensures Abs() == old(Abs()).(pos := Bumped(old(positives), origin, amount))
    {
      positives := positives[origin := SaturatingAdd(Get(positives, origin), amount, U64_MAX)];
    }

    method Decrement(origin: string, amount: nat)
      modifies this
      ensures Abs() == old(Abs()).(neg := Bumped(old(negatives), origin, amount))
    {
      negatives := negatives[origin := SaturatingAdd(Get(negatives, origin), amount, U64_MAX)];
    }

    method Value() returns (v: nat)
      ensures v == Reading(Abs())
    {
      var pos := SumValues(positives);
      var neg := SumValues(negatives);
      v := if neg <= pos then pos - neg else 0;
    }

    static method SumValues(m: Counts) returns (sum: nat)
      ensures sum == Total(m, m.Keys) % TWO_64
    {
      sum := 0;
      ghost var exact: nat := 0;
      var keys := m.Keys;
      while keys != {}
        invariant keys <= m.Keys
        invariant exact + Total(m, keys) == Total(m, m.Keys)
        invariant sum == exact % TWO_64
        decreases keys
      {
        var k :| k in keys;
        TotalPick(m, keys, k);
        WrapAdd(exact, m[k]);
        sum := (sum + m[k]) % TWO_64;
        exact := exact + m[k];
        keys := keys - {k};
      }
    }

    method Merge(other: PNCounter)
      requires other != this
      modifies this
      ensures Abs() == Join(old(Abs()), other.Abs())
    {
      positives := MergeCounts(positives, other.positives);
      negatives := MergeCounts(negatives, other.negatives);
    }

    static method MergeCounts(mine: Counts, theirs: Counts) returns (m: Counts)
      ensures m == JoinCounts(mine, theirs)
    {
      m := mine;
      var keys := theirs.Keys;
      while keys != {}
        invariant keys <= theirs.Keys
        invariant m.Keys == mine.Keys + (theirs.Keys - keys)
        invariant forall k :: k in m ==> m[k] == if k in keys then mine[k] else Max(Get(mine, k), Get(theirs, k))
        decreases keys
      {
        var k :| k in keys;
        var entry := Get(m, k);
        m := m[k := Max(entry, theirs[k])];
        keys := keys - {k};
      }
    }
  }

  // ----- runs: each kiosk changes only its own entry; any past state may reach anyone, repeatedly

  /** `inc` and `dec` are the true amounts each kiosk has counted so far. */
  datatype World = World(replicas: map<string, Counter>, sent: set<Counter>, inc: Counts, dec: Counts)

  datatype Step =
    | IncStep(id: string, amount: nat)
    | DecStep(id: string, amount: nat)
    | MergeStep(id: string, from: Counter)

  predicate Possible(w: World, s: Step) {
    s.id in w.replicas && (s.MergeStep? ==> s.from in w.sent)
  }

  function NewCounter(c: Counter, s: Step): Counter {
    match s
    case IncStep(id, n) => c.(pos := Bumped(c.pos, id, n))
    case DecStep(id, n) => c.(neg := Bumped(c.neg, id, n))
    case MergeStep(_, from) => Join(c, from)
  }

  function NewInc(inc: Counts, s: Step): Counts {
    if s.IncStep? then inc[s.id := Get(inc, s.id) + s.amount] else inc
  }

  function NewDec(dec: Counts, s: Step): Counts {
    if s.DecStep? then dec[s.id := Get(dec, s.id) + s.amount] else dec
  }

  function Apply(w: World, s: Step): World
    requires Possible(w, s)
  {
    var c := NewCounter(w.replicas[s.id], s);
    World(w.replicas[s.id := c], w.sent + {c}, NewInc(w.inc, s), NewDec(w.dec, s))
  }

  ghost predicate Init(w: World) {
    && (forall x :: x in w.replicas ==> w.replicas[x] == Counter(map[], map[]))
    && w.sent == {Counter(map[], map[])} && w.inc == map[] && w.dec == map[]
  }

  ghost predicate Next(w: World, w': World) {
    exists s :: Possible(w, s) && w' == Apply(w, s)
  }

  ghost predicate StepAt(trace: seq<World>, i: int)
    requires 0 <= i < |trace| - 1
  {
    Next(trace[i], trace[i + 1])
  }

  ghost predicate IsRun(trace: seq<World>) {
    && |trace| > 0 && Init(trace[0])
    && forall i :: 0 <= i < |trace| - 1 ==> StepAt(trace, i)
  }

  /** `m` claims for no kiosk more than it truly counted, and only known kiosks occur. */
  ghost predicate Within(m: Counts, truth: Counts, ids: set<string>) {
    && m.Keys <= ids
    && forall k :: Get(m, k) <= Min(Get(truth, k), U64_MAX)
  }

  ghost predicate Inv(w: World) {
    && (forall c {:trigger SentInv(w, c)} :: c in w.sent ==> SentInv(w, c))
    && (forall x {:trigger OwnExact(w, x)} :: x in w.replicas ==> OwnExact(w, x))
  }

  ghost predicate SentInv(w: World, c: Counter) {
    Within(c.pos, w.inc, w.replicas.Keys) && Within(c.neg, w.dec, w.replicas.Keys)
  }

  /** A replica's state is on the network, and its own entries are its true amounts, up to saturation. */
  ghost predicate OwnExact(w: World, x: string)
    requires x in w.replicas
  {
    w.replicas[x] in w.sent && Exact(w.replicas[x].pos, w.inc, x) && Exact(w.replicas[x].neg, w.dec, x)
  }

  predicate Exact(m: Counts, truth: Counts, x: string) {
    Get(m, x) == Min(Get(truth, x), U64_MAX)
  }

  lemma JoinWithin(a: Counts, b: Counts, truth: Counts, ids: set<string>)
    requires Within(a, truth, ids) && Within(b, truth, ids)
    ensures Within(JoinCounts(a, b), truth, ids)
  {
    forall k ensures Get(JoinCounts(a, b), k) <= Min(Get(truth, k), U64_MAX) {
      GetJoin(a, b, k);
    }
  }

  lemma BumpWithin(a: Counts, truth: Counts, ids: set<string>, k: string, n: nat)
    requires Within(a, truth, ids) && k in ids
    ensures Within(Bumped(a, k, n), truth[k := Get(truth, k) + n], ids)
  {
    var b, truth' := Bumped(a, k, n), truth[k := Get(truth, k) + n];
    forall x ensures Get(b, x) <= Min(Get(truth', x), U64_MAX) {
      assert Get(a, x) <= Min(Get(truth, x), U64_MAX);
    }
  }

  lemma NewCounterTrue(c: Counter, s: Step, inc: Counts, dec: Counts, ids: set<string>)
    requires s.id in ids && Within(c.pos, inc, ids) && Within(c.neg, dec, ids)
    requires Exact(c.pos, inc, s.id) && Exact(c.neg, dec, s.id)
    requires s.MergeStep? ==> Within(s.from.pos, inc, ids) && Within(s.from.neg, dec, ids)
    ensures var c' := NewCounter(c, s);
            && Within(c'.pos, NewInc(inc, s), ids) && Within(c'.neg, NewDec(dec, s), ids)
            && Exact(c'.pos, NewInc(inc, s), s.id) && Exact(c'.neg, NewDec(dec, s), s.id)
  {
    match s
    case IncStep(id, n) => BumpWithin(c.pos, inc, ids, id, n);
    case DecStep(id, n) => BumpWithin(c.neg, dec, ids, id, n);
    case MergeStep(id, from) =>
      JoinWithin(c.pos, from.pos, inc, ids);
      JoinWithin(c.neg, from.neg, dec, ids);
      GetJoin(c.pos, from.pos, id);
      GetJoin(c.neg, from.neg, id);
  }

  lemma WithinGrows(m: Counts, truth: Counts, truth': Counts, ids: set<string>)
    requires Within(m, truth, ids) && forall k :: Get(truth, k) <= Get(truth', k)
    ensures Within(m, truth', ids)
  {
  }

  lemma TruthGrows(inc: Counts, dec: Counts, s: Step, c: Counter, ids: set<string>)
    requires Within(c.pos, inc, ids) && Within(c.neg, dec, ids)
    ensures Within(c.pos, NewInc(inc, s), ids) && Within(c.neg, NewDec(dec, s), ids)
  {
    WithinGrows(c.pos, inc, NewInc(inc, s), ids);
    WithinGrows(c.neg, dec, NewDec(dec, s), ids);
  }

  lemma OthersExact(w: World, s: Step, x: string)
    requires Inv(w) && Possible(w, s) && x in w.replicas
    requires OwnExact(Apply(w, s), s.id)
    ensures OwnExact(Apply(w, s), x)
  {
    assert OwnExact(w, x);
  }

  lemma StepKeepsInv(w: World, s: Step)
    requires Inv(w) && Possible(w, s)
    ensures Inv(Apply(w, s))
  {
    var w' := Apply(w, s);
    var ids := w.replicas.Keys;
    assert OwnExact(w, s.id) && SentInv(w, w.replicas[s.id]);
    assert s.MergeStep? ==> SentInv(w, s.from);
    NewCounterTrue(w.replicas[s.id], s, w.inc, w.dec, ids);
    assert w'.replicas.Keys == ids;
    forall c | c in w'.sent ensures SentInv(w', c) {
      if c in w.sent {
        assert SentInv(w, c);
        TruthGrows(w.inc, w.dec, s, c, ids);
      }
    }
    forall x | x in ids ensures OwnExact(w', x) {
      OthersExact(w, s, x);
    }
  }

  lemma {:induction false} RunInv(trace: seq<World>, i: nat)
    requires IsRun(trace) && i < |trace|
    ensures Inv(trace[i])
  {
    if i > 0 {
      RunInv(trace, i - 1);
      assert StepAt(trace, i - 1);
      var s :| Possible(trace[i - 1], s) && trace[i] == Apply(trace[i - 1], s);
      StepKeepsInv(trace[i - 1], s);
    }
  }

  /** In every run, no replica overestimates any kiosk's increments or decrements. */
  lemma NoOverestimate(trace: seq<World>, i: nat, x: string, k: string)
    requires IsRun(trace) && i < |trace| && x in trace[i].replicas
    ensures Get(trace[i].replicas[x].pos, k) <= Get(trace[i].inc, k)
    ensures Get(trace[i].replicas[x].neg, k) <= Get(trace[i].dec, k)
  {
    RunInv(trace, i);
    assert OwnExact(trace[i], x) && SentInv(trace[i], trace[i].replicas[x]);
  }

  // ----- how knowledge spreads

  ghost predicate LeqCounts(a: Counts, b: Counts) {
    forall k :: Get(a, k) <= Get(b, k)
  }

  ghost predicate Leq(a: Counter, b: Counter) {
    LeqCounts(a.pos, b.pos) && LeqCounts(a.neg, b.neg)
  }

  /** At time `i` kiosk `x` merged the state that `y` had at time `m`. */
  ghost predicate Heard(trace: seq<World>, x: string, i: nat, y: string, m: nat)
    requires 0 < i < |trace| && m < |trace|
  {
    && y in trace[m].replicas && Possible(trace[i - 1], MergeStep(x, trace[m].replicas[y]))
    && trace[i] == Apply(trace[i - 1], MergeStep(x, trace[m].replicas[y]))
  }

  /** The state of `k` at time `j` has got to `x` by time `i`, directly or through any chain of other kiosks. */
  ghost predicate Reached(trace: seq<World>, k: string, j: nat, x: string, i: nat)
    requires i < |trace|
    decreases i
  {
    || (x == k && i == j)
    || (i > j && Reached(trace, k, j, x, i - 1))
    || (i > j && exists y, m: nat :: m < i && Heard(trace, x, i, y, m) && Reached(trace, k, j, y, m))
  }

  lemma JoinAbove(a: Counter, b: Counter)
    ensures Leq(a, Join(a, b)) && Leq(b, Join(a, b))
  {
    forall k
      ensures Get(a.pos, k) <= Get(JoinCounts(a.pos, b.pos), k) && Get(b.pos, k) <= Get(JoinCounts(a.pos, b.pos), k)
      ensures Get(a.neg, k) <= Get(JoinCounts(a.neg, b.neg), k) && Get(b.neg, k) <= Get(JoinCounts(a.neg, b.neg), k)
    {
      GetJoin(a.pos, b.pos, k);
      GetJoin(a.neg, b.neg, k);
    }
  }

  lemma LeqTransitive(a: Counter, b: Counter, c: Counter)
    requires Leq(a, b) && Leq(b, c)
    ensures Leq(a, c)
  {
    forall k ensures Get(a.pos, k) <= Get(c.pos, k) && Get(a.neg, k) <= Get(c.neg, k) {
      assert Get(a.pos, k) <= Get(b.pos, k) && Get(a.neg, k) <= Get(b.neg, k);
    }
  }

  lemma BumpAbove(m: Counts, truth: Counts, ids: set<string>, k: string, n: nat)
    requires Within(m, truth, ids)
    ensures LeqCounts(m, Bumped(m, k, n))
  {
    assert Get(m, k) <= Min(Get(truth, k), U64_MAX);
  }

  /** A step never takes anything from a replica. */
  lemma StepGrows(w: World, s: Step, x: string)
    requires Inv(w) && Possible(w, s) && x in w.replicas
    ensures x in Apply(w, s).replicas && Leq(w.replicas[x], Apply(w, s).replicas[x])
  {
    if x == s.id {
      var c := w.replicas[x];
      assert OwnExact(w, x) && SentInv(w, c);
      match s
      case IncStep(_, n) => BumpAbove(c.pos, w.inc, w.replicas.Keys, x, n);
      case DecStep(_, n) => BumpAbove(c.neg, w.dec, w.replicas.Keys, x, n);
      case MergeStep(_, from) => JoinAbove(c, from);
    }
  }

  lemma RunGrows(trace: seq<World>, i: nat, x: string)
    requires IsRun(trace) && 0 < i < |trace|
    ensures trace[i].replicas.Keys == trace[i - 1].replicas.Keys
    ensures x in trace[i].replicas ==> Leq(trace[i - 1].replicas[x], trace[i].replicas[x])
  {
    RunInv(trace, i - 1);
    assert StepAt(trace, i - 1);
    var s :| Possible(trace[i - 1], s) && trace[i] == Apply(trace[i - 1], s);
    if x in trace[i].replicas {
      StepGrows(trace[i - 1], s, x);
    }
  }

  /** Who was reached by a state knows at least what that state did. */
  lemma {:induction false} ReachedKnows(trace: seq<World>, k: string, j: nat, x: string, i: nat)
    requires IsRun(trace) && i < |trace| && Reached(trace, k, j, x, i)
    requires x in trace[i].replicas
    ensures j <= i && k in trace[j].replicas && Leq(trace[j].replicas[k], trace[i].replicas[x])
    decreases i
  {
    if x == k && i == j {
    } else if i > j && Reached(trace, k, j, x, i - 1) {
      RunGrows(trace, i, x);
      ReachedKnows(trace, k, j, x, i - 1);
      LeqTransitive(trace[j].replicas[k], trace[i - 1].replicas[x], trace[i].replicas[x]);
    } else {
      var y, m: nat :| m < i && Heard(trace, x, i, y, m) && Reached(trace, k, j, y, m);
      ReachedKnows(trace, k, j, y, m);
      JoinAbove(trace[i - 1].replicas[x], trace[m].replicas[y]);
      LeqTransitive(trace[j].replicas[k], trace[m].replicas[y], trace[i].replicas[x]);
    }
  }

  // ----- a replica knows exactly what has reached it

  ghost predicate WasState(trace: seq<World>, c: Counter, y: string, m: nat) {
    m < |trace| && y in trace[m].replicas && trace[m].replicas[y] == c
  }

  /** Whatever was sent is empty or was some replica's state. */
  lemma {:induction false} SentWasState(trace: seq<World>, i: nat, c: Counter)
    requires IsRun(trace) && i < |trace| && c in trace[i].sent
    ensures c == Counter(map[], map[]) || exists y, m: nat :: m <= i && WasState(trace, c, y, m)
  {
    if i > 0 {
      assert StepAt(trace, i - 1);
      var s :| Possible(trace[i - 1], s) && trace[i] == Apply(trace[i - 1], s);
      if c in trace[i - 1].sent {
        SentWasState(trace, i - 1, c);
      } else {
        assert WasState(trace, c, s.id, i);
      }
    }
  }

  predicate AtMost(c: Counter, most: Counter, k: string) {
    Get(c.pos, k) <= Get(most.pos, k) && Get(c.neg, k) <= Get(most.neg, k)
  }

  /** Every state of `k` that has reached `x` by time `i` holds at most `most` for `k`. */
  ghost predicate ReachedAtMost(trace: seq<World>, k: string, x: string, i: nat, most: Counter)
    requires i < |trace|
  {
    forall j: nat :: Reached(trace, k, j, x, i) ==>
      j < |trace| && k in trace[j].replicas && AtMost(trace[j].replicas[k], most, k)
  }

  lemma {:induction false} ReachedEarlier(trace: seq<World>, k: string, j: nat, x: string, i: nat)
    requires i < |trace| && Reached(trace, k, j, x, i)
    ensures j <= i
  {
  }

  lemma EarlierAtMost(trace: seq<World>, k: string, x: string, i: nat, most: Counter)
    requires 0 < i < |trace| && ReachedAtMost(trace, k, x, i, most)
    ensures ReachedAtMost(trace, k, x, i - 1, most)
  {
    forall j: nat | Reached(trace, k, j, x, i - 1)
      ensures j < |trace| && k in trace[j].replicas && AtMost(trace[j].replicas[k], most, k)
    {
      ReachedEarlier(trace, k, j, x, i - 1);
      assert Reached(trace, k, j, x, i);
    }
  }

  lemma HeardAtMost(trace: seq<World>, k: string, x: string, i: nat, y: string, m: nat, most: Counter)
    requires m < i < |trace| && Heard(trace, x, i, y, m) && ReachedAtMost(trace, k, x, i, most)
    ensures ReachedAtMost(trace, k, y, m, most)
  {
    forall j: nat | Reached(trace, k, j, y, m)
      ensures j < |trace| && k in trace[j].replicas && AtMost(trace[j].replicas[k], most, k)
    {
      ReachedEarlier(trace, k, j, y, m);
      assert Reached(trace, k, j, x, i);
    }
  }

  /** A replica knows no more of `k` than the states of `k` that have reached it. */
  lemma {:induction false} KnowsNoMore(trace: seq<World>, k: string, x: string, i: nat, most: Counter)
    requires IsRun(trace) && i < |trace| && x in trace[i].replicas && ReachedAtMost(trace, k, x, i, most)
    ensures AtMost(trace[i].replicas[x], most, k)
    decreases i
  {
    if x == k {
      assert Reached(trace, k, i, x, i);
    } else if i > 0 {
      RunGrows(trace, i, x);
      EarlierAtMost(trace, k, x, i, most);
      KnowsNoMore(trace, k, x, i - 1, most);
      assert StepAt(trace, i - 1);
      var s :| Possible(trace[i - 1], s) && trace[i] == Apply(trace[i - 1], s);
      if s.MergeStep? && s.id == x {
        MergeKnowsNoMore(trace, k, x, i, s.from, most);
      }
    }
  }

  lemma {:induction false} MergeKnowsNoMore(trace: seq<World>, k: string, x: string, i: nat, from: Counter, most: Counter)
    requires IsRun(trace) && 0 < i < |trace| && ReachedAtMost(trace, k, x, i, most)
    requires Possible(trace[i - 1], MergeStep(x, from)) && trace[i] == Apply(trace[i - 1], MergeStep(x, from))
    requires AtMost(trace[i - 1].replicas[x], most, k)
    ensures AtMost(trace[i].replicas[x], most, k)
    decreases i, 0
  {
    var c := trace[i - 1].replicas[x];
    SentWasState(trace, i - 1, from);
    if from != Counter(map[], map[]) {
      var y, m: nat :| m <= i - 1 && WasState(trace, from, y, m);
      assert Heard(trace, x, i, y, m);
      HeardAtMost(trace, k, x, i, y, m, most);
      KnowsNoMore(trace, k, y, m, most);
    }
    GetJoin(c.pos, from.pos, k);
    GetJoin(c.neg, from.neg, k);
  }

  /** A replica that no state of `k` has reached holds nothing for `k`. */
  lemma UnreachedIsZero(trace: seq<World>, k: string, x: string, i: nat)
    requires IsRun(trace) && i < |trace| && x in trace[i].replicas && forall j: nat :: !Reached(trace, k, j, x, i)
    ensures Get(trace[i].replicas[x].pos, k) == 0 && Get(trace[i].replicas[x].neg, k) == 0
  {
    KnowsNoMore(trace, k, x, i, Counter(map[], map[]));
  }

  /** The state of `k` at time `j` is the latest that has reached `x` by time `i`. */
  ghost predicate Latest(trace: seq<World>, k: string, j: nat, x: string, i: nat)
    requires i < |trace|
  {
    Reached(trace, k, j, x, i) && forall l: nat :: Reached(trace, k, l, x, i) ==> l <= j
  }

  lemma LatestIsMost(trace: seq<World>, k: string, j: nat, x: string, i: nat)
    requires IsRun(trace) && j <= i < |trace| && k in trace[j].replicas && x in trace[i].replicas && Latest(trace, k, j, x, i)
    ensures ReachedAtMost(trace, k, x, i, trace[j].replicas[k])
  {
    forall l: nat | Reached(trace, k, l, x, i)
      ensures l < |trace| && k in trace[l].replicas && AtMost(trace[l].replicas[k], trace[j].replicas[k], k)
    {
      ReachedKnows(trace, k, l, x, i);
      Grown(trace, l, j, k);
    }
  }

  /** Else it holds exactly what `k` itself held at the latest moment that has reached it. */
  lemma EntryIsLatest(trace: seq<World>, k: string, j: nat, x: string, i: nat)
    requires IsRun(trace) && i < |trace| && x in trace[i].replicas && Latest(trace, k, j, x, i)
    ensures j <= i && k in trace[j].replicas
    ensures Get(trace[i].replicas[x].pos, k) == Get(trace[j].replicas[k].pos, k)
    ensures Get(trace[i].replicas[x].neg, k) == Get(trace[j].replicas[k].neg, k)
  {
    ReachedKnows(trace, k, j, x, i);
    LatestIsMost(trace, k, j, x, i);
    KnowsNoMore(trace, k, x, i, trace[j].replicas[k]);
  }

  lemma {:induction false} Grown(trace: seq<World>, i: nat, j: nat, x: string)
    requires IsRun(trace) && i <= j < |trace| && x in trace[i].replicas
    ensures x in trace[j].replicas && Leq(trace[i].replicas[x], trace[j].replicas[x])
    decreases j
  {
    if i < j {
      Grown(trace, i, j - 1, x);
      RunGrows(trace, j, x);
      LeqTransitive(trace[i].replicas[x], trace[j - 1].replicas[x], trace[j].replicas[x]);
    }
  }

  lemma ReachedByAtMost(trace: seq<World>, k: string, x: string, i: nat, y: string, m: nat)
    requires IsRun(trace) && i < |trace| && m < |trace| && x in trace[i].replicas && y in trace[m].replicas
    requires forall j: nat :: Reached(trace, k, j, x, i) ==> Reached(trace, k, j, y, m)
    ensures AtMost(trace[i].replicas[x], trace[m].replicas[y], k)
  {
    forall j: nat | Reached(trace, k, j, x, i)
      ensures j < |trace| && k in trace[j].replicas && AtMost(trace[j].replicas[k], trace[m].replicas[y], k)
    {
      ReachedKnows(trace, k, j, y, m);
    }
    KnowsNoMore(trace, k, x, i, trace[m].replicas[y]);
  }

  /** Replicas reached by the same states of `k`, at whatever times, hold the same for `k`. */
  lemma Convergence(trace: seq<World>, k: string, x: string, i: nat, y: string, m: nat)
    requires IsRun(trace) && i < |trace| && m < |trace| && x in trace[i].replicas && y in trace[m].replicas
    requires forall j: nat :: Reached(trace, k, j, x, i) <==> Reached(trace, k, j, y, m)
    ensures Get(trace[i].replicas[x].pos, k) == Get(trace[m].replicas[y].pos, k)
    ensures Get(trace[i].replicas[x].neg, k) == Get(trace[m].replicas[y].neg, k)
  {
    ReachedByAtMost(trace, k, x, i, y, m);
    ReachedByAtMost(trace, k, y, m, x, i);
  }

  /** By time `i` kiosk `x` was reached by a state of `k` from after the last change `k` made. */
  ghost predicate UpToDate(trace: seq<World>, k: string, x: string, i: nat)
    requires i < |trace|
  {
    exists j: nat :: j <= i && Reached(trace, k, j, x, i)
      && Get(trace[j].inc, k) == Get(trace[i].inc, k) && Get(trace[j].dec, k) == Get(trace[i].dec, k)
  }

  lemma UpToDateExact(trace: seq<World>, k: string, x: string, i: nat)
    requires IsRun(trace) && i < |trace| && x in trace[i].replicas && UpToDate(trace, k, x, i)
    ensures var w, c := trace[i], trace[i].replicas[x];
            Exact(c.pos, w.inc, k) && Exact(c.neg, w.dec, k)
  {
    var j: nat :| j <= i && Reached(trace, k, j, x, i)
      && Get(trace[j].inc, k) == Get(trace[i].inc, k) && Get(trace[j].dec, k) == Get(trace[i].dec, k);
    ReachedKnows(trace, k, j, x, i);
    RunInv(trace, j);
    RunInv(trace, i);
    assert OwnExact(trace[j], k);
    assert OwnExact(trace[i], x) && SentInv(trace[i], trace[i].replicas[x]);
    assert Get(trace[j].replicas[k].pos, k) <= Get(trace[i].replicas[x].pos, k);
    assert Get(trace[j].replicas[k].neg, k) <= Get(trace[i].replicas[x].neg, k);
  }

  lemma ExactTotal(m: Counts, truth: Counts, ids: set<string>)
    requires m.Keys <= ids && Total(truth, ids) <= U64_MAX
    requires forall k :: k in ids ==> Exact(m, truth, k)
    ensures Total(m, m.Keys) == Total(truth, ids)
  {
    forall k | k in ids ensures Get(m, k) == Get(truth, k) {
      assert Exact(m, truth, k);
      TermAtMostTotal(truth, ids, k);
    }
    TotalSame(m, truth, m.Keys, ids);
  }

  lemma ReadingExact(c: Counter, p: nat, n: nat)
    requires Total(c.pos, c.pos.Keys) == p <= U64_MAX && Total(c.neg, c.neg.Keys) == n <= U64_MAX
    ensures Reading(c) == Max(0, p - n)
  {
  }

  lemma ReadAll(m: Counter, inc: Counts, dec: Counts, ids: set<string>)
    requires m.pos.Keys <= ids && m.neg.Keys <= ids
    requires forall k :: k in ids ==> Exact(m.pos, inc, k) && Exact(m.neg, dec, k)
    requires Total(inc, ids) <= U64_MAX && Total(dec, ids) <= U64_MAX
    ensures Reading(m) == Max(0, Total(inc, ids) - Total(dec, ids))
  {
    ExactTotal(m.pos, inc, ids);
    ExactTotal(m.neg, dec, ids);
    ReadingExact(m, Total(inc, ids), Total(dec, ids));
  }

  /**
   Conservation: a replica that every kiosk's last change has reached, at whatever
   times and by whatever ways, reads exactly all increments minus all decrements
   (never below zero), provided neither true sum exceeds a `u64`.
   */
  lemma Conservation(trace: seq<World>, i: nat, x: string)
    requires IsRun(trace) && i < |trace| && x in trace[i].replicas
    requires forall k :: k in trace[i].replicas ==> UpToDate(trace, k, x, i)
    requires Total(trace[i].inc, trace[i].replicas.Keys) <= U64_MAX
    requires Total(trace[i].dec, trace[i].replicas.Keys) <= U64_MAX
    ensures Reading(trace[i].replicas[x])
            == Max(0, Total(trace[i].inc, trace[i].replicas.Keys) - Total(trace[i].dec, trace[i].replicas.Keys))
  {
    var w := trace[i];
    var ids, c := w.replicas.Keys, w.replicas[x];
    assert c.pos.Keys <= ids && c.neg.Keys <= ids by {
      RunInv(trace, i);
      assert OwnExact(w, x) && SentInv(w, c);
    }
    forall k | k in ids ensures Exact(c.pos, w.inc, k) && Exact(c.neg, w.dec, k) {
      UpToDateExact(trace, k, x, i);
    }
    ReadAll(c, w.inc, w.dec, ids);
  }
}
