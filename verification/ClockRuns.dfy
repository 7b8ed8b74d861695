/**
 Runs of any number of kiosks that keep hybrid logical clocks, some in Rust and
 some in TypeScript, with arbitrary (even backward) physical clock readings and a
 network that may lose, repeat and reorder messages.
 */
module ClockRuns {
  import opened Common
  import opened Hlc

  datatype Impl = Rust | TypeScript

  /** Which implementation each kiosk runs. */
  type Fleet = map<string, Impl>

  /** One stamped event; a receive remembers which earlier event it received. */
  datatype Event = Event(node: string, stamp: Stamp, from: Option<nat>)

  /** `maxReading` is the largest physical reading so far, `rustTicks` the number of local events on Rust kiosks. */
  datatype World = World(clocks: map<string, Stamp>, log: seq<Event>, maxReading: nat, rustTicks: nat)

  datatype Step =
    | Local(node: string, pt: nat)
    | Receive(node: string, from: nat, pt: nat)

  function NewStamp(fleet: Fleet, w: World, s: Step): Stamp
    requires Possible(fleet, w, s)
  {
    var c := w.clocks[s.node];
    match (s, fleet[s.node])
    case (Local(_, pt), Rust) => Ticked(c, pt)
    case (Local(_, pt), TypeScript) => IncrementHlc(c, None, pt)
    case (Receive(_, i, pt), Rust) => Received(c, w.log[i].stamp, pt)
    case (Receive(_, i, _), TypeScript) => MergeHlc(c, w.log[i].stamp)
  }

  /** The stamp is one the implementation can represent. */
  predicate FitsImpl(impl: Impl, s: Stamp) {
    if impl.Rust? then Fits(s) else FitsJs(s)
  }

  /** A kiosk reads clocks and parses stamps that its implementation can represent. */
  predicate Possible(fleet: Fleet, w: World, s: Step) {
    && s.node in w.clocks && s.node in fleet
    && s.pt <= (if fleet[s.node].Rust? then U64_MAX else JS_MAX)
    && (s.Receive? ==> s.from < |w.log| && FitsImpl(fleet[s.node], w.log[s.from].stamp))
  }

  /** The counter (or, for a tick of a Rust clock, the whole stamp) is full. */
  predicate Saturates(fleet: Fleet, w: World, s: Step)
    requires Possible(fleet, w, s)
  {
    match (s, fleet[s.node])
    case (Local(n, pt), Rust) => TickSaturates(w.clocks[n], pt)
    case (Local(n, pt), TypeScript) => IncrementSaturates(w.clocks[n], pt)
    case (Receive(n, i, pt), Rust) => ReceiveSaturates(w.clocks[n], w.log[i].stamp, pt)
    case (Receive(n, i, _), TypeScript) => MergeSaturates(w.clocks[n], w.log[i].stamp)
  }

  function Apply(fleet: Fleet, w: World, s: Step): World
    requires Possible(fleet, w, s)
  {
    var stamp := NewStamp(fleet, w, s);
    var from := if s.Receive? then Some(s.from) else None;
    // mergeHlc is the one move that reads no clock.
    var sampled := s.Local? || fleet[s.node].Rust?;
    World(w.clocks[s.node := stamp],
          w.log + [Event(s.node, stamp, from)],
          if sampled then Max(w.maxReading, s.pt) else w.maxReading,
          if s.Local? && fleet[s.node].Rust? then w.rustTicks + 1 else w.rustTicks)
  }

  ghost predicate Init(fleet: Fleet, w: World) {
    && w.clocks.Keys == fleet.Keys && w.log == [] && w.rustTicks == 0 && w.maxReading <= U64_MAX
    && forall n :: n in w.clocks ==>
         && w.clocks[n].node == n && w.clocks[n].counter == 0
         && w.clocks[n].wall <= w.maxReading && FitsImpl(fleet[n], w.clocks[n])
  }

  /** With `strict`, no step of the run saturates. */
  ghost predicate Next(fleet: Fleet, strict: bool, w: World, w': World) {
    exists s :: Possible(fleet, w, s) && (strict ==> !Saturates(fleet, w, s)) && w' == Apply(fleet, w, s)
  }

  ghost predicate StepAt(fleet: Fleet, strict: bool, trace: seq<World>, i: int)
    requires 0 <= i < |trace| - 1
  {
    Next(fleet, strict, trace[i], trace[i + 1])
  }

  ghost predicate IsRun(fleet: Fleet, strict: bool, trace: seq<World>) {
    && |trace| > 0 && Init(fleet, trace[0])
    && forall i :: 0 <= i < |trace| - 1 ==> StepAt(fleet, strict, trace, i)
  }

  // ----- happens-before

  /** `j` directly follows `i`: later on the same kiosk, or the receipt of `i`'s stamp. */
  predicate Follows(log: seq<Event>, i: nat, j: nat) {
    i < j < |log| && (log[i].node == log[j].node || log[j].from == Some(i))
  }

  ghost predicate HappensBefore(log: seq<Event>, i: nat, j: nat)
    decreases j
  {
    || Follows(log, i, j)
    || exists k: nat :: k < j && HappensBefore(log, i, k) && Follows(log, k, j)
  }

  // ----- invariants

  ghost predicate ShapeInv(fleet: Fleet, w: World) {
    && w.clocks.Keys == fleet.Keys
    && (forall n :: n in w.clocks ==> w.clocks[n].node == n && FitsImpl(fleet[n], w.clocks[n]))
    && (forall i :: 0 <= i < |w.log| ==>
         && w.log[i].node in w.clocks && w.log[i].stamp.node == w.log[i].node
         && FitsImpl(fleet[w.log[i].node], w.log[i].stamp)
         && (w.log[i].from.Some? ==> w.log[i].from.value < i))
  }

  /** Every stamp is at or below its kiosk's clock, and below every stamp that follows it. */
  ghost predicate CausalInv(w: World) {
    && (forall i :: 0 <= i < |w.log| ==>
         w.log[i].node in w.clocks
         && (w.clocks[w.log[i].node] == w.log[i].stamp || Dominates(w.clocks[w.log[i].node], w.log[i].stamp)))
    && (forall i: nat, j: nat :: Follows(w.log, i, j) ==> Dominates(w.log[j].stamp, w.log[i].stamp))
  }

  ghost predicate DriftInv(fleet: Fleet, w: World) {
    var bound := w.maxReading + w.rustTicks;
    && (forall n :: n in w.clocks ==> w.clocks[n].wall <= bound)
    && (forall i :: 0 <= i < |w.log| ==> w.log[i].stamp.wall <= bound)
    && ((forall n :: n in fleet ==> fleet[n].TypeScript?) ==> w.rustTicks == 0)
  }

  lemma NewStampDominates(fleet: Fleet, w: World, s: Step)
    requires ShapeInv(fleet, w) && Possible(fleet, w, s) && !Saturates(fleet, w, s)
    ensures Dominates(NewStamp(fleet, w, s), w.clocks[s.node])
    ensures s.Receive? ==> Dominates(NewStamp(fleet, w, s), w.log[s.from].stamp)
  {
  }

  lemma StepKeepsShape(fleet: Fleet, w: World, s: Step)
    requires ShapeInv(fleet, w) && Possible(fleet, w, s)
    ensures ShapeInv(fleet, Apply(fleet, w, s))
  {
  }

  lemma StepKeepsCausal(fleet: Fleet, w: World, s: Step)
    requires ShapeInv(fleet, w) && CausalInv(w) && Possible(fleet, w, s) && !Saturates(fleet, w, s)
    ensures CausalInv(Apply(fleet, w, s))
  {
    var w' := Apply(fleet, w, s);
    NewStampDominates(fleet, w, s);
    forall i: nat, j: nat | Follows(w'.log, i, j) ensures Dominates(w'.log[j].stamp, w'.log[i].stamp) {
      if j < |w.log| {
        assert Follows(w.log, i, j);
      } else if w'.log[i].node == s.node {
        DominatesOrder(NewStamp(fleet, w, s), w.clocks[s.node], w.log[i].stamp);
      }
    }
    forall i | 0 <= i < |w'.log|
      ensures w'.log[i].node in w'.clocks
      ensures w'.clocks[w'.log[i].node] == w'.log[i].stamp || Dominates(w'.clocks[w'.log[i].node], w'.log[i].stamp)
    {
      if i < |w.log| && w.log[i].node == s.node {
        DominatesOrder(NewStamp(fleet, w, s), w.clocks[s.node], w.log[i].stamp);
      }
    }
  }

  lemma StepKeepsDrift(fleet: Fleet, w: World, s: Step)
    requires DriftInv(fleet, w) && Possible(fleet, w, s)
    ensures DriftInv(fleet, Apply(fleet, w, s))
  {
  }

  lemma {:induction false} RunInv(fleet: Fleet, strict: bool, trace: seq<World>, i: nat)
    requires IsRun(fleet, strict, trace) && i < |trace|
    ensures ShapeInv(fleet, trace[i]) && DriftInv(fleet, trace[i])
    ensures strict ==> CausalInv(trace[i])
  {
    if i > 0 {
      RunInv(fleet, strict, trace, i - 1);
      var w := trace[i - 1];
      assert StepAt(fleet, strict, trace, i - 1);
      var s :| Possible(fleet, w, s) && (strict ==> !Saturates(fleet, w, s)) && trace[i] == Apply(fleet, w, s);
      StepKeepsShape(fleet, w, s);
      StepKeepsDrift(fleet, w, s);
      if strict {
        StepKeepsCausal(fleet, w, s);
      }
    }
  }

  // ----- theorems

  lemma {:induction false} CausalOrder(w: World, i: nat, j: nat)
    requires CausalInv(w) && HappensBefore(w.log, i, j)
    ensures i < j < |w.log| && Dominates(w.log[j].stamp, w.log[i].stamp)
    decreases j
  {
    if !Follows(w.log, i, j) {
      var k: nat :| k < j && HappensBefore(w.log, i, k) && Follows(w.log, k, j);
      CausalOrder(w, i, k);
      DominatesOrder(w.log[j].stamp, w.log[k].stamp, w.log[i].stamp);
    }
  }

  /** Clock condition: whatever happened before carries a stamp the later one dominates. */
  lemma ClockCondition(fleet: Fleet, trace: seq<World>, n: nat, i: nat, j: nat)
    requires IsRun(fleet, true, trace) && n < |trace|
    requires HappensBefore(trace[n].log, i, j)
    ensures i < j < |trace[n].log|
    ensures Dominates(trace[n].log[j].stamp, trace[n].log[i].stamp)
  {
    RunInv(fleet, true, trace, n);
    CausalOrder(trace[n], i, j);
  }

  /** No two events of a run share a stamp, so the total order never ties them. */
  lemma StampsUnique(fleet: Fleet, trace: seq<World>, n: nat, i: nat, j: nat)
    requires IsRun(fleet, true, trace) && n < |trace| && i < j < |trace[n].log|
    ensures CompareTotal(trace[n].log[i].stamp, trace[n].log[j].stamp) != Equal
  {
    RunInv(fleet, true, trace, n);
    var log := trace[n].log;
    if log[i].node == log[j].node {
      assert Follows(log, i, j);
    }
    CompareTotalOrder(log[i].stamp, log[j].stamp, log[j].stamp);
    DominatesOrder(log[j].stamp, log[i].stamp, log[j].stamp);
  }

  /**
   How far stamps run ahead of physical time, also those of TypeScript kiosks that
   heard from Rust ones: at most one millisecond per tick of a Rust kiosk. In a
   fleet without Rust they never do.
   */
  lemma DriftBound(fleet: Fleet, strict: bool, trace: seq<World>, n: nat, i: nat)
    requires IsRun(fleet, strict, trace) && n < |trace| && i < |trace[n].log|
    ensures trace[n].log[i].stamp.wall <= trace[n].maxReading + trace[n].rustTicks
    ensures (forall x :: x in fleet ==> fleet[x].TypeScript?) ==> trace[n].log[i].stamp.wall <= trace[n].maxReading
  {
    RunInv(fleet, strict, trace, n);
  }

  /** The Rust bound is reached: `k` ticks against a stopped clock put the stamp `k` ahead of it. */
  lemma {:induction false} DriftReached(node: string, reading: nat, k: nat) returns (trace: seq<World>)
    requires reading + k <= U64_MAX
    ensures IsRun(map[node := Rust], false, trace) && |trace| == k + 1
    ensures var w := trace[k];
            && w.maxReading == reading && w.rustTicks == k
            && node in w.clocks && w.clocks[node].wall == reading + k
  {
    var fleet: Fleet := map[node := Rust];
    if k == 0 {
      return [World(map[node := Stamp(reading, 0, node)], [], reading, 0)];
    }
    var prev := DriftReached(node, reading, k - 1);
    var w := prev[k - 1];
    var s := Local(node, reading);
    assert Possible(fleet, w, s);
    trace := prev + [Apply(fleet, w, s)];
    forall i | 0 <= i < |trace| - 1 ensures StepAt(fleet, false, trace, i) {
      if i < k - 1 {
        assert StepAt(fleet, false, prev, i);
      }
    }
  }

  /** Ties do happen: two kiosks that tick against the same reading leave stamps `dominates` cannot order. */
  lemma TiesHappen(a: string, b: string, reading: nat) returns (trace: seq<World>)
    requires a != b && 0 < reading <= U64_MAX
    ensures IsRun(map[a := Rust, b := Rust], true, trace)
    ensures var log := trace[|trace| - 1].log;
            |log| == 2 && log[0].node == a && log[1].node == b && Tie(log[0].stamp, log[1].stamp)
  {
    var fleet: Fleet := map[a := Rust, b := Rust];
    var w0 := World(map[a := Stamp(0, 0, a), b := Stamp(0, 0, b)], [], 0, 0);
    assert Possible(fleet, w0, Local(a, reading)) && !Saturates(fleet, w0, Local(a, reading));
    var w1 := Apply(fleet, w0, Local(a, reading));
    assert Possible(fleet, w1, Local(b, reading)) && !Saturates(fleet, w1, Local(b, reading));
    trace := [w0, w1, Apply(fleet, w1, Local(b, reading))];
  }
}
