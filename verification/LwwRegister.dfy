/**
 The last-writer-wins register and the Lamport clock of the sync engine, and
 what the two guarantee together: each local write is stamped by `tick`, each
 received register is first passed to `update`.
 */
module LwwRegister {
  import opened Common

  datatype Register = Register(value: string, ts: nat, origin: string, wall: nat)

  /** `is_dominated`: the write `new` beats the write `old`. */
  predicate Beats(new': Register, old': Register) {
    new'.ts > old'.ts || (new'.ts == old'.ts && StrLess(old'.origin, new'.origin))
  }

  function Keep(mine: Register, other: Register): Register {
    if Beats(other, mine) then other else mine
  }

  /** `Beats` is a strict order that decides every pair of writes with different (ts, origin). */
  lemma BeatsOrder(a: Register, b: Register, c: Register)
    ensures Beats(a, b) ==> !Beats(b, a)
    ensures Beats(a, b) && Beats(b, c) ==> Beats(a, c)
    ensures (a.ts, a.origin) != (b.ts, b.origin) <==> Beats(a, b) || Beats(b, a)
  {
    StrLessTotal(a.origin, b.origin);
    if StrLess(a.origin, b.origin) { StrLessAsymmetric(a.origin, b.origin); }
    if StrLess(b.origin, a.origin) { StrLessAsymmetric(b.origin, a.origin); }
    StrLessIrreflexive(a.origin);
    if StrLess(c.origin, b.origin) && StrLess(b.origin, a.origin) {
      StrLessTransitive(c.origin, b.origin, a.origin);
    }
  }

  /** The later timestamp wins; of equal timestamps the greater origin; an equal pair changes nothing. */
  lemma KeepMeans(mine: Register, other: Register)
    ensures other.ts > mine.ts ==> Keep(mine, other) == other
    ensures other.ts < mine.ts ==> Keep(mine, other) == mine
    ensures other.ts == mine.ts && StrLess(mine.origin, other.origin) ==> Keep(mine, other) == other
    ensures other.ts == mine.ts && !StrLess(mine.origin, other.origin) ==> Keep(mine, other) == mine
  {
  }

  class LWWRegister {
    var value: string
    var ts: nat
    var origin: string
    var wall: nat

    ghost function Abs(): Register
      reads this
    {
      Register(value, ts, origin, wall)
    }

    constructor (value: string, origin: string, ts: nat, wall: nat)
      ensures Abs() == Register(value, ts, origin, wall)
    {
      this.value, this.ts, this.origin, this.wall := value, ts, origin, wall;
    }

    method Write(value: string, origin: string, ts: nat, wall: nat) returns (accepted: bool)
      modifies this
      ensures accepted == Beats(Register(value, ts, origin, wall), old(Abs()))
      ensures Abs() == Keep(old(Abs()), Register(value, ts, origin, wall))
      ensures accepted <==> ts > old(this.ts) || (ts == old(this.ts) && StrLess(old(this.origin), origin))
      ensures Abs() == if accepted then Register(value, ts, origin, wall) else old(Abs())
    {
      accepted := ts > this.ts || (ts == this.ts && StrLess(this.origin, origin));
      if accepted {
        this.value, this.ts, this.origin, this.wall := value, ts, origin, wall;
      }
    }

    method Merge(other: LWWRegister)
      modifies this
      ensures Abs() == Keep(old(Abs()), old(other.Abs()))
      ensures Abs() == if old(other.ts > ts || (other.ts == ts && StrLess(origin, other.origin))) then old(other.Abs()) else old(Abs())
    {
      if other.ts > ts || (other.ts == ts && StrLess(origin, other.origin)) {
        value, ts, origin, wall := other.value, other.ts, other.origin, other.wall;
      }
      StrLessIrreflexive(origin);
    }
  }

  class LamportClock {
    var counter: nat

    constructor ()
      ensures counter == 0
    {
      counter := 0;
    }

    method Tick() returns (now: nat)
      modifies this
      ensures now == counter == WrappingSucc64(old(counter))
      ensures old(counter) < U64_MAX ==> now == old(counter) + 1
      ensures old(counter) == U64_MAX ==> now == 0
    {
      counter := WrappingSucc64(counter);
      now := counter;
    }

    method Update(remote: nat) returns (now: nat)
      modifies this
      ensures now == counter == WrappingSucc64(Max(old(counter), remote))
      ensures old(counter) < U64_MAX && remote < U64_MAX ==>
                now > old(counter) && now > remote && (now == old(counter) + 1 || now == remote + 1)
      ensures old(counter) == U64_MAX >= remote ==> now == 0
    {
      counter := WrappingSucc64(Max(counter, remote));
      now := counter;
    }
  }

  // ----- runs

  /** A copy of a register together with the writes it has absorbed. */
  datatype Copy = Copy(reg: Register, history: set<Register>)

  datatype Replica = Replica(clock: nat, copy: Option<Copy>)

  /** `sent` only grows: any past copy may reach anyone repeatedly; `writes` are all writes ever made. */
  datatype World = World(replicas: map<string, Replica>, sent: set<Copy>, writes: set<Register>)

  datatype Step =
    | WriteStep(id: string, value: string, wall: nat)
    | ReceiveStep(id: string, from: Copy)

  /** No clock overflows: the hypothesis under which `counter + 1` does not wrap. */
  predicate Possible(w: World, s: Step) {
    && s.id in w.replicas && w.replicas[s.id].clock < U64_MAX
    && (s.ReceiveStep? ==> s.from in w.sent && s.from.reg.ts < U64_MAX)
  }

  function NewWrite(r: Replica, s: Step): Register
    requires s.WriteStep?
  {
    Register(s.value, WrappingSucc64(r.clock), s.id, s.wall)
  }

  function Absorb(mine: Option<Copy>, reg: Register, history: set<Register>): Copy {
    if mine.None? then Copy(reg, history)
    else Copy(Keep(mine.value.reg, reg), mine.value.history + history)
  }

  function Update(r: Replica, s: Step): Replica {
    match s
    case WriteStep(_, _, _) =>
      var n := NewWrite(r, s);
      Replica(n.ts, Some(Absorb(r.copy, n, {n})))
    case ReceiveStep(_, from) =>
      Replica(WrappingSucc64(Max(r.clock, from.reg.ts)), Some(Absorb(r.copy, from.reg, from.history)))
  }

  function Apply(w: World, s: Step): World
    requires Possible(w, s)
  {
    var r := Update(w.replicas[s.id], s);
    World(w.replicas[s.id := r], w.sent + {r.copy.value},
          if s.WriteStep? then w.writes + {NewWrite(w.replicas[s.id], s)} else w.writes)
  }

  ghost predicate Init(w: World) {
    && (forall x :: x in w.replicas ==> w.replicas[x] == Replica(0, None))
    && w.sent == {} && w.writes == {}
  }

  ghost predicate Next(w: World, w': World) {
    exists s :: Possible(w, s) && w' == Apply(w, s)
  }

  ghost predicate StepAt(trace: seq<World>, i: int)
    requires 0 <= i < |trace| - 1
  {
    Next(trace[i], trace[i + 1])
  }

  ghost predicate IsRun(trace: seq<World>) {
    && |trace| > 0 && Init(trace[0])
    && forall i :: 0 <= i < |trace| - 1 ==> StepAt(trace, i)
  }

  // ----- invariants

  /** The copy holds the greatest of the writes it has absorbed. */
  ghost predicate Greatest(c: Copy) {
    && c.reg in c.history
    && forall h :: h in c.history ==> h == c.reg || Beats(c.reg, h)
  }

  /** Writes are numbered by their kiosk's clock, and no (ts, origin) is used twice. */
  ghost predicate WritesInv(w: World) {
    && (forall h :: h in w.writes ==> h.origin in w.replicas && h.ts <= w.replicas[h.origin].clock)
    && Distinct(w.writes)
  }

  ghost predicate Distinct(writes: set<Register>) {
    forall g, h :: g in writes && h in writes && g.ts == h.ts && g.origin == h.origin ==> g == h
  }

  ghost predicate GoodCopy(c: Copy, writes: set<Register>) {
    Greatest(c) && c.history <= writes
  }

  ghost predicate CopiesInv(w: World) {
    && (forall c :: c in w.sent ==> GoodCopy(c, w.writes))
    && (forall x {:trigger ReplicaInv(w, x)} :: x in w.replicas ==> ReplicaInv(w, x))
  }

  ghost predicate ReplicaInv(w: World, x: string)
    requires x in w.replicas
  {
    var r := w.replicas[x];
    r.copy.Some? ==> r.copy.value in w.sent && r.copy.value.reg.ts <= r.clock
  }

  lemma AbsorbGreatest(mine: Option<Copy>, reg: Register, history: set<Register>, writes: set<Register>)
    requires GoodCopy(Copy(reg, history), writes) && Distinct(writes)
    requires mine.Some? ==> GoodCopy(mine.value, writes)
    ensures GoodCopy(Absorb(mine, reg, history), writes)
  {
    var c := Absorb(mine, reg, history);
    forall h | h in c.history ensures h == c.reg || Beats(c.reg, h) {
      if mine.Some? {
        BeatsOrder(reg, mine.value.reg, h);
        BeatsOrder(mine.value.reg, reg, h);
      }
    }
  }

  lemma StepKeepsWrites(w: World, s: Step)
    requires WritesInv(w) && Possible(w, s)
    ensures WritesInv(Apply(w, s))
  {
    var w', r := Apply(w, s), w.replicas[s.id];
    assert r.clock < w'.replicas[s.id].clock;
    if s.WriteStep? {
      var n := NewWrite(r, s);
      assert forall h :: h in w.writes && h.origin == s.id ==> h.ts < n.ts;
    }
  }

  /** The copy a step leaves behind is again the greatest of its history, and not ahead of the clock. */
  lemma StepCopy(r: Replica, s: Step, writes: set<Register>)
    requires Distinct(writes) && r.clock < U64_MAX
    requires r.copy.Some? ==> GoodCopy(r.copy.value, writes) && r.copy.value.reg.ts <= r.clock
    requires s.WriteStep? ==> NewWrite(r, s) in writes
    requires s.ReceiveStep? ==> GoodCopy(s.from, writes) && s.from.reg.ts < U64_MAX
    ensures var r' := Update(r, s);
            r'.copy.Some? && r'.copy.value.reg.ts <= r'.clock && GoodCopy(r'.copy.value, writes)
  {
    match s
    case WriteStep(_, _, _) =>
      var n := NewWrite(r, s);
      AbsorbGreatest(r.copy, n, {n}, writes);
    case ReceiveStep(_, from) =>
      AbsorbGreatest(r.copy, from.reg, from.history, writes);
  }

  lemma GoodCopyGrows(c: Copy, writes: set<Register>, writes': set<Register>)
    requires GoodCopy(c, writes) && writes <= writes'
    ensures GoodCopy(c, writes')
  {
  }

  /** Copies stay good when a replica is replaced by one with a good copy. */
  lemma CopiesKept(w: World, w': World, id: string, r': Replica)
    requires CopiesInv(w) && id in w.replicas && w.writes <= w'.writes
    requires r'.copy.Some? && r'.copy.value.reg.ts <= r'.clock && GoodCopy(r'.copy.value, w'.writes)
    requires w'.replicas == w.replicas[id := r'] && w'.sent == w.sent + {r'.copy.value}
    ensures CopiesInv(w')
  {
    forall c | c in w.sent ensures GoodCopy(c, w'.writes) {
      GoodCopyGrows(c, w.writes, w'.writes);
    }
    forall x | x in w'.replicas ensures ReplicaInv(w', x) {
      assert ReplicaInv(w, x);
    }
  }

  lemma StepKeepsInv(w: World, s: Step)
    requires WritesInv(w) && CopiesInv(w) && Possible(w, s)
    ensures WritesInv(Apply(w, s)) && CopiesInv(Apply(w, s))
  {
    var w', r := Apply(w, s), w.replicas[s.id];
    StepKeepsWrites(w, s);
    assert ReplicaInv(w, s.id);
    if r.copy.Some? {
      GoodCopyGrows(r.copy.value, w.writes, w'.writes);
    }
    if s.ReceiveStep? {
      GoodCopyGrows(s.from, w.writes, w'.writes);
    }
    StepCopy(r, s, w'.writes);
    CopiesKept(w, w', s.id, Update(r, s));
  }

  lemma {:induction false} RunInv(trace: seq<World>, i: nat)
    requires IsRun(trace) && i < |trace|
    ensures WritesInv(trace[i]) && CopiesInv(trace[i])
  {
    if i > 0 {
      RunInv(trace, i - 1);
      assert StepAt(trace, i - 1);
      var s :| Possible(trace[i - 1], s) && trace[i] == Apply(trace[i - 1], s);
      StepKeepsInv(trace[i - 1], s);
    }
  }

  lemma GreatestUnique(c: Copy, d: Copy)
    requires Greatest(c) && Greatest(d)
    ensures c.history == d.history ==> c == d
  {
    BeatsOrder(c.reg, d.reg, c.reg);
  }

  // ----- theorems

  /** In every run (timestamp, origin) identifies a write. */
  lemma UniqueWrites(trace: seq<World>, i: nat, g: Register, h: Register)
    requires IsRun(trace) && i < |trace| && g in trace[i].writes && h in trace[i].writes
    requires g.ts == h.ts && g.origin == h.origin
    ensures g == h
  {
    RunInv(trace, i);
  }

  /** In every run a local write is accepted: it beats the register it meets. */
  lemma LocalWriteAccepted(trace: seq<World>, i: nat, s: Step)
    requires IsRun(trace) && i < |trace| && s.WriteStep? && Possible(trace[i], s)
    ensures var r := trace[i].replicas[s.id];
            && Update(r, s).copy.value.reg == NewWrite(r, s)
            && (r.copy.Some? ==> Beats(NewWrite(r, s), r.copy.value.reg))
  {
    RunInv(trace, i);
    assert ReplicaInv(trace[i], s.id);
  }

  /** In every run a replica holds the greatest write it has absorbed, so equal histories mean equal registers. */
  lemma GreatestWriteWins(trace: seq<World>, i: nat, j: nat, x: string, y: string)
    requires IsRun(trace) && i < |trace| && j < |trace|
    requires x in trace[i].replicas && trace[i].replicas[x].copy.Some?
    requires y in trace[j].replicas && trace[j].replicas[y].copy.Some?
    ensures Greatest(trace[i].replicas[x].copy.value)
    ensures trace[i].replicas[x].copy.value.history == trace[j].replicas[y].copy.value.history ==>
              trace[i].replicas[x].copy == trace[j].replicas[y].copy
  {
    var c, d := trace[i].replicas[x].copy.value, trace[j].replicas[y].copy.value;
    assert Greatest(c) by { RunInv(trace, i); assert ReplicaInv(trace[i], x); }
    assert Greatest(d) by { RunInv(trace, j); assert ReplicaInv(trace[j], y); }
    GreatestUnique(c, d);
  }
}
