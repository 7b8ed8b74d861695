/**
 The queue of offline payment tokens: rows in SQLite, flushed to the cloud in
 batches, marked only after every batch was acknowledged.
 */
module OfflineQueue {
  import opened Common

  datatype Payment = Payment(payload: string, hmac: string, createdAt: int, flushed: bool)

  type Table = map<string, Payment>

  datatype Token = Token(id: string, payload: string, hmac: string)

  const LOAD_LIMIT: nat := 1000
  const BATCH: nat := 100

  /** `INSERT ... ON CONFLICT(token_id) DO UPDATE`: a conflict keeps the old `flushed`. */
  function Queued(t: Table, id: string, payload: string, hmac: string, now: int): Table {
    if id in t then t[id := t[id].(payload := payload, hmac := hmac, createdAt := now)]
    else t[id := Payment(payload, hmac, now, false)]
  }

  /** Whatever is queued is stored, with its time; only a row already there stays flushed; no other row is touched. */
  lemma QueuedEffect(t: Table, id: string, payload: string, hmac: string, now: int)
    ensures var t' := Queued(t, id, payload, hmac, now);
            && t'.Keys == t.Keys + {id}
            && TokenOf(t', id) == Token(id, payload, hmac) && t'[id].createdAt == now
            && (t'[id].flushed <==> id in t && t[id].flushed)
            && forall x :: x in t && x != id ==> t'[x] == t[x]
  {
  }

  /** Marking touches nothing but the flags of the named rows. */
  lemma FlushedEffect(t: Table, tokens: seq<Token>)
    ensures Flushed(t, tokens).Keys == t.Keys
    ensures forall id :: id in t ==>
              && TokenOf(Flushed(t, tokens), id) == TokenOf(t, id)
              && Flushed(t, tokens)[id].createdAt == t[id].createdAt
              && (Flushed(t, tokens)[id].flushed <==> t[id].flushed || exists k :: k in tokens && k.id == id)
  {
  }

  function Waiting(t: Table): set<string> {
    set id | id in t && !t[id].flushed
  }

  function TokenOf(t: Table, id: string): Token
    requires id in t
  {
    Token(id, t[id].payload, t[id].hmac)
  }

  /** `UPDATE ... SET flushed = 1` for each id, in one transaction. */
  function Flushed(t: Table, tokens: seq<Token>): Table {
    map id | id in t :: if exists k :: k in tokens && k.id == id then t[id].(flushed := true) else t[id]
  }

  /** A result of `SELECT ... WHERE flushed = 0 ORDER BY created_at LIMIT limit`. */
  ghost predicate IsSelection(t: Table, limit: nat, out: seq<Token>) {
    && |out| == Min(limit, |Waiting(t)|)
    && (forall i :: 0 <= i < |out| ==> out[i].id in Waiting(t) && out[i] == TokenOf(t, out[i].id))
    && (forall i, j :: 0 <= i < j < |out| ==> out[i].id != out[j].id && t[out[i].id].createdAt <= t[out[j].id].createdAt)
    && (forall i, id :: 0 <= i < |out| && id in Waiting(t) && (forall k :: k in out ==> k.id != id) ==>
         t[out[i].id].createdAt <= t[id].createdAt)
  }

  class PaymentQueue {
    var table: Table
    var acked: seq<Token>  // publishes the broker acknowledged, in order

    constructor ()
      ensures table == map[] && acked == []
    {
      table, acked := map[], [];
    }

    method QueueOfflinePayment(id: string, payload: string, hmac: string, now: int)
      modifies this`table
      ensures table == Queued(old(table), id, payload, hmac, now)
    {
      if id in table {
        table := table[id := table[id].(payload := payload, hmac := hmac, createdAt := now)];
      } else {
        table := table[id := Payment(payload, hmac, now, false)];
      }
    }

    method MarkOfflineFlushed(tokens: seq<Token>)
      modifies this`table
      ensures table == Flushed(old(table), tokens)
    {
      for i := 0 to |tokens|
        invariant table == Flushed(old(table), tokens[..i])
      {
        var id := tokens[i].id;
        assert tokens[..i + 1] == tokens[..i] + [tokens[i]];
        FlushedOneMore(old(table), tokens[..i], tokens[i]);
        if id in table {
          table := table[id := table[id].(flushed := true)];
        }
      }
      assert tokens[..|tokens|] == tokens;
    }

    /** Publishes one by one; `budget` publishes in all succeed before the first failure. */
    method PublishBatch(batch: seq<Token>, budget: nat) returns (ok: bool)
      requires 0 < |batch| <= 100
      modifies this`acked
      ensures ok <==> |batch| <= budget
      ensures acked == old(acked) + batch[..Min(budget, |batch|)]
    {
      for i := 0 to |batch|
        invariant i <= budget && acked == old(acked) + batch[..i]
      {
        if i == budget {
          return false;
        }
        acked := acked + [batch[i]];
        assert batch[..i + 1] == batch[..i] + [batch[i]];
      }
      ok := true;
    }

    /** `publish_batch` on the tokens `from..to`, those before having been acknowledged. */
    method SendSlice(batch: seq<Token>, tokens: seq<Token>, from: nat, to: nat, budget: nat, ghost start: seq<Token>)
      returns (ok: bool)
      requires from < to <= |tokens| && batch == tokens[from..to] && |batch| <= BATCH && from <= budget
      requires acked == start + tokens[..from]
      modifies this`acked
      ensures ok <==> to <= budget
      ensures acked == start + tokens[..Min(budget, to)]
    {
      ok := PublishBatch(batch, budget - from);
      AckedPrefix(start, tokens, from, to, budget - from);
    }

    /** The batching loop: 100 tokens at a time, the rest at the end, until a publish fails. */
    method SendAll(tokens: seq<Token>, budget: nat) returns (ok: bool)
      modifies this`acked
      ensures ok <==> |tokens| <= budget
      ensures acked == old(acked) + tokens[..Min(budget, |tokens|)]
    {
      var batch := [];
      var sent: nat := 0;
      for i := 0 to |tokens|
        invariant |batch| < BATCH && sent <= i && sent <= budget
        invariant batch == tokens[sent..i]
        invariant acked == old(acked) + tokens[..sent]
      {
        batch := batch + [tokens[i]];
        assert batch == tokens[sent..i + 1];
        if |batch| >= BATCH {
          ok := SendSlice(batch, tokens, sent, i + 1, budget, old(acked));
          if !ok {
            return;
          }
          sent := i + 1;
          batch := [];
        }
      }
      if batch != [] {
        ok := SendSlice(batch, tokens, sent, |tokens|, budget, old(acked));
        if !ok {
          return;
        }
      }
      ok := true;
    }

    /**
     The offline half of `flush_to_cloud` on the loaded `tokens`. On success the
     tokens were published in order and all are marked; on failure none is.
     */
    method FlushOffline(tokens: seq<Token>, budget: nat, markOk: bool) returns (ok: bool)
      modifies this
      ensures ok <==> |tokens| <= budget && markOk
      ensures acked == old(acked) + tokens[..Min(budget, |tokens|)]
      ensures table == if ok then Flushed(old(table), tokens) else old(table)
    {
      ok := SendAll(tokens, budget);
      if !ok || !markOk {
        return false;
      }
      MarkOfflineFlushed(tokens);
    }
  }

  lemma FlushedOneMore(t: Table, tokens: seq<Token>, k: Token)
    ensures Flushed(t, tokens + [k]).Keys == Flushed(t, tokens).Keys == t.Keys
    ensures forall id :: id in t ==>
              Flushed(t, tokens + [k])[id] == if id == k.id then t[id].(flushed := true) else Flushed(t, tokens)[id]
  {
    forall id | id in t
      ensures Flushed(t, tokens + [k])[id] == if id == k.id then t[id].(flushed := true) else Flushed(t, tokens)[id]
    {
      assert k in tokens + [k];
      assert forall x :: x in tokens + [k] <==> x in tokens || x == k;
    }
  }

  /** What is acknowledged after trying tokens `from..to` is a prefix of all the tokens. */
  lemma AckedPrefix(before: seq<Token>, tokens: seq<Token>, from: nat, to: nat, budget: nat)
    requires from <= to <= |tokens|
    ensures before + tokens[..from] + tokens[from..to][..Min(budget, to - from)]
            == before + tokens[..from + Min(budget, to - from)]
  {
    var n := Min(budget, to - from);
    assert tokens[from..to][..n] == tokens[from..from + n];
    assert tokens[..from + n] == tokens[..from] + tokens[from..from + n];
  }

  // ----- all runs: enqueueing goes on while a flush loads, publishes and marks

  datatype Flusher =
    | Resting
    | Sending(tokens: seq<Token>, sent: nat)

  /** `queued` is every token ever queued, in order. */
  datatype World = World(table: Table, acked: seq<Token>, flusher: Flusher, queued: seq<Token>)

  datatype Step =
    | Enqueue(id: string, payload: string, hmac: string, now: int)
    | Load(tokens: seq<Token>)
    | Publish(ok: bool)
    | MarkAll(ok: bool)
    | Crash

  ghost predicate Enabled(w: World, s: Step) {
    match s
    case Enqueue(_, _, _, _) => true
    case Load(tokens) => w.flusher.Resting? && IsSelection(w.table, LOAD_LIMIT, tokens)
    case Publish(_) => w.flusher.Sending? && w.flusher.sent < |w.flusher.tokens|
    case MarkAll(_) => w.flusher.Sending? && w.flusher.sent == |w.flusher.tokens|
    case Crash => true
  }

  ghost function Apply(w: World, s: Step): World
    requires Enabled(w, s)
  {
    match s
    case Enqueue(id, p, h, now) => w.(table := Queued(w.table, id, p, h, now), queued := w.queued + [Token(id, p, h)])
    case Load(tokens) => w.(flusher := Sending(tokens, 0))
    case Publish(ok) =>
      if ok then w.(acked := w.acked + [w.flusher.tokens[w.flusher.sent]], flusher := w.flusher.(sent := w.flusher.sent + 1))
      else w.(flusher := Resting)
    case MarkAll(ok) =>
      w.(table := if ok then Flushed(w.table, w.flusher.tokens) else w.table, flusher := Resting)
    case Crash => w.(flusher := Resting)
  }

  /** What callers may queue: anything, harmless tokens only, or only tokens with a new id. */
  datatype Policy = Anything | HarmlessOnly | NewOnly

  /**
   The token was acknowledged before; or its row is not flushed and a flush in
   progress that has loaded its id has loaded this very token.
   */
  ghost predicate Harmless(w: World, k: Token) {
    || k in w.acked
    || (!(k.id in w.table && w.table[k.id].flushed) && LoadedAlike(w.flusher, k))
  }

  ghost predicate LoadedAlike(f: Flusher, k: Token) {
    f.Sending? ==> forall x :: x in f.tokens && x.id == k.id ==> x == k
  }

  ghost predicate Allowed(p: Policy, w: World, s: Step) {
    s.Enqueue? ==>
      match p
      case Anything => true
      case HarmlessOnly => Harmless(w, Token(s.id, s.payload, s.hmac))
      case NewOnly => s.id !in w.table
  }

  ghost predicate Next(p: Policy, w: World, w': World) {
    exists s :: Enabled(w, s) && Allowed(p, w, s) && w' == Apply(w, s)
  }

  ghost predicate StepAt(p: Policy, trace: seq<World>, i: int)
    requires 0 <= i < |trace| - 1
  {
    Next(p, trace[i], trace[i + 1])
  }

  /** The trace goes on from `w`. */
  ghost predicate RunsFrom(p: Policy, w: World, trace: seq<World>) {
    && |trace| > 0 && trace[0] == w
    && forall i :: 0 <= i < |trace| - 1 ==> StepAt(p, trace, i)
  }

  ghost predicate IsRun(p: Policy, trace: seq<World>) {
    RunsFrom(p, World(map[], [], Resting, []), trace)
  }

  /** Every row marked flushed holds a token the broker acknowledged. */
  ghost predicate FlushedWereAcked(w: World) {
    forall id :: id in w.table && w.table[id].flushed ==> TokenOf(w.table, id) in w.acked
  }

  /** Kept whatever is queued: a flush works on stored ids, each once. */
  ghost predicate ShapeInv(w: World) {
    w.flusher.Sending? ==>
      && w.flusher.sent <= |w.flusher.tokens|
      && (forall k :: k in w.flusher.tokens ==> k.id in w.table)
      && (forall k, x :: k in w.flusher.tokens && x in w.flusher.tokens && k.id == x.id ==> k == x)
  }

  /** A row in flight holds the loaded token or an acknowledged one. */
  ghost predicate Inv(w: World) {
    && ShapeInv(w) && FlushedWereAcked(w)
    && (w.flusher.Sending? ==>
         && (forall k :: k in w.flusher.tokens ==> TokenOf(w.table, k.id) == k || TokenOf(w.table, k.id) in w.acked)
         && (forall k :: k in w.flusher.tokens[..w.flusher.sent] ==> k in w.acked))
  }

  lemma StepKeepsShape(w: World, s: Step)
    requires ShapeInv(w) && Enabled(w, s)
    ensures ShapeInv(Apply(w, s))
  {
    if s.Load? {
      assert forall k :: k in s.tokens ==> exists i :: 0 <= i < |s.tokens| && s.tokens[i] == k;
    }
  }

  lemma StepKeepsInv(w: World, s: Step)
    requires Inv(w) && Enabled(w, s) && Allowed(HarmlessOnly, w, s)
    ensures Inv(Apply(w, s))
  {
    StepKeepsShape(w, s);
    match s
    case Load(tokens) =>
      assert forall k :: k in tokens ==> exists i :: 0 <= i < |tokens| && tokens[i] == k;
    case Publish(ok) =>
      if ok {
        var f := w.flusher;
        assert f.tokens[..f.sent + 1] == f.tokens[..f.sent] + [f.tokens[f.sent]];
      }
    case MarkAll(ok) =>
      assert w.flusher.tokens[..w.flusher.sent] == w.flusher.tokens;
    case _ =>
  }

  lemma {:induction false} RunShape(p: Policy, trace: seq<World>, i: nat)
    requires IsRun(p, trace) && i < |trace|
    ensures ShapeInv(trace[i])
  {
    if i > 0 {
      RunShape(p, trace, i - 1);
      assert StepAt(p, trace, i - 1);
      var s :| Enabled(trace[i - 1], s) && Allowed(p, trace[i - 1], s) && trace[i] == Apply(trace[i - 1], s);
      StepKeepsShape(trace[i - 1], s);
    }
  }

  lemma {:induction false} RunInv(w: World, trace: seq<World>, i: nat)
    requires Inv(w) && RunsFrom(HarmlessOnly, w, trace) && i < |trace|
    ensures Inv(trace[i])
  {
    if i > 0 {
      RunInv(w, trace, i - 1);
      assert StepAt(HarmlessOnly, trace, i - 1);
      var s :| Enabled(trace[i - 1], s) && Allowed(HarmlessOnly, trace[i - 1], s) && trace[i] == Apply(trace[i - 1], s);
      StepKeepsInv(trace[i - 1], s);
    }
  }

  /** In every run that queues only harmless tokens, a token is marked flushed only after its acknowledgement. */
  lemma FlushedOnlyAfterAck(trace: seq<World>, i: nat, id: string)
    requires IsRun(HarmlessOnly, trace) && i < |trace| && id in trace[i].table && trace[i].table[id].flushed
    ensures TokenOf(trace[i].table, id) in trace[i].acked
  {
    RunInv(trace[0], trace, i);
  }

  lemma {:induction false} NewStepsAreHarmless(w: World, trace: seq<World>, i: nat)
    requires ShapeInv(w) && RunsFrom(NewOnly, w, trace) && i < |trace|
    ensures ShapeInv(trace[i]) && (i > 0 ==> StepAt(HarmlessOnly, trace, i - 1))
  {
    if i > 0 {
      NewStepsAreHarmless(w, trace, i - 1);
      assert StepAt(NewOnly, trace, i - 1);
      var s :| Enabled(trace[i - 1], s) && Allowed(NewOnly, trace[i - 1], s) && trace[i] == Apply(trace[i - 1], s);
      StepKeepsShape(trace[i - 1], s);
      assert Allowed(HarmlessOnly, trace[i - 1], s);
    }
  }

  lemma NewRunsAreHarmless(w: World, trace: seq<World>)
    requires ShapeInv(w) && RunsFrom(NewOnly, w, trace)
    ensures RunsFrom(HarmlessOnly, w, trace)
  {
    forall i | 0 <= i < |trace| - 1 ensures StepAt(HarmlessOnly, trace, i) {
      NewStepsAreHarmless(w, trace, i + 1);
    }
  }

  /** With write-once token ids the promise holds outright. */
  lemma WriteOnceIsSafe(trace: seq<World>, i: nat, id: string)
    requires IsRun(NewOnly, trace) && i < |trace| && id in trace[i].table && trace[i].table[id].flushed
    ensures TokenOf(trace[i].table, id) in trace[i].acked
  {
    NewRunsAreHarmless(trace[0], trace);
    FlushedOnlyAfterAck(trace, i, id);
  }

  // ----- nothing queued is dropped

  /** The last token queued under its id. */
  ghost predicate IsLast(log: seq<Token>, j: int)
    requires 0 <= j < |log|
  {
    forall i :: j < i < |log| ==> log[i].id != log[j].id
  }

  /** The table holds exactly the ids ever queued, each with the token last queued under it. */
  ghost predicate HoldsQueued(w: World) {
    && (forall j :: 0 <= j < |w.queued| ==> w.queued[j].id in w.table)
    && (forall j :: 0 <= j < |w.queued| && IsLast(w.queued, j) ==> TokenOf(w.table, w.queued[j].id) == w.queued[j])
    && (forall id :: id in w.table ==> TokenOf(w.table, id) in w.queued)
  }

  lemma EnqueueHolds(w: World, k: Token, now: int)
    requires HoldsQueued(w)
    ensures HoldsQueued(Apply(w, Enqueue(k.id, k.payload, k.hmac, now)))
  {
    var w' := Apply(w, Enqueue(k.id, k.payload, k.hmac, now));
    var n := |w.queued|;
    QueuedEffect(w.table, k.id, k.payload, k.hmac, now);
    assert w'.queued[n] == k && forall j :: 0 <= j < n ==> w'.queued[j] == w.queued[j];
    forall j | 0 <= j < n && IsLast(w'.queued, j) ensures TokenOf(w'.table, w'.queued[j].id) == w'.queued[j] {
      assert w'.queued[n].id != w'.queued[j].id;
      assert IsLast(w.queued, j);
    }
    forall id | id in w'.table ensures TokenOf(w'.table, id) in w'.queued {
      if id != k.id {
        assert TokenOf(w.table, id) in w.queued;
      }
    }
  }

  lemma StepHolds(w: World, s: Step)
    requires HoldsQueued(w) && Enabled(w, s)
    ensures HoldsQueued(Apply(w, s))
  {
    match s
    case Enqueue(id, p, h, now) => EnqueueHolds(w, Token(id, p, h), now);
    case MarkAll(_) => FlushedEffect(w.table, w.flusher.tokens);
    case _ =>
  }

  /** In every run, whatever is queued, the table holds each id ever queued with the token last queued under it. */
  lemma {:induction false} NothingDropped(p: Policy, trace: seq<World>, i: nat)
    requires IsRun(p, trace) && i < |trace|
    ensures HoldsQueued(trace[i])
  {
    if i > 0 {
      NothingDropped(p, trace, i - 1);
      assert StepAt(p, trace, i - 1);
      var s :| Enabled(trace[i - 1], s) && Allowed(p, trace[i - 1], s) && trace[i] == Apply(trace[i - 1], s);
      StepHolds(trace[i - 1], s);
    }
  }

  // ----- a token that is not harmless gets lost

  /** The row reads as flushed, so it is never loaded again, though its token was not acknowledged. */
  ghost predicate Lost(w: World, k: Token) {
    k.id in w.table && w.table[k.id].flushed && TokenOf(w.table, k.id) == k && k !in w.acked
  }

  lemma Extend(p: Policy, w: World, trace: seq<World>, s: Step, w': World) returns (trace': seq<World>)
    requires RunsFrom(p, w, trace) && Enabled(trace[|trace| - 1], s) && Allowed(p, trace[|trace| - 1], s)
    requires w' == Apply(trace[|trace| - 1], s)
    ensures RunsFrom(p, w, trace') && trace' == trace + [w']
  {
    trace' := trace + [w'];
    forall i | 0 <= i < |trace'| - 1 ensures StepAt(p, trace', i) {
      if i < |trace| - 1 {
        assert StepAt(p, trace, i);
      }
    }
  }

  /** A flush that succeeds from here on, publish by publish, marks the row of `k` without having sent `k`. */
  lemma {:induction false} FlushLoses(w: World, k: Token, x: Token) returns (trace: seq<World>)
    requires ShapeInv(w) && w.flusher.Sending? && x in w.flusher.tokens && x.id == k.id && x != k
    requires k !in w.acked && k.id in w.table && TokenOf(w.table, k.id) == k
    ensures RunsFrom(NewOnly, w, trace) && Lost(trace[|trace| - 1], k)
    decreases |w.flusher.tokens| - w.flusher.sent
  {
    var f := w.flusher;
    if f.sent == |f.tokens| {
      trace := Extend(NewOnly, w, [w], MarkAll(true), Apply(w, MarkAll(true)));
    } else {
      assert f.tokens[f.sent] in f.tokens;
      var w1 := Apply(w, Publish(true));
      var rest := FlushLoses(w1, k, x);
      trace := [w] + rest;
      forall i | 0 <= i < |trace| - 1 ensures StepAt(NewOnly, trace, i) {
        if i > 0 {
          assert StepAt(NewOnly, rest, i - 1);
        }
      }
    }
  }

  /**
   After any run whatever, queueing a token that is not harmless has a
   continuation that loses it, in which nothing is queued again.
   */
  lemma HarmfulLoses(p: Policy, run: seq<World>, k: Token, now: int) returns (trace: seq<World>)
    requires IsRun(p, run) && !Harmless(run[|run| - 1], k)
    ensures RunsFrom(NewOnly, Apply(run[|run| - 1], Enqueue(k.id, k.payload, k.hmac, now)), trace)
    ensures Lost(trace[|trace| - 1], k)
  {
    var w := run[|run| - 1];
    var w' := Apply(w, Enqueue(k.id, k.payload, k.hmac, now));
    RunShape(p, run, |run| - 1);
    if k.id in w.table && w.table[k.id].flushed {
      trace := [w'];
    } else {
      var x :| x in w.flusher.tokens && x.id == k.id && x != k;
      trace := FlushLoses(w', k, x);
    }
  }

  /** Every way to go on, queueing only harmless tokens, marks only acknowledged tokens. */
  ghost predicate StaysSafe(w: World) {
    forall trace :: RunsFrom(HarmlessOnly, w, trace) ==> FlushedWereAcked(trace[|trace| - 1])
  }

  /** After any careful run, queueing a token is safe for all that follows exactly when the token is harmless. */
  lemma RequeueSafeIff(trace: seq<World>, k: Token, now: int)
    requires IsRun(HarmlessOnly, trace)
    ensures StaysSafe(Apply(trace[|trace| - 1], Enqueue(k.id, k.payload, k.hmac, now)))
            <==> Harmless(trace[|trace| - 1], k)
  {
    var w, s := trace[|trace| - 1], Enqueue(k.id, k.payload, k.hmac, now);
    RunInv(trace[0], trace, |trace| - 1);
    if Harmless(w, k) {
      StepKeepsInv(w, s);
      forall more | RunsFrom(HarmlessOnly, Apply(w, s), more) ensures FlushedWereAcked(more[|more| - 1]) {
        RunInv(Apply(w, s), more, |more| - 1);
      }
    } else {
      var more := HarmfulLoses(HarmlessOnly, trace, k, now);
      StepKeepsShape(w, s);
      NewRunsAreHarmless(Apply(w, s), more);
    }
  }

  lemma SingleRow(p: Payment)
    requires !p.flushed
    ensures IsSelection(map["t" := p], LOAD_LIMIT, [Token("t", p.payload, p.hmac)])
    ensures forall q: Payment :: Flushed(map["t" := q], [Token("t", p.payload, p.hmac)]) == map["t" := q.(flushed := true)]
  {
    assert Waiting(map["t" := p]) == {"t"};
    assert Token("t", p.payload, p.hmac) in [Token("t", p.payload, p.hmac)];
  }

  /** A payment of 100 that was sent and is about to be marked. */
  lemma HalfFlushed() returns (trace: seq<World>)
    ensures IsRun(Anything, trace) && |trace| == 4
    ensures var k := Token("t", "100", "");
            trace[3] == World(map["t" := Payment("100", "", 0, false)], [k], Sending([k], 1), [k])
  {
    var p, k := Payment("100", "", 0, false), Token("t", "100", "");
    var w := World(map[], [], Resting, []);
    SingleRow(p);
    trace := [w];
    trace := Extend(Anything, w, trace, Enqueue("t", "100", "", 0), World(map["t" := p], [], Resting, [k]));
    trace := Extend(Anything, w, trace, Load([k]), World(map["t" := p], [], Sending([k], 0), [k]));
    trace := Extend(Anything, w, trace, Publish(true), World(map["t" := p], [k], Sending([k], 1), [k]));
  }

  /** Queued again after its flush: the row reads as flushed though its payload was never sent. */
  lemma RequeueLosesPayment() returns (trace: seq<World>)
    ensures IsRun(Anything, trace) && Lost(trace[|trace| - 1], Token("t", "250", ""))
  {
    var p, k, l := Payment("100", "", 0, false), Token("t", "100", ""), Token("t", "250", "");
    SingleRow(p);
    trace := HalfFlushed();
    var w := trace[0];
    trace := Extend(Anything, w, trace, MarkAll(true), World(map["t" := p.(flushed := true)], [k], Resting, [k]));
    trace := Extend(Anything, w, trace, Enqueue("t", "250", "", 1), World(map["t" := Payment("250", "", 1, true)], [k], Resting, [k, l]));
  }

  /** Queued again while its flush is under way: the row is not flushed yet, and still the payment is lost. */
  lemma RequeueMidFlushLosesPayment() returns (trace: seq<World>)
    ensures IsRun(Anything, trace) && Lost(trace[|trace| - 1], Token("t", "250", ""))
    ensures |trace| == 6 && "t" in trace[4].table && !trace[4].table["t"].flushed  // when it was queued again
  {
    var q, k, l := Payment("250", "", 1, false), Token("t", "100", ""), Token("t", "250", "");
    SingleRow(Payment("100", "", 0, false));
    trace := HalfFlushed();
    var w := trace[0];
    trace := Extend(Anything, w, trace, Enqueue("t", "250", "", 1), World(map["t" := q], [k], Sending([k], 1), [k, l]));
    trace := Extend(Anything, w, trace, MarkAll(true), World(map["t" := q.(flushed := true)], [k], Resting, [k, l]));
  }

  // ----- draining

  ghost function IdsOf(tokens: seq<Token>): set<string> {
    set i | 0 <= i < |tokens| :: tokens[i].id
  }

  lemma {:induction false} IdsCount(tokens: seq<Token>)
    requires forall i, j :: 0 <= i < j < |tokens| ==> tokens[i].id != tokens[j].id
    ensures |IdsOf(tokens)| == |tokens|
    decreases |tokens|
  {
    if tokens != [] {
      var n := |tokens| - 1;
      IdsCount(tokens[..n]);
      forall id ensures id in IdsOf(tokens) <==> id in IdsOf(tokens[..n]) || id == tokens[n].id {
        if id in IdsOf(tokens) {
          var i :| 0 <= i < |tokens| && tokens[i].id == id;
          assert i < n ==> tokens[..n][i].id == id;
        }
        if id in IdsOf(tokens[..n]) {
          var i :| 0 <= i < n && tokens[..n][i].id == id;
          assert tokens[i].id == id;
        }
      }
      assert IdsOf(tokens) == IdsOf(tokens[..n]) + {tokens[n].id};
      assert tokens[n].id !in IdsOf(tokens[..n]);
    }
  }

  lemma FlushedWaiting(t: Table, tokens: seq<Token>)
    ensures Waiting(Flushed(t, tokens)) == Waiting(t) - IdsOf(tokens)
  {
    forall id ensures (exists k :: k in tokens && k.id == id) <==> id in IdsOf(tokens) {
      if k :| k in tokens && k.id == id {
        var i :| 0 <= i < |tokens| && tokens[i] == k;
        assert tokens[i].id in IdsOf(tokens);
      }
      if id in IdsOf(tokens) {
        var i :| 0 <= i < |tokens| && tokens[i].id == id;
        assert tokens[i] in tokens;
      }
    }
  }

  /** A successful flush removes exactly the selected tokens from the waiting ones. */
  lemma FlushProgress(t: Table, tokens: seq<Token>)
    requires IsSelection(t, LOAD_LIMIT, tokens)
    ensures |Waiting(Flushed(t, tokens))| == |Waiting(t)| - Min(1000, |Waiting(t)|)
  {
    var ids := IdsOf(tokens);
    FlushedWaiting(t, tokens);
    IdsCount(tokens);
    assert ids <= Waiting(t);
    assert |Waiting(t) - ids| == |Waiting(t)| - |ids|;
  }

  /** `k` successful flushes, with no new arrivals, lead from `t` to `t'`. */
  ghost predicate Flushes(t: Table, t': Table, k: nat) {
    if k == 0 then t == t'
    else exists tokens :: IsSelection(t, LOAD_LIMIT, tokens) && Flushes(Flushed(t, tokens), t', k - 1)
  }

  lemma {:induction false} FlushesCount(t: Table, t': Table, k: nat)
    requires Flushes(t, t', k)
    ensures |Waiting(t')| == Max(0, |Waiting(t)| - k * LOAD_LIMIT)
    decreases k
  {
    if k > 0 {
      var tokens :| IsSelection(t, LOAD_LIMIT, tokens) && Flushes(Flushed(t, tokens), t', k - 1);
      FlushProgress(t, tokens);
      assert k * LOAD_LIMIT == (k - 1) * LOAD_LIMIT + LOAD_LIMIT;
      FlushesCount(Flushed(t, tokens), t', k - 1);
    }
  }

  /** The queue is empty after exactly ceil(n / 1000) successful flushes, and not before. */
  lemma DrainedIff(t: Table, t': Table, k: nat)
    requires Flushes(t, t', k)
    ensures Waiting(t') == {} <==> k >= (|Waiting(t)| + 999) / 1000
  {
    FlushesCount(t, t', k);
    assert Waiting(t') == {} <==> |Waiting(t')| == 0;
  }
}
