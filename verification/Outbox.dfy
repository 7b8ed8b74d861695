/**
 The transactional outbox: rows inserted with domain writes, and any number of
 relays that load, publish and mark them, each of which may fail or crash
 between any two steps. `delivered` is what reached the broker, in order, and
 `acked` what the broker acknowledged.
 */
module Outbox {
  import opened Common

  datatype Entry = Entry(
    eventId: string,
    aggregateType: string,
    aggregateId: string,
    eventType: string,
    payload: string,
    occurredAtMs: int)

  datatype Row = Row(entry: Entry, published: bool)

  type Table = map<string, Row>

  const BATCH_SIZE: nat := 100

  /** `INSERT ... ON CONFLICT (event_id) DO NOTHING`. */
  function Inserted(t: Table, e: Entry): Table {
    if e.eventId in t then t else t[e.eventId := Row(e, false)]
  }

  /** A new event is stored unpublished; a known id changes nothing; no other row is touched. */
  lemma InsertedEffect(t: Table, e: Entry)
    ensures e.eventId in Inserted(t, e)
    ensures e.eventId !in t ==> Inserted(t, e)[e.eventId] == Row(e, false)
    ensures e.eventId in t ==> Inserted(t, e) == t
    ensures Inserted(t, e).Keys == t.Keys + {e.eventId}
    ensures forall id :: id in t ==> Inserted(t, e)[id] == t[id]
  {
  }

  /** `UPDATE ... SET published = true WHERE event_id = id`. */
  function Marked(t: Table, id: string): Table {
    if id in t then t[id := t[id].(published := true)] else t
  }

  function MarkedAll(t: Table, batch: seq<Entry>): Table {
    if batch == [] then t
    else Marked(MarkedAll(t, batch[..|batch| - 1]), batch[|batch| - 1].eventId)
  }

  function Unpublished(t: Table): set<string> {
    set id | id in t && !t[id].published
  }

  ghost function Ids(batch: seq<Entry>): set<string> {
    set i | 0 <= i < |batch| :: batch[i].eventId
  }

  ghost predicate DistinctIds(s: seq<Entry>) {
    forall i, j :: 0 <= i < j < |s| ==> s[i].eventId != s[j].eventId
  }

  /** What the SELECT may return: unpublished rows that nobody holds a lock on at that moment. */
  function Candidates(t: Table, locked: set<string>): set<string> {
    Unpublished(t) - locked
  }

  /**
   A result of `SELECT ... WHERE published = false ORDER BY occurred_at_ms LIMIT 100
   FOR UPDATE SKIP LOCKED`: the oldest candidates, oldest first.
   */
  ghost predicate IsBatch(t: Table, locked: set<string>, batch: seq<Entry>) {
    && |batch| == Min(BATCH_SIZE, |Candidates(t, locked)|)
    && (forall i :: 0 <= i < |batch| ==>
         batch[i].eventId in Candidates(t, locked) && t[batch[i].eventId].entry == batch[i])
    && DistinctIds(batch)
    && (forall i, j :: 0 <= i < j < |batch| ==> batch[i].occurredAtMs <= batch[j].occurredAtMs)
    && (forall i, id :: 0 <= i < |batch| && id in Candidates(t, locked) && id !in Ids(batch) ==>
         batch[i].occurredAtMs <= t[id].entry.occurredAtMs)
  }

  // ----- one relay pass

  /** What the broker and the database do with one row of a pass. */
  datatype Attempt =
    | Relayed
    | PublishFailed(reached: bool)  // the error may hide a message that did arrive
    | MarkFailed

  class Relay {
    var table: Table
    var delivered: seq<Entry>
    var acked: seq<Entry>

    constructor (table: Table)
      ensures this.table == table && delivered == acked == []
    {
      this.table, delivered, acked := table, [], [];
    }

    /**
     The publish loop: `done` rows were published and marked before it stopped;
     of the next one, if any, the attempt says how far it got.
     */
    method RelayBatch(batch: seq<Entry>, attempts: seq<Attempt>) returns (ok: bool, done: nat)
      requires |attempts| == |batch|
      modifies this
      ensures done <= |batch| && (ok <==> done == |batch|)
      ensures forall i :: 0 <= i < done ==> attempts[i].Relayed?
      ensures !ok ==> !attempts[done].Relayed?
      ensures table == MarkedAll(old(table), batch[..done])
      ensures acked == old(acked) + batch[..if !ok && attempts[done].MarkFailed? then done + 1 else done]
      ensures delivered == old(delivered) + batch[..if !ok && Arrived(attempts[done]) then done + 1 else done]
    {
      done := 0;
      while done < |batch|
        invariant done <= |batch|
        invariant forall i :: 0 <= i < done ==> attempts[i].Relayed?
        invariant table == MarkedAll(old(table), batch[..done])
        invariant acked == old(acked) + batch[..done]
        invariant delivered == old(delivered) + batch[..done]
      {
        var row := batch[done];
        assert batch[..done + 1] == batch[..done] + [row];
        if Arrived(attempts[done]) {
          delivered := delivered + [row];
        }
        if attempts[done].PublishFailed? {
          return false, done;
        }
        acked := acked + [row];
        if attempts[done].MarkFailed? {
          return false, done;
        }
        table := Marked(table, row.eventId);
        assert batch[..done + 1][..done] == batch[..done];
        done := done + 1;
      }
      ok := true;
    }
  }

  predicate Arrived(a: Attempt) {
    a.PublishFailed? ==> a.reached
  }

  /** A pass that marks a batch leaves exactly the other rows unpublished, and changes no entry. */
  lemma {:induction false} MarkedAllEffect(t: Table, batch: seq<Entry>)
    ensures MarkedAll(t, batch).Keys == t.Keys
    ensures forall id :: id in t ==>
              MarkedAll(t, batch)[id] == Row(t[id].entry, t[id].published || id in Ids(batch))
    ensures Unpublished(MarkedAll(t, batch)) == Unpublished(t) - Ids(batch)
    decreases |batch|
  {
    if batch != [] {
      var n := |batch| - 1;
      MarkedAllEffect(t, batch[..n]);
      IdsOfLast(batch);
    }
  }

  // ----- which rows a SELECT returns

  /** Rows are stored under their event id, the primary key. */
  ghost predicate Keyed(t: Table) {
    forall id :: id in t ==> t[id].entry.eventId == id
  }

  function Time(t: Table, id: string): int
    requires id in t
  {
    t[id].entry.occurredAtMs
  }

  /** The sort key, with equal times resolved in favour of `first`. */
  function Rank(t: Table, first: set<string>, id: string): int
    requires id in t
  {
    2 * Time(t, id) + if id in first then 0 else 1
  }

  lemma {:induction false} IdsCount(batch: seq<Entry>)
    requires DistinctIds(batch)
    ensures |Ids(batch)| == |batch|
    decreases |batch|
  {
    if batch != [] {
      var n := |batch| - 1;
      IdsCount(batch[..n]);
      IdsOfLast(batch);
    }
  }

  lemma IdsOfLast(batch: seq<Entry>)
    requires batch != []
    ensures Ids(batch) == Ids(batch[..|batch| - 1]) + {batch[|batch| - 1].eventId}
  {
    var n := |batch| - 1;
    forall id ensures id in Ids(batch) <==> id in Ids(batch[..n]) || id == batch[n].eventId {
      if id in Ids(batch) {
        var i :| 0 <= i < |batch| && batch[i].eventId == id;
        assert i < n ==> batch[..n][i].eventId == id;
      }
      if id in Ids(batch[..n]) {
        var i :| 0 <= i < n && batch[..n][i].eventId == id;
        assert batch[i].eventId == id;
      }
    }
  }

  lemma {:induction false} LowestRank(t: Table, first: set<string>, c: set<string>) returns (x: string)
    requires c != {} && c <= t.Keys
    ensures RanksFirst(t, first, c, x)
    decreases c
  {
    x :| x in c;
    if c != {x} {
      var y := LowestRank(t, first, c - {x});
      if Rank(t, first, y) < Rank(t, first, x) {
        x := y;
      }
    }
  }

  /** The batch holds rows of `c` as stored, each once. */
  ghost predicate RowsOf(t: Table, c: set<string>, batch: seq<Entry>)
    requires c <= t.Keys
  {
    DistinctIds(batch) && forall i :: 0 <= i < |batch| ==> batch[i].eventId in c && t[batch[i].eventId].entry == batch[i]
  }

  ghost predicate Ascending(t: Table, first: set<string>, c: set<string>, batch: seq<Entry>)
    requires c <= t.Keys && RowsOf(t, c, batch)
  {
    forall i, j :: 0 <= i < j < |batch| ==> Rank(t, first, batch[i].eventId) <= Rank(t, first, batch[j].eventId)
  }

  /** Nothing of `c` that the batch leaves out ranks below anything in it. */
  ghost predicate NoneBelow(t: Table, first: set<string>, c: set<string>, batch: seq<Entry>)
    requires c <= t.Keys && RowsOf(t, c, batch)
  {
    forall i, id :: 0 <= i < |batch| && id in c && id !in Ids(batch) ==>
      Rank(t, first, batch[i].eventId) <= Rank(t, first, id)
  }

  /** `batch` is the `n` lowest-ranked rows of `c`, in order. */
  ghost predicate Lowest(t: Table, first: set<string>, c: set<string>, n: nat, batch: seq<Entry>)
    requires c <= t.Keys
  {
    && |batch| == Min(n, |c|) && RowsOf(t, c, batch)
    && Ascending(t, first, c, batch) && NoneBelow(t, first, c, batch)
  }

  ghost predicate RanksFirst(t: Table, first: set<string>, c: set<string>, x: string)
    requires c <= t.Keys
  {
    x in c && forall y :: y in c ==> Rank(t, first, x) <= Rank(t, first, y)
  }

  lemma {:induction false} TakeLowest(t: Table, first: set<string>, c: set<string>, n: nat) returns (batch: seq<Entry>)
    requires Keyed(t) && c <= t.Keys
    ensures Lowest(t, first, c, n, batch)
    decreases n
  {
    if n == 0 || c == {} {
      return [];
    }
    var x := LowestRank(t, first, c);
    var rest := TakeLowest(t, first, c - {x}, n - 1);
    batch := [t[x].entry] + rest;
    FirstRows(t, c, x, rest);
    FirstAscending(t, first, c, x, rest);
    FirstNoneBelow(t, first, c, x, rest);
  }

  lemma FirstRows(t: Table, c: set<string>, x: string, rest: seq<Entry>)
    requires Keyed(t) && c <= t.Keys && x in c && RowsOf(t, c - {x}, rest)
    ensures RowsOf(t, c, [t[x].entry] + rest)
  {
    var batch := [t[x].entry] + rest;
    assert forall i :: 1 <= i < |batch| ==> batch[i] == rest[i - 1];
  }

  lemma FirstAscending(t: Table, first: set<string>, c: set<string>, x: string, rest: seq<Entry>)
    requires c <= t.Keys && RanksFirst(t, first, c, x) && t[x].entry.eventId == x
    requires RowsOf(t, c - {x}, rest) && Ascending(t, first, c - {x}, rest) && RowsOf(t, c, [t[x].entry] + rest)
    ensures Ascending(t, first, c, [t[x].entry] + rest)
  {
    var batch := [t[x].entry] + rest;
    forall i, j | 0 <= i < j < |batch| ensures Rank(t, first, batch[i].eventId) <= Rank(t, first, batch[j].eventId) {
      assert batch[j] == rest[j - 1] && (i > 0 ==> batch[i] == rest[i - 1]);
    }
  }

  lemma FirstNoneBelow(t: Table, first: set<string>, c: set<string>, x: string, rest: seq<Entry>)
    requires c <= t.Keys && RanksFirst(t, first, c, x) && t[x].entry.eventId == x
    requires RowsOf(t, c - {x}, rest) && NoneBelow(t, first, c - {x}, rest) && RowsOf(t, c, [t[x].entry] + rest)
    ensures NoneBelow(t, first, c, [t[x].entry] + rest)
  {
    var batch := [t[x].entry] + rest;
    IdsOfFirst(t[x].entry, rest);
    forall i, id | 0 <= i < |batch| && id in c && id !in Ids(batch)
      ensures Rank(t, first, batch[i].eventId) <= Rank(t, first, id)
    {
      assert i > 0 ==> batch[i] == rest[i - 1];
    }
  }

  lemma IdsOfFirst(e: Entry, rest: seq<Entry>)
    ensures Ids([e] + rest) == {e.eventId} + Ids(rest)
  {
    var batch := [e] + rest;
    assert batch[0].eventId in Ids(batch);
    forall id | id in Ids(rest) ensures id in Ids(batch) {
      var j :| 0 <= j < |rest| && rest[j].eventId == id;
      assert batch[j + 1].eventId == id;
    }
  }

  lemma LowestIsBatch(t: Table, locked: set<string>, first: set<string>, batch: seq<Entry>)
    requires Lowest(t, first, Candidates(t, locked), BATCH_SIZE, batch)
    ensures IsBatch(t, locked, batch)
  {
  }

  /** A batch that leaves out a candidate is full. */
  lemma FullBatch(t: Table, locked: set<string>, batch: seq<Entry>, id: string)
    requires IsBatch(t, locked, batch) && id in Candidates(t, locked) && id !in Ids(batch)
    ensures |Ids(batch)| == BATCH_SIZE
  {
    IdsCount(batch);
    assert Ids(batch) <= Candidates(t, locked) - {id};
    SubsetCardinality(Ids(batch), Candidates(t, locked) - {id});
  }

  ghost function Older(t: Table, c: set<string>, id: string): set<string>
    requires c <= t.Keys && id in c
  {
    set x | x in c && Time(t, x) < Time(t, id)
  }

  ghost function NotYounger(t: Table, c: set<string>, id: string): set<string>
    requires c <= t.Keys && id in c
  {
    set x | x in c && x != id && Time(t, x) <= Time(t, id)
  }

  lemma OldEnough(t: Table, locked: set<string>, id: string) returns (batch: seq<Entry>)
    requires Keyed(t) && id in Candidates(t, locked) && |Older(t, Candidates(t, locked), id)| < BATCH_SIZE
    ensures IsBatch(t, locked, batch) && id in Ids(batch)
  {
    var c := Candidates(t, locked);
    batch := TakeLowest(t, {id}, c, BATCH_SIZE);
    LowestIsBatch(t, locked, {id}, batch);
    if id !in Ids(batch) {
      FullBatch(t, locked, batch, id);
      forall x | x in Ids(batch) ensures x in Older(t, c, id) {
        var i :| 0 <= i < |batch| && batch[i].eventId == x;
        assert Rank(t, {id}, batch[i].eventId) <= Rank(t, {id}, id);
      }
      SubsetCardinality(Ids(batch), Older(t, c, id));
    }
  }

  lemma LoadedIsOldEnough(t: Table, locked: set<string>, batch: seq<Entry>, id: string)
    requires IsBatch(t, locked, batch) && id in Ids(batch)
    ensures id in Candidates(t, locked) && |Older(t, Candidates(t, locked), id)| < BATCH_SIZE
  {
    var older := Older(t, Candidates(t, locked), id);
    var i :| 0 <= i < |batch| && batch[i].eventId == id;
    assert forall x :: x in older ==> x in Ids(batch);
    IdsCount(batch);
    assert older <= Ids(batch) - {id};
    SubsetCardinality(older, Ids(batch) - {id});
  }

  /** A SELECT may return a row exactly when the row is a candidate with fewer than 100 older candidates. */
  lemma LoadableIff(t: Table, locked: set<string>, id: string)
    requires Keyed(t)
    ensures (exists batch :: IsBatch(t, locked, batch) && id in Ids(batch))
            <==> id in Candidates(t, locked) && |Older(t, Candidates(t, locked), id)| < BATCH_SIZE
  {
    if batch :| IsBatch(t, locked, batch) && id in Ids(batch) {
      LoadedIsOldEnough(t, locked, batch, id);
    }
    if id in Candidates(t, locked) && |Older(t, Candidates(t, locked), id)| < BATCH_SIZE {
      var batch := OldEnough(t, locked, id);
    }
  }

  lemma MissedIsTooYoung(t: Table, locked: set<string>, batch: seq<Entry>, id: string)
    requires IsBatch(t, locked, batch) && id in Candidates(t, locked) && id !in Ids(batch)
    ensures |NotYounger(t, Candidates(t, locked), id)| >= BATCH_SIZE
  {
    FullBatch(t, locked, batch, id);
    forall x | x in Ids(batch) ensures x in NotYounger(t, Candidates(t, locked), id) {
      var i :| 0 <= i < |batch| && batch[i].eventId == x;
      assert batch[i].occurredAtMs <= t[id].entry.occurredAtMs;
    }
    SubsetCardinality(Ids(batch), NotYounger(t, Candidates(t, locked), id));
  }

  lemma TooYoungIsMissed(t: Table, locked: set<string>, id: string) returns (batch: seq<Entry>)
    requires Keyed(t) && id in Candidates(t, locked) && |NotYounger(t, Candidates(t, locked), id)| >= BATCH_SIZE
    ensures IsBatch(t, locked, batch) && id !in Ids(batch)
  {
    var c := Candidates(t, locked);
    var first, others := c - {id}, NotYounger(t, c, id);
    batch := TakeLowest(t, first, c, BATCH_SIZE);
    LowestIsBatch(t, locked, first, batch);
    if id in Ids(batch) {
      var i :| 0 <= i < |batch| && batch[i].eventId == id;
      forall x | x in others ensures x in Ids(batch) - {id} {
        assert Rank(t, first, x) < Rank(t, first, batch[i].eventId);
      }
      IdsCount(batch);
      SubsetCardinality(others, Ids(batch) - {id});
    }
  }

  /** However ties fall, every SELECT returns a row exactly when fewer than 100 other candidates are not younger. */
  lemma SurelyLoadedIff(t: Table, locked: set<string>, id: string)
    requires Keyed(t) && id in Candidates(t, locked)
    ensures (forall batch :: IsBatch(t, locked, batch) ==> id in Ids(batch))
            <==> |NotYounger(t, Candidates(t, locked), id)| < BATCH_SIZE
  {
    if batch :| IsBatch(t, locked, batch) && id !in Ids(batch) {
      MissedIsTooYoung(t, locked, batch, id);
    }
    if |NotYounger(t, Candidates(t, locked), id)| >= BATCH_SIZE {
      var batch := TooYoungIsMissed(t, locked, id);
    }
  }

  // ----- draining

  /** A pass that marks its whole batch leads from `t` to `t'`. */
  ghost predicate Pass(t: Table, t': Table) {
    exists batch :: IsBatch(t, {}, batch) && t' == MarkedAll(t, batch)
  }

  lemma PassProgress(t: Table, t': Table)
    requires Pass(t, t')
    ensures |Unpublished(t')| == |Unpublished(t)| - Min(100, |Unpublished(t)|)
  {
    var batch :| IsBatch(t, {}, batch) && t' == MarkedAll(t, batch);
    MarkedAllEffect(t, batch);
    IdsCount(batch);
    assert Candidates(t, {}) == Unpublished(t);
    assert Ids(batch) <= Unpublished(t);
    assert |Unpublished(t) - Ids(batch)| == |Unpublished(t)| - |Ids(batch)|;
  }

  /** `k` fully successful passes of one relay, with no new rows, lead from `t` to `t'`. */
  ghost predicate Passes(t: Table, t': Table, k: nat)
    decreases k
  {
    if k == 0 then t == t' else exists next :: Pass(t, next) && Passes(next, t', k - 1)
  }

  lemma {:induction false} PassesCount(t: Table, t': Table, k: nat)
    requires Passes(t, t', k)
    ensures |Unpublished(t')| == Max(0, |Unpublished(t)| - k * BATCH_SIZE)
    decreases k
  {
    if k > 0 {
      var next :| Pass(t, next) && Passes(next, t', k - 1);
      PassProgress(t, next);
      PassesCount(next, t', k - 1);
      OneBatchLess(|Unpublished(t)|, k);
    }
  }

  lemma OneBatchLess(n: nat, k: nat)
    requires k > 0
    ensures Max(0, n - Min(BATCH_SIZE, n) - (k - 1) * BATCH_SIZE) == Max(0, n - k * BATCH_SIZE)
  {
    assert k * BATCH_SIZE == (k - 1) * BATCH_SIZE + BATCH_SIZE;
  }

  /** All rows are published after exactly ceil(n / 100) passes, and not before. */
  lemma DrainedIff(t: Table, t': Table, k: nat)
    requires Passes(t, t', k)
    ensures Unpublished(t') == {} <==> k >= (|Unpublished(t)| + 99) / 100
  {
    PassesCount(t, t', k);
    assert Unpublished(t') == {} <==> |Unpublished(t')| == 0;
  }

  // ----- all runs

  datatype RelayState =
    | Idle
    | Publishing(batch: seq<Entry>)
    | Marking(batch: seq<Entry>)  // the first row was acknowledged by the broker

  datatype World = World(
    table: Table,
    relays: map<string, RelayState>,
    delivered: seq<Entry>,
    acked: seq<Entry>,
    inserted: seq<Entry>)  // every insert that was committed, in order

  /** A SELECT runs outside a transaction: `locked` is what others hold at that very moment, and no lock outlives it. */
  datatype Step =
    | Insert(entry: Entry)
    | Load(relay: string, locked: set<string>, batch: seq<Entry>)
    | Publish(relay: string, reached: bool, acked: bool)
    | Mark(relay: string, ok: bool)
    | Crash(relay: string)

  ghost predicate Enabled(w: World, s: Step) {
    match s
    case Insert(_) => true
    case Load(r, locked, b) => r in w.relays && w.relays[r].Idle? && IsBatch(w.table, locked, b)
    case Publish(r, reached, acked) =>
      r in w.relays && w.relays[r].Publishing? && w.relays[r].batch != [] && (acked ==> reached)
    case Mark(r, _) => r in w.relays && w.relays[r].Marking? && w.relays[r].batch != []
    case Crash(r) => r in w.relays
  }

  /** The pass goes on with the remaining rows, or ends. */
  function Onward(batch: seq<Entry>): RelayState {
    if batch == [] then Idle else Publishing(batch)
  }

  ghost function Apply(w: World, s: Step): World
    requires Enabled(w, s)
  {
    match s
    case Insert(e) => w.(table := Inserted(w.table, e), inserted := w.inserted + [e])
    case Load(r, _, b) => w.(relays := w.relays[r := Onward(b)])
    case Publish(r, reached, acked) =>
      var b := w.relays[r].batch;
      w.(relays := w.relays[r := if acked then Marking(b) else Idle],
         delivered := if reached then w.delivered + [b[0]] else w.delivered,
         acked := if acked then w.acked + [b[0]] else w.acked)
    case Mark(r, ok) =>
      var b := w.relays[r].batch;
      if ok then w.(relays := w.relays[r := Onward(b[1..])], table := Marked(w.table, b[0].eventId))
      else w.(relays := w.relays[r := Idle])
    case Crash(r) => w.(relays := w.relays[r := Idle])
  }

  /** What can go wrong after a message has reached the broker. */
  datatype Fault = AckLost | MarkLost | CrashedBeforeMark

  function FaultOf(w: World, s: Step): Option<Fault> {
    match s
    case Publish(_, reached, acked) => if reached && !acked then Some(AckLost) else None
    case Mark(_, ok) => if !ok then Some(MarkLost) else None
    case Crash(r) => if r in w.relays && w.relays[r].Marking? then Some(CrashedBeforeMark) else None
    case _ => None
  }

  predicate Within(faults: set<Fault>, w: World, s: Step) {
    FaultOf(w, s).Some? ==> FaultOf(w, s).value in faults
  }

  ghost predicate Init(w: World) {
    && w.table == map[] && w.delivered == w.acked == w.inserted == []
    && forall r :: r in w.relays ==> w.relays[r].Idle?
  }

  ghost predicate Next(faults: set<Fault>, w: World, w': World) {
    exists s :: Enabled(w, s) && Within(faults, w, s) && w' == Apply(w, s)
  }

  ghost predicate StepAt(faults: set<Fault>, trace: seq<World>, i: int)
    requires 0 <= i < |trace| - 1
  {
    Next(faults, trace[i], trace[i + 1])
  }

  /** A run in which, of the faults, only those in `faults` happen; failed publishes and other crashes always may. */
  ghost predicate IsRun(faults: set<Fault>, trace: seq<World>) {
    && |trace| > 0 && Init(trace[0])
    && forall i :: 0 <= i < |trace| - 1 ==> StepAt(faults, trace, i)
  }

  /** The entry is exactly the one stored in its row. */
  predicate Stored(t: Table, e: Entry) {
    e.eventId in t && t[e.eventId].entry == e
  }

  ghost predicate RelayInv(w: World, r: string)
    requires r in w.relays
  {
    match w.relays[r]
    case Idle => true
    case Publishing(b) => forall e :: e in b ==> Stored(w.table, e)
    case Marking(b) => b != [] && b[0] in w.acked && forall e :: e in b ==> Stored(w.table, e)
  }

  ghost predicate Inv(w: World) {
    && Keyed(w.table)
    && (forall id :: id in w.table && w.table[id].published ==> w.table[id].entry in w.acked)
    && (forall e :: e in w.acked ==> e in w.delivered)
    && (forall e :: e in w.delivered ==> Stored(w.table, e))
    && (forall r :: r in w.relays ==> RelayInv(w, r))
  }

  /** Rows are never lost or rewritten and never become unpublished; deliveries and acknowledgements are never undone. */
  ghost predicate Advances(w: World, w': World) {
    && (forall id :: id in w.table ==>
         && id in w'.table && w'.table[id].entry == w.table[id].entry
         && (w.table[id].published ==> w'.table[id].published))
    && w.delivered <= w'.delivered && w.acked <= w'.acked
  }

  lemma StepAdvances(w: World, s: Step)
    requires Enabled(w, s)
    ensures Advances(w, Apply(w, s))
  {
  }

  /** What a relay relies on outlasts the steps of others. */
  lemma RelayInvGrows(w: World, w': World, r: string)
    requires r in w.relays && RelayInv(w, r) && Advances(w, w') && r in w'.relays && w'.relays[r] == w.relays[r]
    ensures RelayInv(w', r)
  {
    if !w.relays[r].Idle? {
      forall e | e in w.relays[r].batch ensures Stored(w'.table, e) {
        assert Stored(w.table, e);
      }
    }
    assert forall e :: e in w.acked ==> e in w'.acked;
  }

  lemma OwnStep(w: World, s: Step)
    requires Inv(w) && Enabled(w, s) && !s.Insert?
    ensures RelayInv(Apply(w, s), s.relay)
  {
    var w' := Apply(w, s);
    assert RelayInv(w, s.relay);
    match s
    case Load(_, _, b) =>
      forall e | e in b ensures Stored(w.table, e) {
        var i :| 0 <= i < |b| && b[i] == e;
      }
    case Mark(q, ok) =>
      forall e | e in w.relays[q].batch[1..] ensures Stored(w'.table, e) {
        assert e in w.relays[q].batch && Stored(w.table, e);
      }
    case _ =>
  }

  lemma StepRelay(w: World, s: Step, r: string)
    requires Inv(w) && Enabled(w, s) && r in w.relays
    ensures r in Apply(w, s).relays && RelayInv(Apply(w, s), r)
  {
    if !s.Insert? && s.relay == r {
      OwnStep(w, s);
    } else {
      StepAdvances(w, s);
      assert RelayInv(w, r);
      RelayInvGrows(w, Apply(w, s), r);
    }
  }

  lemma StepKeepsInv(w: World, s: Step)
    requires Inv(w) && Enabled(w, s)
    ensures Inv(Apply(w, s))
  {
    var w' := Apply(w, s);
    StepAdvances(w, s);
    forall r | r in w'.relays ensures RelayInv(w', r) {
      assert r in w.relays;
      StepRelay(w, s, r);
    }
    if s.Publish? || s.Mark? {
      assert RelayInv(w, s.relay);
    }
  }

  lemma {:induction false} RunInv(faults: set<Fault>, trace: seq<World>, i: nat)
    requires IsRun(faults, trace) && i < |trace|
    ensures Inv(trace[i])
  {
    if i > 0 {
      RunInv(faults, trace, i - 1);
      assert StepAt(faults, trace, i - 1);
      var s :| Enabled(trace[i - 1], s) && Within(faults, trace[i - 1], s) && trace[i] == Apply(trace[i - 1], s);
      StepKeepsInv(trace[i - 1], s);
    }
  }

  // ----- theorems

  /** A row is marked published only after the broker acknowledged its message. */
  lemma PublishedWasAcked(faults: set<Fault>, trace: seq<World>, i: nat, id: string)
    requires IsRun(faults, trace) && i < |trace| && id in trace[i].table && trace[i].table[id].published
    ensures trace[i].table[id].entry in trace[i].acked && trace[i].table[id].entry in trace[i].delivered
  {
    RunInv(faults, trace, i);
  }

  /** The first insert under its event id. */
  ghost predicate IsFirst(log: seq<Entry>, j: int)
    requires 0 <= j < |log|
  {
    forall i :: 0 <= i < j ==> log[i].eventId != log[j].eventId
  }

  /** The table holds exactly the ids ever inserted, each with the entry first inserted under it. */
  ghost predicate HoldsInserts(w: World) {
    && (forall j :: 0 <= j < |w.inserted| ==> w.inserted[j].eventId in w.table)
    && (forall j :: 0 <= j < |w.inserted| && IsFirst(w.inserted, j) ==> Stored(w.table, w.inserted[j]))
    && (forall id :: id in w.table ==> w.table[id].entry in w.inserted && w.table[id].entry.eventId == id)
  }

  lemma InsertHolds(w: World, e: Entry)
    requires HoldsInserts(w)
    ensures HoldsInserts(Apply(w, Insert(e)))
  {
    var w' := Apply(w, Insert(e));
    var n := |w.inserted|;
    InsertedEffect(w.table, e);
    assert forall j :: 0 <= j < n ==> w'.inserted[j] == w.inserted[j];
    if e.eventId in w.table {
      var i :| 0 <= i < n && w.inserted[i] == w.table[e.eventId].entry;
      assert w'.inserted[i].eventId == w'.inserted[n].eventId;
      assert !IsFirst(w'.inserted, n);
    }
    forall j | 0 <= j <= n && IsFirst(w'.inserted, j) ensures Stored(w'.table, w'.inserted[j]) {
      if j < n {
        assert IsFirst(w.inserted, j);
      }
    }
  }

  lemma StepHolds(w: World, s: Step)
    requires HoldsInserts(w) && Enabled(w, s)
    ensures HoldsInserts(Apply(w, s))
  {
    if s.Insert? {
      InsertHolds(w, s.entry);
    } else {
      StepAdvances(w, s);
      assert Apply(w, s).table.Keys == w.table.Keys;
    }
  }

  /** In every run the table holds exactly the events ever inserted, each as it was first inserted. */
  lemma {:induction false} NoInsertLost(faults: set<Fault>, trace: seq<World>, i: nat)
    requires IsRun(faults, trace) && i < |trace|
    ensures HoldsInserts(trace[i])
  {
    if i > 0 {
      NoInsertLost(faults, trace, i - 1);
      assert StepAt(faults, trace, i - 1);
      var s :| Enabled(trace[i - 1], s) && Within(faults, trace[i - 1], s) && trace[i] == Apply(trace[i - 1], s);
      StepHolds(trace[i - 1], s);
    }
  }

  lemma NextAdvances(faults: set<Fault>, w: World, w': World)
    requires Next(faults, w, w')
    ensures Advances(w, w')
  {
    var s :| Enabled(w, s) && Within(faults, w, s) && w' == Apply(w, s);
    StepAdvances(w, s);
  }

  lemma AdvancesTransitive(a: World, b: World, c: World)
    requires Advances(a, b) && Advances(b, c)
    ensures Advances(a, c)
  {
  }

  /** Over any stretch of a run no row disappears, changes or becomes unpublished again. */
  lemma {:induction false} NothingLost(faults: set<Fault>, trace: seq<World>, i: nat, j: nat)
    requires IsRun(faults, trace) && i <= j < |trace|
    ensures Advances(trace[i], trace[j])
    decreases j
  {
    if i < j {
      NothingLost(faults, trace, i, j - 1);
      assert StepAt(faults, trace, j - 1);
      NextAdvances(faults, trace[j - 1], trace[j]);
      AdvancesTransitive(trace[i], trace[j - 1], trace[j]);
    }
  }

  /** At any moment of any run, an idle relay can load a row exactly when fewer than 100 candidates are older. */
  lemma UnpublishedLoadable(faults: set<Fault>, trace: seq<World>, i: nat, id: string, r: string, locked: set<string>)
    requires IsRun(faults, trace) && i < |trace| && r in trace[i].relays && trace[i].relays[r].Idle?
    ensures (exists batch :: Enabled(trace[i], Load(r, locked, batch)) && id in Ids(batch))
            <==> (id in Candidates(trace[i].table, locked)
                  && |Older(trace[i].table, Candidates(trace[i].table, locked), id)| < BATCH_SIZE)
  {
    RunInv(faults, trace, i);
    var t := trace[i].table;
    LoadableIff(t, locked, id);
    if batch :| IsBatch(t, locked, batch) && id in Ids(batch) {
      assert Enabled(trace[i], Load(r, locked, batch));
    }
  }

  predicate Acted(on: seq<Entry>, id: string) {
    exists x :: x in on && x.eventId == id
  }

  /** What a consumer that ignores event ids it has already seen acts on. */
  function Effects(log: seq<Entry>): seq<Entry> {
    if log == [] then []
    else
      var before := Effects(log[..|log| - 1]);
      var e := log[|log| - 1];
      if Acted(before, e.eventId) then before else before + [e]
  }

  lemma {:induction false} EffectsDistinct(log: seq<Entry>)
    ensures DistinctIds(Effects(log))
    ensures forall e :: e in Effects(log) ==> e in log
    decreases |log|
  {
    if log != [] {
      EffectsDistinct(log[..|log| - 1]);
    }
  }

  lemma {:induction false} EffectsCover(log: seq<Entry>, e: Entry)
    requires e in log
    ensures Acted(Effects(log), e.eventId)
    decreases |log|
  {
    var n := |log| - 1;
    var before := Effects(log[..n]);
    if e in log[..n] {
      EffectsCover(log[..n], e);
      var x :| x in before && x.eventId == e.eventId;
      assert x in Effects(log);
    } else if !Acted(before, e.eventId) {
      assert e == log[n] && e in Effects(log);
    }
  }

  /**
   Exactly-once effect: however often messages were repeated, an idempotent
   consumer acts once on each delivered event, on the very entry committed to
   the outbox, and on every row marked published.
   */
  lemma ExactlyOnceEffect(faults: set<Fault>, trace: seq<World>, i: nat)
    requires IsRun(faults, trace) && i < |trace|
    ensures var acted := Effects(trace[i].delivered);
            && DistinctIds(acted)
            && (forall e :: e in acted <==> e in trace[i].delivered)
            && (forall e :: e in acted ==> Stored(trace[i].table, e))
            && (forall id :: id in trace[i].table && trace[i].table[id].published ==> trace[i].table[id].entry in acted)
  {
    RunInv(faults, trace, i);
    var w := trace[i];
    EffectsDistinct(w.delivered);
    forall e | e in w.delivered ensures e in Effects(w.delivered) {
      EffectsCover(w.delivered, e);
      var x :| x in Effects(w.delivered) && x.eventId == e.eventId;
      assert Stored(w.table, x) && Stored(w.table, e);
    }
  }

  // ----- when is a message delivered twice?

  /** The one relay that runs: what was delivered is published, except the message it is about to mark. */
  ghost predicate SoloInv(w: World, r: string) {
    && w.relays.Keys <= {r} && DistinctIds(w.delivered)
    && (forall e :: e in w.delivered ==> Settled(w, r, e.eventId))
    && (r in w.relays && !w.relays[r].Idle? ==> Pending(w.table, w.relays[r].batch))
  }

  predicate Settled(w: World, r: string, id: string) {
    || (id in w.table && w.table[id].published)
    || (r in w.relays && w.relays[r].Marking? && w.relays[r].batch != [] && w.relays[r].batch[0].eventId == id)
  }

  ghost predicate Pending(t: Table, batch: seq<Entry>) {
    DistinctIds(batch) && forall e :: e in batch ==> e.eventId in t && !t[e.eventId].published
  }

  lemma SoloLoad(w: World, s: Step, r: string)
    requires SoloInv(w, r) && s.Load? && Enabled(w, s)
    ensures SoloInv(Apply(w, s), r)
  {
    assert s.relay == r;
    assert Pending(w.table, s.batch) by {
      assert forall e :: e in s.batch ==> exists i :: 0 <= i < |s.batch| && s.batch[i] == e;
    }
    var w' := Apply(w, s);
    forall e | e in w'.delivered ensures Settled(w', r, e.eventId) {
      assert Settled(w, r, e.eventId);
    }
  }

  lemma SoloPublish(w: World, s: Step, r: string)
    requires SoloInv(w, r) && s.Publish? && Enabled(w, s) && Within({}, w, s)
    ensures SoloInv(Apply(w, s), r)
  {
    assert s.relay == r;
    var w', b := Apply(w, s), w.relays[r].batch;
    assert b[0] in b;
    forall e | e in w.delivered ensures Settled(w', r, e.eventId) && e.eventId != b[0].eventId {
      assert Settled(w, r, e.eventId);
    }
    assert forall i :: 0 <= i < |w.delivered| ==> w.delivered[i] in w.delivered;
  }

  lemma SoloMark(w: World, s: Step, r: string)
    requires SoloInv(w, r) && s.Mark? && Enabled(w, s) && Within({}, w, s)
    ensures SoloInv(Apply(w, s), r)
  {
    assert s.relay == r;
    var w', b := Apply(w, s), w.relays[r].batch;
    forall e | e in w.delivered ensures Settled(w', r, e.eventId) {
      assert Settled(w, r, e.eventId);
      assert b[0] in b;
    }
    assert Pending(w'.table, b[1..]) by {
      forall e | e in b[1..] ensures e.eventId in w'.table && !w'.table[e.eventId].published {
        var i :| 1 <= i < |b| && b[i] == e;
        assert e in b && b[0].eventId != b[i].eventId;
      }
    }
  }

  lemma StepKeepsSolo(w: World, s: Step, r: string)
    requires SoloInv(w, r) && Enabled(w, s) && Within({}, w, s)
    ensures SoloInv(Apply(w, s), r)
  {
    match s
    case Load(_, _, _) => SoloLoad(w, s, r);
    case Publish(_, _, _) => SoloPublish(w, s, r);
    case Mark(_, _) => SoloMark(w, s, r);
    case _ =>
      forall e | e in w.delivered ensures Settled(Apply(w, s), r, e.eventId) {
        assert Settled(w, r, e.eventId);
      }
  }

  lemma {:induction false} SoloRun(trace: seq<World>, i: nat, r: string)
    requires IsRun({}, trace) && i < |trace| && trace[0].relays.Keys <= {r}
    ensures SoloInv(trace[i], r)
  {
    if i > 0 {
      SoloRun(trace, i - 1, r);
      assert StepAt({}, trace, i - 1);
      var s :| Enabled(trace[i - 1], s) && Within({}, trace[i - 1], s) && trace[i] == Apply(trace[i - 1], s);
      StepKeepsSolo(trace[i - 1], s, r);
    }
  }

  lemma Extend(faults: set<Fault>, trace: seq<World>, s: Step) returns (trace': seq<World>)
    requires IsRun(faults, trace) && Enabled(trace[|trace| - 1], s) && Within(faults, trace[|trace| - 1], s)
    ensures IsRun(faults, trace') && trace' == trace + [Apply(trace[|trace| - 1], s)]
  {
    trace' := trace + [Apply(trace[|trace| - 1], s)];
    forall i | 0 <= i < |trace'| - 1 ensures StepAt(faults, trace', i) {
      if i < |trace| - 1 {
        assert StepAt(faults, trace, i);
      }
    }
  }

  lemma OnlyRow(e: Entry)
    ensures IsBatch(map[e.eventId := Row(e, false)], {}, [e])
  {
    assert Candidates(map[e.eventId := Row(e, false)], {}) == {e.eventId};
    assert [e][0].eventId in Ids([e]);
  }

  ghost function AllIdle(relays: set<string>): World {
    World(map[], map r | r in relays :: Idle, [], [], [])
  }

  /** Two relays load the same row and both publish it; no fault is needed. */
  lemma RacingRelaysDuplicate(relays: set<string>, p: string, q: string, e: Entry) returns (trace: seq<World>)
    requires p in relays && q in relays && p != q
    ensures IsRun({}, trace) && trace[0] == AllIdle(relays) && trace[|trace| - 1].delivered == [e, e]
  {
    OnlyRow(e);
    trace := Extend({}, [AllIdle(relays)], Insert(e));
    trace := Extend({}, trace, Load(p, {}, [e]));
    trace := Extend({}, trace, Load(q, {}, [e]));
    trace := Extend({}, trace, Publish(p, true, true));
    trace := Extend({}, trace, Publish(q, true, true));
  }

  /** For each fault: a run of one relay with that fault alone delivers a message twice. */
  lemma FaultDuplicates(relays: set<string>, r: string, f: Fault, e: Entry) returns (trace: seq<World>)
    requires r in relays
    ensures IsRun({f}, trace) && trace[0] == AllIdle(relays) && trace[|trace| - 1].delivered == [e, e]
  {
    OnlyRow(e);
    trace := FaultyPass(relays, r, f, e);
    trace := Extend({f}, trace, Load(r, {}, [e]));
    trace := Extend({f}, trace, Publish(r, true, true));
  }

  /** A first pass that delivers the row and, for the fault, leaves it unpublished. */
  lemma FaultyPass(relays: set<string>, r: string, f: Fault, e: Entry) returns (trace: seq<World>)
    requires r in relays
    ensures IsRun({f}, trace) && trace[0] == AllIdle(relays)
    ensures var w := trace[|trace| - 1];
            && w.table == map[e.eventId := Row(e, false)] && w.delivered == [e]
            && r in w.relays && w.relays[r].Idle?
  {
    OnlyRow(e);
    trace := Extend({f}, [AllIdle(relays)], Insert(e));
    trace := Extend({f}, trace, Load(r, {}, [e]));
    match f {
      case AckLost =>
        trace := Extend({f}, trace, Publish(r, true, false));
      case MarkLost =>
        trace := Extend({f}, trace, Publish(r, true, true));
        trace := Extend({f}, trace, Mark(r, false));
      case CrashedBeforeMark =>
        trace := Extend({f}, trace, Publish(r, true, true));
        trace := Extend({f}, trace, Crash(r));
    }
  }

  /** No run of these relays with these faults delivers an event twice. */
  ghost predicate NeverDuplicates(relays: set<string>, faults: set<Fault>) {
    forall trace: seq<World>, i :: IsRun(faults, trace) && trace[0].relays.Keys == relays && 0 <= i < |trace| ==>
      DistinctIds(trace[i].delivered)
  }

  lemma MoreFaults(some: set<Fault>, all: set<Fault>, trace: seq<World>)
    requires some <= all && IsRun(some, trace)
    ensures IsRun(all, trace)
  {
    forall i | 0 <= i < |trace| - 1 ensures StepAt(all, trace, i) {
      assert StepAt(some, trace, i);
    }
  }

  lemma Duplicated(relays: set<string>, some: set<Fault>, faults: set<Fault>, trace: seq<World>, e: Entry)
    requires some <= faults && IsRun(some, trace) && trace[0] == AllIdle(relays)
    requires trace[|trace| - 1].delivered == [e, e]
    ensures !NeverDuplicates(relays, faults)
  {
    MoreFaults(some, faults, trace);
    assert trace[0].relays.Keys == relays;
    var last := trace[|trace| - 1].delivered;
    assert last[0].eventId == last[1].eventId;
  }

  /**
   When deliveries are unique: with no relay at all, or with a single relay that
   never loses an acknowledgement, fails to mark, or dies in between.
   */
  lemma NeverDuplicatesIff(relays: set<string>, faults: set<Fault>)
    ensures NeverDuplicates(relays, faults) <==> relays == {} || (|relays| == 1 && faults == {})
  {
    var e := Entry("id", "", "", "", "", 0);
    if relays == {} {
      forall trace: seq<World>, i | IsRun(faults, trace) && trace[0].relays.Keys == relays && 0 <= i < |trace|
        ensures DistinctIds(trace[i].delivered)
      {
        NoRelayNoDelivery(faults, trace, i);
      }
    } else if r :| r in relays {
      if q :| q in relays && q != r {
        var trace := RacingRelaysDuplicate(relays, r, q, e);
        Duplicated(relays, {}, faults, trace, e);
        assert {r, q} <= relays;
        SubsetCardinality({r, q}, relays);
      } else if f :| f in faults {
        var trace := FaultDuplicates(relays, r, f, e);
        Duplicated(relays, {f}, faults, trace, e);
      } else {
        assert relays == {r} && faults == {};
        forall trace: seq<World>, i | IsRun(faults, trace) && trace[0].relays.Keys == relays && 0 <= i < |trace|
          ensures DistinctIds(trace[i].delivered)
        {
          SoloRun(trace, i, r);
        }
      }
    }
  }

  lemma {:induction false} NoRelayNoDelivery(faults: set<Fault>, trace: seq<World>, i: nat)
    requires IsRun(faults, trace) && trace[0].relays.Keys == {} && i < |trace|
    ensures trace[i].relays.Keys == {} && trace[i].delivered == []
  {
    if i > 0 {
      NoRelayNoDelivery(faults, trace, i - 1);
      assert StepAt(faults, trace, i - 1);
    }
  }
}
