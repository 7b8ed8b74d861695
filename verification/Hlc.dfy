/**
 Hybrid logical clock timestamps: the daemon's `Hlc` and the TypeScript
 functions over the same triple. Physical clock readings are inputs.
 */
module Hlc {
  import opened Common

  datatype Stamp = Stamp(wall: nat, counter: nat, node: string)

  datatype Ordering = Less | Equal | Greater

  function CompareNat(a: nat, b: nat): Ordering {
    if a < b then Less else if a == b then Equal else Greater
  }

  function CompareStr(a: string, b: string): Ordering {
    if a == b then Equal else if StrLess(a, b) then Less else Greater
  }

  // ----- the daemon's clock

  function Compare(a: Stamp, b: Stamp): Option<Ordering> {
    match CompareNat(a.wall, b.wall)
    case Equal =>
      (match CompareNat(a.counter, b.counter)
       case Equal => if a.node == b.node then Some(Equal) else None
       case ord => Some(ord))
    case ord => Some(ord)
  }

  function CompareTotal(a: Stamp, b: Stamp): Ordering {
    var c := Compare(a, b);
    if c.Some? then c.value else CompareStr(a.node, b.node)
  }

  predicate Dominates(a: Stamp, b: Stamp) {
    Compare(a, b) == Some(Greater)
  }

  /** Same wall clock and counter: the pairs `Dominates` cannot order. */
  predicate Tie(a: Stamp, b: Stamp) {
    a.wall == b.wall && a.counter == b.counter
  }

  function Create(node: string, pt: nat): (r: Option<Stamp>)
    ensures r.Some? <==> node != ""
    ensures r.Some? ==> r.value.wall == pt && r.value.counter == 0 && r.value.node == node
  {
    if node == "" then None else Some(Stamp(pt, 0, node))
  }

  function Ticked(c: Stamp, pt: nat): Stamp {
    if pt > c.wall then c.(wall := pt, counter := 0)
    else c.(wall := SaturatingAdd(c.wall, 1, U64_MAX), counter := SaturatingAdd(c.counter, 1, U32_MAX))
  }

  function Received(c: Stamp, remote: Stamp, pt: nat): Stamp {
    var wall := Max(Max(c.wall, pt), remote.wall);
    var counter :=
      if wall == c.wall && wall == remote.wall then SaturatingAdd(Max(c.counter, remote.counter), 1, U32_MAX)
      else if wall == c.wall then SaturatingAdd(c.counter, 1, U32_MAX)
      else if wall == remote.wall then SaturatingAdd(remote.counter, 1, U32_MAX)
      else 0;
    c.(wall := wall, counter := counter)
  }

  /** The stamp fits the field widths `u64` and `u32`. */
  predicate Fits(s: Stamp) {
    s.wall <= U64_MAX && s.counter <= U32_MAX
  }

  predicate TickSaturates(c: Stamp, pt: nat) {
    pt <= c.wall && c.wall == U64_MAX && c.counter == U32_MAX
  }

  /** The new wall clock comes from a side whose counter is already full. */
  predicate ReceiveSaturates(c: Stamp, remote: Stamp, pt: nat) {
    var wall := Max(Max(c.wall, pt), remote.wall);
    || (wall == c.wall && c.counter == U32_MAX)
    || (wall == remote.wall && remote.counter == U32_MAX)
  }

  /** The clock object: `tick`, `send` and `receive` update it in place and return a copy. */
  class HybridClock {
    var wallclock: nat
    var counter: nat
    const nodeId: string

    ghost function Now(): Stamp
      reads this
    {
      Stamp(wallclock, counter, nodeId)
    }

    constructor (node: string, pt: nat)
      requires node != ""
      ensures Some(Now()) == Create(node, pt)
    {
      wallclock, counter, nodeId := pt, 0, node;
    }

    method Tick(pt: nat) returns (s: Stamp)
      modifies this
      ensures s == Now() == Ticked(old(Now()), pt)
      // A reading ahead is shown with counter zero; otherwise clock and counter move on by one, up to their limits.
      ensures pt > old(wallclock) ==> s.wall == pt && s.counter == 0
      ensures pt <= old(wallclock) < U64_MAX ==> s.wall == old(wallclock) + 1
      ensures pt <= old(wallclock) && old(counter) < U32_MAX ==> s.counter == old(counter) + 1
      ensures pt <= old(wallclock) == U64_MAX ==> s.wall == U64_MAX
      ensures pt <= old(wallclock) && old(counter) == U32_MAX ==> s.counter == U32_MAX
      ensures s.node == nodeId
      ensures old(Fits(Now())) ==> (Dominates(s, old(Now())) <==> !TickSaturates(old(Now()), pt))
    {
      if pt > wallclock {
        wallclock := pt;
        counter := 0;
      } else {
        wallclock := SaturatingAdd(wallclock, 1, U64_MAX);
        counter := SaturatingAdd(counter, 1, U32_MAX);
      }
      s := Stamp(wallclock, counter, nodeId);
    }

    method Send(pt: nat) returns (s: Stamp)
      modifies this
      ensures s == Now() == Ticked(old(Now()), pt)
      ensures pt > old(wallclock) ==> s.wall == pt && s.counter == 0
      ensures pt <= old(wallclock) < U64_MAX ==> s.wall == old(wallclock) + 1
      ensures pt <= old(wallclock) && old(counter) < U32_MAX ==> s.counter == old(counter) + 1
    {
      s := Tick(pt);
    }

    method Receive(remote: Stamp, pt: nat) returns (s: Stamp)
      modifies this
      ensures s == Now() == Received(old(Now()), remote, pt)
      ensures s.node == nodeId
    {
      var newWallclock := Max(Max(wallclock, pt), remote.wall);
      var newCounter;
      if newWallclock == wallclock && newWallclock == remote.wall {
        newCounter := SaturatingAdd(Max(counter, remote.counter), 1, U32_MAX);
      } else if newWallclock == wallclock {
        newCounter := SaturatingAdd(counter, 1, U32_MAX);
      } else if newWallclock == remote.wall {
        newCounter := SaturatingAdd(remote.counter, 1, U32_MAX);
      } else {
        newCounter := 0;
      }
      wallclock, counter := newWallclock, newCounter;
      s := Stamp(wallclock, counter, nodeId);
    }
  }

  /** A tick yields a strictly newer stamp exactly when it does not saturate. */
  lemma TickDominatesIff(c: Stamp, pt: nat)
    requires Fits(c)
    ensures Dominates(Ticked(c, pt), c) <==> !TickSaturates(c, pt)
    ensures pt <= U64_MAX ==> Fits(Ticked(c, pt))
  {
  }

  /** The value of a tick: the reading with counter zero if it is ahead, else both one on, up to their limits. */
  lemma TickValue(c: Stamp, pt: nat)
    requires Fits(c)
    ensures pt > c.wall ==> Ticked(c, pt) == Stamp(pt, 0, c.node)
    ensures pt <= c.wall && c.wall < U64_MAX && c.counter < U32_MAX ==> Ticked(c, pt) == Stamp(c.wall + 1, c.counter + 1, c.node)
    ensures pt <= c.wall && c.wall < U64_MAX && c.counter == U32_MAX ==> Ticked(c, pt) == Stamp(c.wall + 1, U32_MAX, c.node)
    ensures pt <= c.wall && c.wall == U64_MAX && c.counter < U32_MAX ==> Ticked(c, pt) == Stamp(U64_MAX, c.counter + 1, c.node)
    ensures pt <= c.wall && c.wall == U64_MAX && c.counter == U32_MAX ==> Ticked(c, pt) == c
  {
  }

  /** No greater counter among the sides that show the wall clock `wall`. */
  predicate TopCounter(c: Stamp, remote: Stamp, wall: nat, top: nat) {
    && ((c.wall == wall && c.counter == top) || (remote.wall == wall && remote.counter == top))
    && (c.wall == wall ==> c.counter <= top) && (remote.wall == wall ==> remote.counter <= top)
  }

  /**
   The value of a receive: the latest of the three times, and with it counter
   zero if only the reading shows it, else one more than the greatest counter of
   the sides that do, up to the limit; the node stays.
   */
  lemma ReceiveValue(c: Stamp, remote: Stamp, pt: nat, top: nat)
    requires Fits(c) && Fits(remote)
    ensures var s := Received(c, remote, pt);
            && s.node == c.node
            && s.wall >= c.wall && s.wall >= remote.wall && s.wall >= pt
            && (s.wall == c.wall || s.wall == remote.wall || s.wall == pt)
            && (pt > c.wall && pt > remote.wall ==> s.counter == 0)
            && (TopCounter(c, remote, s.wall, top) ==> s.counter == if top < U32_MAX then top + 1 else U32_MAX)
  {
  }

  /** A tick shows the later of clock and reading exactly when the reading is ahead or the clock is full. */
  lemma TickShowsMaxIff(c: Stamp, pt: nat)
    requires Fits(c)
    ensures Ticked(c, pt).wall == Max(c.wall, pt) <==> pt > c.wall || c.wall == U64_MAX
    ensures pt <= c.wall < U64_MAX ==> Ticked(c, pt).wall == c.wall + 1
  {
  }

  /** A receive yields a stamp strictly newer than both causes exactly when it does not saturate. */
  lemma ReceiveDominatesIff(c: Stamp, remote: Stamp, pt: nat)
    requires Fits(c) && Fits(remote)
    ensures (Dominates(Received(c, remote, pt), c) && Dominates(Received(c, remote, pt), remote))
            <==> !ReceiveSaturates(c, remote, pt)
    ensures pt <= U64_MAX ==> Fits(Received(c, remote, pt))
  {
  }

  /** What `dominates` compares: wall clocks first, then counters, never nodes. */
  lemma DominatesMeans(a: Stamp, b: Stamp)
    ensures Dominates(a, b) <==> a.wall > b.wall || (a.wall == b.wall && a.counter > b.counter)
  {
  }

  /** What the total comparisons do with ties: the greater node id wins, each in its language's order of strings. */
  lemma TieBreaks(a: Stamp, b: Stamp)
    ensures CompareTotal(a, b) == Greater <==> Dominates(a, b) || (Tie(a, b) && StrLess(b.node, a.node))
    ensures CompareHlc(a, b) == 1 <==> Dominates(a, b) || (Tie(a, b) && JsLess(b.node, a.node))
  {
    StrLessTotal(a.node, b.node);
    if StrLess(a.node, b.node) { StrLessAsymmetric(a.node, b.node); }
    StrLessIrreflexive(a.node);
    JsOrder(a.node, b.node);
    LexLessIrreflexive(Utf16Rank, a.node);
  }

  /** `dominates` is a strict weak order that leaves exactly the ties of distinct stamps open. */
  lemma DominatesOrder(a: Stamp, b: Stamp, c: Stamp)
    ensures !Dominates(a, a)
    ensures Dominates(a, b) && Dominates(b, c) ==> Dominates(a, c)
    ensures Tie(a, b) <==> !Dominates(a, b) && !Dominates(b, a)
    ensures Dominates(a, b) && Tie(b, c) ==> Dominates(a, c)
    ensures Tie(a, b) && Dominates(b, c) ==> Dominates(a, c)
  {
  }

  /** `compare_total` is a total order on stamps and extends `dominates`. */
  lemma CompareTotalOrder(a: Stamp, b: Stamp, c: Stamp)
    ensures CompareTotal(a, b) == Equal <==> a == b
    ensures CompareTotal(a, b) == Less <==> CompareTotal(b, a) == Greater
    ensures CompareTotal(a, b) == Greater && CompareTotal(b, c) == Greater ==> CompareTotal(a, c) == Greater
    ensures Dominates(a, b) ==> CompareTotal(a, b) == Greater
  {
    StrLessTotal(a.node, b.node);
    if StrLess(a.node, b.node) { StrLessAsymmetric(a.node, b.node); }
    if StrLess(b.node, a.node) { StrLessAsymmetric(b.node, a.node); }
    StrLessTotal(b.node, c.node);
    StrLessTotal(a.node, c.node);
    if StrLess(c.node, b.node) && StrLess(b.node, a.node) {
      StrLessTransitive(c.node, b.node, a.node);
      StrLessAsymmetric(c.node, a.node);
    }
    if StrLess(c.node, a.node) { StrLessAsymmetric(c.node, a.node); }
  }

  // ----- the TypeScript functions

  function CompareHlc(a: Stamp, b: Stamp): int {
    if a.wall != b.wall then (if a.wall < b.wall then -1 else 1)
    else if a.counter != b.counter then (if a.counter < b.counter then -1 else 1)
    else if a.node != b.node then (if JsLess(a.node, b.node) then -1 else 1)
    else 0
  }

  /** The last integer up to which a JavaScript number counts. */
  const JS_MAX: nat := 0x20_0000_0000_0000

  /** `n + 1` on a JavaScript number up to 2^53, where rounding gives 2^53 again. */
  function JsSucc(n: nat): nat {
    SaturatingAdd(n, 1, JS_MAX)
  }

  predicate FitsJs(s: Stamp) {
    s.wall <= JS_MAX && s.counter <= JS_MAX
  }

  predicate IncrementSaturates(hlc: Stamp, now: nat) {
    now <= hlc.wall && hlc.counter == JS_MAX
  }

  /** The winning side's counter is full. */
  predicate MergeSaturates(local: Stamp, remote: Stamp) {
    (if CompareHlc(local, remote) >= 0 then local else remote).counter == JS_MAX
  }

  function MergeHlc(local: Stamp, remote: Stamp): Stamp {
    var base := if CompareHlc(local, remote) >= 0 then local else remote;
    Stamp(base.wall, JsSucc(base.counter), local.node)
  }

  function IncrementHlc(hlc: Stamp, node: Option<string>, now: nat): Stamp {
    var id := if node.Some? then node.value else hlc.node;
    if now > hlc.wall then Stamp(now, 0, id)
    else Stamp(hlc.wall, JsSucc(hlc.counter), id)
  }

  function Sign(o: Ordering): int {
    match o
    case Less => -1
    case Equal => 0
    case Greater => 1
  }

  /** `compareHlc` is `compare_total`, except for ties whose node ids UTF-16 and UTF-8 order differently. */
  lemma CompareHlcIsCompareTotalIff(a: Stamp, b: Stamp)
    ensures CompareHlc(a, b) == Sign(CompareTotal(a, b)) <==> !(Tie(a, b) && Straddles(a.node, b.node))
  {
    OrdersDifferIff(a.node, b.node);
    if a.node == b.node {
      StrLessIrreflexive(a.node);
      LexLessIrreflexive(Utf16Rank, a.node);
    }
  }

  /** An id with a character beyond U+FFFF, and one with a character just below, tie in time: each language picks another winner. */
  lemma CompareHlcDiffers()
    ensures var a, b := Stamp(7, 0, "\U{1F600}"), Stamp(7, 0, "\U{FF21}");
            CompareTotal(a, b) == Greater && CompareHlc(a, b) == -1
  {
  }

  /** `compareHlc` as an order: total, antisymmetric and transitive. */
  lemma CompareHlcOrder(a: Stamp, b: Stamp, c: Stamp)
    ensures CompareHlc(a, b) == 0 <==> a == b
    ensures CompareHlc(a, b) == -CompareHlc(b, a)
    ensures CompareHlc(a, b) > 0 && CompareHlc(b, c) > 0 ==> CompareHlc(a, c) > 0
  {
    JsOrder(a.node, b.node);
    JsOrder(b.node, c.node);
    JsOrder(a.node, c.node);
    if JsLess(c.node, b.node) && JsLess(b.node, a.node) {
      LexLessTransitive(Utf16Rank, c.node, b.node, a.node);
    }
  }

  /** Of two different strings exactly one comes first. */
  lemma JsOrder(a: string, b: string)
    ensures a != b ==> (JsLess(a, b) <==> !JsLess(b, a))
  {
    LexLessTotal(Utf16Rank, a, b);
    if JsLess(a, b) {
      LexLessAsymmetric(Utf16Rank, a, b);
    }
  }

  /**
   The values of the TypeScript moves: an increment shows a reading ahead with
   counter zero and else counts on; a merge counts on from the later stamp. Only
   the local node id, or the one given, appears in them.
   */
  lemma TsMoveValues(local: Stamp, remote: Stamp, node: Option<string>, now: nat)
    requires FitsJs(local) && FitsJs(remote)
    ensures IncrementHlc(local, node, now).node == (match node case Some(n) => n case None => local.node)
    ensures now > local.wall ==> IncrementHlc(local, node, now).wall == now && IncrementHlc(local, node, now).counter == 0
    ensures now <= local.wall ==>
              && IncrementHlc(local, node, now).wall == local.wall
              && (local.counter < JS_MAX ==> IncrementHlc(local, node, now).counter == local.counter + 1)
    ensures MergeHlc(local, remote).node == local.node
    ensures MergeHlc(local, remote).wall == Max(local.wall, remote.wall)
    ensures var top := if local.wall > remote.wall || (local.wall == remote.wall && local.counter > remote.counter)
                       then local.counter else remote.counter;
            top < JS_MAX ==> MergeHlc(local, remote).counter == top + 1
  {
  }

  /** The moves of the TypeScript clock are strictly newer than their causes exactly when they do not saturate. */
  lemma TsMovesDominateIff(local: Stamp, remote: Stamp, now: nat)
    requires FitsJs(local) && FitsJs(remote)
    ensures Dominates(IncrementHlc(local, None, now), local) <==> !IncrementSaturates(local, now)
    ensures (Dominates(MergeHlc(local, remote), local) && Dominates(MergeHlc(local, remote), remote))
            <==> !MergeSaturates(local, remote)
    ensures now <= JS_MAX ==> FitsJs(IncrementHlc(local, None, now)) && FitsJs(MergeHlc(local, remote))
  {
  }
}
