/**
 Greedy non-maximum suppression over boxes with real coordinates. The score
 order is an input, because sorting leaves the order of equal scores open.
 */
module Nms {
  import opened Common

  datatype Box = Box(x1: real, y1: real, x2: real, y2: real)

  function MaxR(a: real, b: real): real {
    if a < b then b else a
  }

  function MinR(a: real, b: real): real {
    if a < b then a else b
  }

  function Area(b: Box): real {
    (b.x2 - b.x1) * (b.y2 - b.y1)
  }

  function Intersection(a: Box, b: Box): real {
    MaxR(0.0, MinR(a.x2, b.x2) - MaxR(a.x1, b.x1)) * MaxR(0.0, MinR(a.y2, b.y2) - MaxR(a.y1, b.y1))
  }

  /** Intersection over union; zero when the union is zero. */
  function Iou(a: Box, b: Box): real {
    var inter := Intersection(a, b);
    var union := Area(a) + Area(b) - inter;
    Ratio(inter, union)
  }

  function Ratio(inter: real, union: real): real {
    if union != 0.0 then inter / union else 0.0
  }

  lemma IouSymmetric(a: Box, b: Box)
    ensures Iou(a, b) == Iou(b, a)
  {
    assert MinR(a.x2, b.x2) == MinR(b.x2, a.x2) && MaxR(a.x1, b.x1) == MaxR(b.x1, a.x1);
    assert MinR(a.y2, b.y2) == MinR(b.y2, a.y2) && MaxR(a.y1, b.y1) == MaxR(b.y1, a.y1);
    assert Intersection(a, b) == Intersection(b, a);
  }

  // ----- what the overlap ratio is, on boxes whose corners are in order

  predicate Proper(b: Box) {
    b.x1 <= b.x2 && b.y1 <= b.y2
  }

  /** The length two intervals share: none, the inner one, or from the start of the one to the end of the other. */
  function SharedLength(l: real, h: real, m: real, k: real): real
    requires l <= h && m <= k
  {
    if h <= m || k <= l then 0.0
    else if m <= l && h <= k then h - l
    else if l <= m && k <= h then k - m
    else if l <= m then h - m
    else k - l
  }

  function SharedArea(a: Box, b: Box): real
    requires Proper(a) && Proper(b)
  {
    SharedLength(a.x1, a.x2, b.x1, b.x2) * SharedLength(a.y1, a.y2, b.y1, b.y2)
  }

  lemma IntersectionIsShared(a: Box, b: Box)
    requires Proper(a) && Proper(b)
    ensures Intersection(a, b) == SharedArea(a, b)
  {
    assert MaxR(0.0, MinR(a.x2, b.x2) - MaxR(a.x1, b.x1)) == SharedLength(a.x1, a.x2, b.x1, b.x2);
    assert MaxR(0.0, MinR(a.y2, b.y2) - MaxR(a.y1, b.y1)) == SharedLength(a.y1, a.y2, b.y1, b.y2);
  }

  lemma ProductsGrow(a: real, b: real, c: real, d: real)
    requires 0.0 <= a <= c && 0.0 <= b <= d
    ensures 0.0 <= a * b <= c * d
  {
    assert a * b <= a * d;
    assert a * d <= c * d;
  }

  /** Factors at most as large, with the same positive product, are the same. */
  lemma SameFactors(a: real, b: real, c: real, d: real)
    requires 0.0 <= a <= c && 0.0 <= b <= d && a * b == c * d > 0.0
    ensures a == c && b == d
  {
    assert a > 0.0 && b > 0.0;
    assert (c - a) * b >= 0.0 && c * (d - b) >= 0.0;
    assert (c - a) * b + c * (d - b) == 0.0;
  }

  /** The boxes share no more than either has. */
  lemma SharedAtMost(a: Box, b: Box)
    requires Proper(a) && Proper(b)
    ensures 0.0 <= SharedArea(a, b) <= Area(a) && SharedArea(a, b) <= Area(b)
  {
    var w, h := SharedLength(a.x1, a.x2, b.x1, b.x2), SharedLength(a.y1, a.y2, b.y1, b.y2);
    ProductsGrow(w, h, a.x2 - a.x1, a.y2 - a.y1);
    ProductsGrow(w, h, b.x2 - b.x1, b.y2 - b.y1);
  }

  lemma RatioTimes(s: real, u: real)
    requires u != 0.0
    ensures Ratio(s, u) * u == s
  {
  }

  /** The ratio times the area the boxes cover together is the area they share. */
  lemma IouEquation(a: Box, b: Box)
    requires Proper(a) && Proper(b)
    ensures Iou(a, b) * (Area(a) + Area(b) - SharedArea(a, b)) == SharedArea(a, b)
  {
    var s, u := SharedArea(a, b), Area(a) + Area(b) - SharedArea(a, b);
    IntersectionIsShared(a, b);
    SharedAtMost(a, b);
    assert Iou(a, b) == Ratio(s, u);
    if u != 0.0 {
      RatioTimes(s, u);
    }
  }

  lemma RatioRange(r: real, s: real, u: real)
    requires r * u == s && 0.0 <= s <= u && 0.0 < u
    ensures 0.0 <= r <= 1.0 && (r == 0.0 <==> s == 0.0) && (r == 1.0 <==> s == u)
  {
    assert r < 0.0 ==> r * u < 0.0;
    assert (r - 1.0) * u == s - u;
    assert r > 1.0 ==> (r - 1.0) * u > 0.0;
  }

  /** Between 0 and 1, and 0 exactly when nothing is shared. */
  lemma IouRange(a: Box, b: Box)
    requires Proper(a) && Proper(b)
    ensures 0.0 <= Iou(a, b) <= 1.0
    ensures Iou(a, b) == 0.0 <==> SharedArea(a, b) == 0.0
    ensures Iou(a, b) == 1.0 <==> SharedArea(a, b) == Area(a) == Area(b) > 0.0
  {
    var s, u := SharedArea(a, b), Area(a) + Area(b) - SharedArea(a, b);
    SharedAtMost(a, b);
    IouEquation(a, b);
    IntersectionIsShared(a, b);
    if u != 0.0 {
      RatioRange(Iou(a, b), s, u);
    }
  }

  /** Some point lies strictly inside both. */
  ghost predicate Overlap(a: Box, b: Box) {
    exists x: real, y: real :: Inside(a, x, y) && Inside(b, x, y)
  }

  predicate Inside(b: Box, x: real, y: real) {
    b.x1 < x < b.x2 && b.y1 < y < b.y2
  }

  lemma SharedPoint(l: real, h: real, m: real, k: real) returns (x: real)
    requires l <= h && m <= k && SharedLength(l, h, m, k) > 0.0
    ensures l < x < h && m < x < k
  {
    x := (MaxR(l, m) + MinR(h, k)) / 2.0;
  }

  /** Zero exactly for boxes that have no inner point in common. */
  lemma IouZeroIff(a: Box, b: Box)
    requires Proper(a) && Proper(b)
    ensures Iou(a, b) == 0.0 <==> !Overlap(a, b)
  {
    var w, h := SharedLength(a.x1, a.x2, b.x1, b.x2), SharedLength(a.y1, a.y2, b.y1, b.y2);
    IouRange(a, b);
    if w > 0.0 && h > 0.0 {
      assert w * h > 0.0;
      var x := SharedPoint(a.x1, a.x2, b.x1, b.x2);
      var y := SharedPoint(a.y1, a.y2, b.y1, b.y2);
      assert Inside(a, x, y) && Inside(b, x, y);
    } else {
      assert w == 0.0 || h == 0.0;
      assert w * h == 0.0;
    }
  }

  /** One exactly for a box of positive area and itself. */
  lemma IouOneIff(a: Box, b: Box)
    requires Proper(a) && Proper(b)
    ensures Iou(a, b) == 1.0 <==> a == b && Area(a) > 0.0
  {
    var w, h := SharedLength(a.x1, a.x2, b.x1, b.x2), SharedLength(a.y1, a.y2, b.y1, b.y2);
    IouRange(a, b);
    if Iou(a, b) == 1.0 {
      SameFactors(w, h, a.x2 - a.x1, a.y2 - a.y1);
      SameFactors(w, h, b.x2 - b.x1, b.y2 - b.y1);
    }
  }

  /** For a box inside another, the ratio of their areas. */
  lemma IouInside(a: Box, b: Box)
    requires Proper(a) && Proper(b) && Area(a) > 0.0
    requires a.x1 <= b.x1 && b.x2 <= a.x2 && a.y1 <= b.y1 && b.y2 <= a.y2
    ensures Iou(a, b) * Area(a) == Area(b)
  {
    assert SharedLength(a.x1, a.x2, b.x1, b.x2) == b.x2 - b.x1;
    assert SharedLength(a.y1, a.y2, b.y1, b.y2) == b.y2 - b.y1;
    assert SharedArea(a, b) == Area(b);
    IouEquation(a, b);
  }

  /** What `argsort()[::-1]` returns: every index once, by descending score. */
  ghost predicate IsScoreOrder(scores: seq<real>, order: seq<nat>) {
    && |order| == |scores|
    && (forall i :: 0 <= i < |order| ==> order[i] < |scores|)
    && Distinct(order)
    && (forall i, j :: 0 <= i < j < |order| ==> scores[order[i]] >= scores[order[j]])
  }

  ghost predicate Distinct(order: seq<nat>) {
    forall i, j :: 0 <= i < j < |order| ==> order[i] != order[j]
  }

  /** `ok(i, j)`: keeping box `i` does not suppress box `j`. */
  type Relation = (nat, nat) -> bool

  function Compatible(boxes: seq<Box>, threshold: real): Relation {
    (i: nat, j: nat) => i < |boxes| && j < |boxes| && Iou(boxes[i], boxes[j]) <= threshold
  }

  /** `order[1:][iou <= iou_threshold]`: the candidates that survive keeping `i`. */
  function Survivors(ok: Relation, i: nat, rest: seq<nat>): (r: seq<nat>)
    ensures |r| <= |rest| && forall x :: x in r <==> x in rest && ok(i, x)
  {
    if rest == [] then []
    else (if ok(i, rest[0]) then [rest[0]] else []) + Survivors(ok, i, rest[1..])
  }

  /** The loop without its cap: keep the first candidate, suppress, repeat. */
  function Greedy(ok: Relation, order: seq<nat>): seq<nat>
    decreases |order|
  {
    if order == [] then []
    else [order[0]] + Greedy(ok, Survivors(ok, order[0], order[1..]))
  }

  /** `nms`: the first `maxDetections` boxes the greedy loop would keep. */
  method SuppressNonMaxima(boxes: seq<Box>, scores: seq<real>, order: seq<nat>, threshold: real, maxDetections: int)
    returns (keep: seq<nat>)
    requires |scores| == |boxes| && IsScoreOrder(scores, order)
    ensures var all := Greedy(Compatible(boxes, threshold), order);
            keep == all[..Min(Max(0, maxDetections), |all|)]
  {
    if |boxes| == 0 {
      assert order == [];
      return [];
    }
    keep := SuppressLoop(boxes, order, threshold, maxDetections);
  }

  method SuppressLoop(boxes: seq<Box>, order: seq<nat>, threshold: real, maxDetections: int) returns (keep: seq<nat>)
    requires forall k :: 0 <= k < |order| ==> order[k] < |boxes|
    ensures var all := Greedy(Compatible(boxes, threshold), order);
            keep == all[..Min(Max(0, maxDetections), |all|)]
  {
    keep := [];
    ghost var ok := Compatible(boxes, threshold);
    ghost var all := Greedy(ok, order);
    var rest: seq<nat> := order;
    while |rest| > 0 && |keep| < maxDetections
      invariant forall k :: 0 <= k < |rest| ==> rest[k] < |boxes|
      invariant keep + Greedy(ok, rest) == all
      invariant |keep| <= Max(0, maxDetections)
      decreases |rest|
    {
      var i := rest[0];
      GreedyPeels(ok, keep, rest);
      keep := keep + [i];
      rest := SurvivorsLoop(boxes, threshold, i, rest[1..]);
    }
    PrefixOf(keep, Greedy(ok, rest));
  }

  lemma GreedyPeels(ok: Relation, keep: seq<nat>, rest: seq<nat>)
    requires rest != []
    ensures keep + Greedy(ok, rest) == keep + [rest[0]] + Greedy(ok, Survivors(ok, rest[0], rest[1..]))
  {
    var tail := Greedy(ok, Survivors(ok, rest[0], rest[1..]));
    assert keep + ([rest[0]] + tail) == keep + [rest[0]] + tail;
  }

  lemma PrefixOf(a: seq<nat>, b: seq<nat>)
    ensures (a + b)[..|a|] == a
  {
  }

  /** The vectorised suppression mask, element by element. */
  method SurvivorsLoop(boxes: seq<Box>, threshold: real, i: nat, rest: seq<nat>) returns (r: seq<nat>)
    requires i < |boxes| && forall k :: 0 <= k < |rest| ==> rest[k] < |boxes|
    ensures r == Survivors(Compatible(boxes, threshold), i, rest)
    ensures forall k :: 0 <= k < |r| ==> r[k] < |boxes|
  {
    r := [];
    var k := |rest|;
    while k > 0
      invariant 0 <= k <= |rest|
      invariant forall j :: 0 <= j < |r| ==> r[j] < |boxes|
      invariant r == Survivors(Compatible(boxes, threshold), i, rest[k..])
    {
      k := k - 1;
      assert rest[k..][1..] == rest[k + 1..];
      var iou := ComputeIou(boxes[i], boxes[rest[k]]);
      if iou <= threshold {
        r := [rest[k]] + r;
      }
    }
    assert rest[0..] == rest;
  }

  method ComputeIou(a: Box, b: Box) returns (iou: real)
    ensures iou == Iou(a, b)
  {
    var w := MaxR(0.0, MinR(a.x2, b.x2) - MaxR(a.x1, b.x1));
    var h := MaxR(0.0, MinR(a.y2, b.y2) - MaxR(a.y1, b.y1));
    var inter := w * h;
    var union := Area(a) + Area(b) - inter;
    iou := Ratio(inter, union);
  }

  // ----- the kernel: a definition without loops

  /** A box is kept exactly when no kept box of higher rank suppresses it. */
  ghost predicate IsKernel(ok: Relation, order: seq<nat>, kept: set<nat>) {
    && (forall x :: x in kept ==> x in order)
    && forall i :: 0 <= i < |order| ==> (order[i] in kept <==> Unopposed(ok, order, kept, i))
  }

  ghost predicate Unopposed(ok: Relation, order: seq<nat>, kept: set<nat>, i: int)
    requires 0 <= i < |order|
  {
    forall j :: 0 <= j < i && order[j] in kept ==> ok(order[j], order[i])
  }

  /** There is at most one kernel for a given order. */
  lemma {:induction false} KernelUnique(ok: Relation, order: seq<nat>, a: set<nat>, b: set<nat>, n: nat)
    requires n <= |order| && IsKernel(ok, order, a) && IsKernel(ok, order, b)
    ensures forall i :: 0 <= i < n ==> (order[i] in a <==> order[i] in b)
    ensures n == |order| ==> a == b
    decreases n
  {
    if n > 0 {
      KernelUnique(ok, order, a, b, n - 1);
      assert Unopposed(ok, order, a, n - 1) <==> Unopposed(ok, order, b, n - 1);
    }
    if n == |order| {
      forall x ensures x in a <==> x in b {
        if x in order {
          var i :| 0 <= i < |order| && order[i] == x;
        }
      }
    }
  }

  predicate Clear(ok: Relation, kept: seq<nat>, x: nat) {
    forall k :: k in kept ==> ok(k, x)
  }

  /** Left to right: keep each box that nothing kept so far suppresses. */
  function Select(ok: Relation, order: seq<nat>): (r: seq<nat>)
    ensures forall x :: x in r ==> x in order
  {
    if order == [] then []
    else
      var n := |order| - 1;
      var kept := Select(ok, order[..n]);
      if Clear(ok, kept, order[n]) then kept + [order[n]] else kept
  }

  /** A prefix of the order selects the selected boxes of that prefix. */
  lemma {:induction false} SelectPrefix(ok: Relation, order: seq<nat>, i: nat, x: nat)
    requires i <= |order| && Distinct(order)
    ensures x in Select(ok, order[..i]) <==> x in Select(ok, order) && x in order[..i]
    decreases |order|
  {
    if i < |order| {
      var n := |order| - 1;
      SelectPrefix(ok, order[..n], i, x);
      assert order[..n][..i] == order[..i];
      assert order[n] !in order[..i];
    } else {
      assert order[..i] == order;
    }
  }

  /** Whether the `i`-th box is selected depends on the boxes selected before it. */
  lemma SelectedIff(ok: Relation, order: seq<nat>, i: nat)
    requires i < |order| && Distinct(order)
    ensures order[i] in Select(ok, order) <==> Clear(ok, Select(ok, order[..i]), order[i])
  {
    var front := order[..i + 1];
    SelectPrefix(ok, order, i + 1, order[i]);
    assert front[..i] == order[..i] && front[i] == order[i];
    assert order[i] !in order[..i];
  }

  lemma SelectIsKernel(ok: Relation, order: seq<nat>)
    requires Distinct(order)
    ensures IsKernel(ok, order, set x | x in Select(ok, order))
  {
    var kept := set x | x in Select(ok, order);
    forall i | 0 <= i < |order| ensures order[i] in kept <==> Unopposed(ok, order, kept, i) {
      SelectedIff(ok, order, i);
      var before := Select(ok, order[..i]);
      forall j | 0 <= j < i && order[j] in kept ensures order[j] in before {
        assert order[..i][j] == order[j];
        SelectPrefix(ok, order, i, order[j]);
      }
      forall k | k in before ensures exists j :: 0 <= j < i && order[j] == k && k in kept {
        SelectPrefix(ok, order, i, k);
        var j :| 0 <= j < i && order[..i][j] == k;
        assert order[j] == k;
      }
    }
  }

  // ----- the loop keeps the kernel

  /** The candidates no kept box suppresses. */
  function Open(ok: Relation, kept: seq<nat>, order: seq<nat>): seq<nat> {
    if order == [] then []
    else (if Clear(ok, kept, order[0]) then [order[0]] else []) + Open(ok, kept, order[1..])
  }

  lemma {:induction false} OpenAfterKeeping(ok: Relation, kept: seq<nat>, i: nat, order: seq<nat>)
    ensures Survivors(ok, i, Open(ok, kept, order)) == Open(ok, kept + [i], order)
    decreases |order|
  {
    if order != [] {
      OpenAfterKeeping(ok, kept, i, order[1..]);
      var x, tail := order[0], Open(ok, kept, order[1..]);
      assert Clear(ok, kept + [i], x) <==> Clear(ok, kept, x) && ok(i, x) by {
        assert i in kept + [i];
      }
      if Clear(ok, kept, x) {
        assert ([x] + tail)[1..] == tail;
      } else {
        assert [] + tail == tail;
      }
    }
  }

  /** What the greedy loop still adds to `kept`, of the candidates in `order`. */
  function Continued(ok: Relation, kept: seq<nat>, order: seq<nat>): seq<nat> {
    kept + Greedy(ok, Open(ok, kept, order))
  }

  lemma ContinuedStep(ok: Relation, kept: seq<nat>, order: seq<nat>)
    requires order != []
    ensures Continued(ok, kept, order)
            == Continued(ok, if Clear(ok, kept, order[0]) then kept + [order[0]] else kept, order[1..])
  {
    var x, tail := order[0], order[1..];
    var open := Open(ok, kept, tail);
    if Clear(ok, kept, x) {
      OpenAfterKeeping(ok, kept, x, tail);
      assert ([x] + open)[1..] == open;
      var later := Greedy(ok, Survivors(ok, x, open));
      assert Greedy(ok, [x] + open) == [x] + later;
      assert kept + ([x] + later) == kept + [x] + later;
    } else {
      assert [] + open == open;
    }
  }

  /** Selecting on from a prefix is running the greedy loop on the open candidates after it. */
  lemma {:induction false} GreedyContinues(ok: Relation, order: seq<nat>, n: nat)
    requires n <= |order|
    ensures Continued(ok, Select(ok, order[..n]), order[n..]) == Select(ok, order)
    decreases |order| - n
  {
    if n == |order| {
      assert order[..n] == order && order[n..] == [];
    } else {
      GreedyContinues(ok, order, n + 1);
      assert order[..n + 1][..n] == order[..n] && order[n..][1..] == order[n + 1..];
      ContinuedStep(ok, Select(ok, order[..n]), order[n..]);
    }
  }

  lemma {:induction false} AllOpen(ok: Relation, order: seq<nat>)
    ensures Open(ok, [], order) == order
    decreases |order|
  {
    if order != [] {
      AllOpen(ok, order[1..]);
    }
  }

  lemma GreedyIsSelect(ok: Relation, order: seq<nat>)
    ensures Greedy(ok, order) == Select(ok, order)
  {
    GreedyContinues(ok, order, 0);
    AllOpen(ok, order);
    assert order[0..] == order && order[..0] == [];
    var g := Greedy(ok, order);
    assert [] + g == g;
  }

  /** Uncapped suppression computes the one kernel of its order. */
  lemma GreedyIsTheKernel(ok: Relation, order: seq<nat>, other: set<nat>)
    requires Distinct(order)
    ensures var kept := set x | x in Greedy(ok, order);
            && IsKernel(ok, order, kept)
            && (IsKernel(ok, order, other) ==> other == kept)
  {
    GreedyIsSelect(ok, order);
    SelectIsKernel(ok, order);
    var kept := set x | x in Greedy(ok, order);
    if IsKernel(ok, order, other) {
      KernelUnique(ok, order, other, kept, |order|);
    }
  }

  lemma {:induction false} SelectPairwise(ok: Relation, order: seq<nat>, a: nat, b: nat)
    requires a < b < |Select(ok, order)|
    ensures ok(Select(ok, order)[a], Select(ok, order)[b])
    decreases |order|
  {
    var n := |order| - 1;
    var kept := Select(ok, order[..n]);
    if b < |kept| {
      SelectPairwise(ok, order[..n], a, b);
    } else {
      assert kept[a] in kept;
    }
  }

  /** For boxes: the kept ones overlap pairwise at most by the threshold, whichever comes first. */
  lemma KeptPairwise(boxes: seq<Box>, threshold: real, order: seq<nat>, a: nat, b: nat)
    requires a < b < |Greedy(Compatible(boxes, threshold), order)|
    ensures var g := Greedy(Compatible(boxes, threshold), order);
            && g[a] < |boxes| && g[b] < |boxes|
            && Iou(boxes[g[a]], boxes[g[b]]) <= threshold && Iou(boxes[g[b]], boxes[g[a]]) <= threshold
  {
    var ok := Compatible(boxes, threshold);
    GreedyIsSelect(ok, order);
    SelectPairwise(ok, order, a, b);
    var g := Greedy(ok, order);
    IouSymmetric(boxes[g[a]], boxes[g[b]]);
  }

  /** For boxes: each dropped one overlaps a kept one of higher rank above the threshold. */
  lemma DroppedOverlaps(boxes: seq<Box>, threshold: real, order: seq<nat>, i: nat)
    requires Distinct(order) && (forall j :: 0 <= j < |order| ==> order[j] < |boxes|) && i < |order|
    requires order[i] !in Greedy(Compatible(boxes, threshold), order)
    ensures exists j :: 0 <= j < i && order[j] in Greedy(Compatible(boxes, threshold), order)
                        && Iou(boxes[order[j]], boxes[order[i]]) > threshold
  {
    var ok := Compatible(boxes, threshold);
    GreedyIsTheKernel(ok, order, {});
    var kept := set x | x in Greedy(ok, order);
    assert !Unopposed(ok, order, kept, i);
    var j :| 0 <= j < i && order[j] in kept && !ok(order[j], order[i]);
  }

  lemma {:induction false} SelectInOrder(ok: Relation, order: seq<nat>, a: nat, b: nat)
    requires a < b < |Select(ok, order)|
    ensures exists i, j :: 0 <= i < j < |order| && order[i] == Select(ok, order)[a] && order[j] == Select(ok, order)[b]
    decreases |order|
  {
    var n := |order| - 1;
    var kept := Select(ok, order[..n]);
    if b < |kept| {
      SelectInOrder(ok, order[..n], a, b);
      var i, j :| 0 <= i < j < n && order[..n][i] == kept[a] && order[..n][j] == kept[b];
      assert order[i] == kept[a] && order[j] == kept[b];
    } else {
      assert kept[a] in order[..n];
      var i :| 0 <= i < n && order[..n][i] == kept[a];
      assert order[i] == kept[a] && order[n] == Select(ok, order)[b];
    }
  }

  /** The kept boxes come by descending score. */
  lemma KeptByScore(ok: Relation, scores: seq<real>, order: seq<nat>, a: nat, b: nat)
    requires IsScoreOrder(scores, order) && a < b < |Greedy(ok, order)|
    ensures var g := Greedy(ok, order);
            g[a] < |scores| && g[b] < |scores| && scores[g[a]] >= scores[g[b]]
  {
    GreedyIsSelect(ok, order);
    SelectInOrder(ok, order, a, b);
  }
}
