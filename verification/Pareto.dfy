/** Non-dominated sorting in the accuracy-vs-cost plane, over exact reals. A missing cost
    is the program's `f64::INFINITY`. */
module Pareto {
  import opened Sorting

  datatype Cost = Finite(usd: real) | Infinite {
    /** `this <= that + slack` */
    predicate AtMost(that: Cost, slack: real) {
      that.Infinite? || (Finite? && usd <= that.usd + slack)
    }

    /** `this < that - slack` */
    predicate Below(that: Cost, slack: real) {
      Finite? && (that.Infinite? || usd < that.usd - slack)
    }
  }

  datatype ParetoPoint = ParetoPoint(coverage: real, cost: Cost)

  const EPS: real := 0.000000001

  /** At least as accurate and as cheap as `b` up to EPS, and better by more than EPS on
      one axis. */
  predicate Dominates(a: ParetoPoint, b: ParetoPoint) {
    && a.coverage >= b.coverage - EPS
    && a.cost.AtMost(b.cost, EPS)
    && (a.coverage > b.coverage + EPS || a.cost.Below(b.cost, EPS))
  }

  // ----- Dominance is acyclic though not transitive -----

  /** The potential order: a finite cost first, then a higher `coverage - cost`. */
  predicate Above(a: ParetoPoint, b: ParetoPoint) {
    if a.cost.Finite? && b.cost.Finite? then a.coverage - a.cost.usd > b.coverage - b.cost.usd
    else if a.cost.Infinite? && b.cost.Infinite? then a.coverage > b.coverage
    else a.cost.Finite?
  }

  /** Three points, each dominating the next, whose ends are incomparable. */
  lemma DominanceIsNotTransitive()
    ensures exists a, b, c :: Dominates(a, b) && Dominates(b, c) && !Dominates(a, c)
  {
    var a := ParetoPoint(0.0, Finite(0.0));
    var b := ParetoPoint(EPS, Finite(1.0));
    var c := ParetoPoint(EPS + EPS, Finite(2.0));
    assert Dominates(a, b) && Dominates(b, c) && !Dominates(a, c);
  }

  /** `chain` lists indices, each point dominating the next. */
  ghost predicate IsChain(points: seq<ParetoPoint>, chain: seq<nat>) {
    && chain != []
    && (forall k :: 0 <= k < |chain| ==> chain[k] < |points|)
    && (forall k :: 0 < k < |chain| ==> Dominates(points[chain[k - 1]], points[chain[k]]))
  }

  /** However long, a dominance chain never returns to where it was. */
  lemma {:induction false} DominanceIsAcyclic(points: seq<ParetoPoint>, chain: seq<nat>)
    requires IsChain(points, chain) && |chain| > 1
    ensures Above(points[chain[0]], points[chain[|chain| - 1]])
    ensures chain[0] != chain[|chain| - 1]
  {
    var n := |chain| - 1;
    assert Dominates(points[chain[n - 1]], points[chain[n]]);
    if n > 1 {
      DominanceIsAcyclic(points, chain[..n]);
    }
  }

  predicate Indices(s: seq<nat>, n: nat) {
    forall k :: 0 <= k < |s| ==> s[k] < n
  }

  /** An index of greatest potential among `remaining`. */
  lemma {:induction false} Topmost(points: seq<ParetoPoint>, remaining: seq<nat>) returns (i: nat)
    requires remaining != [] && Indices(remaining, |points|)
    ensures i in remaining
    ensures forall j :: j in remaining ==> !Above(points[j], points[i])
  {
    i := remaining[0];
    if |remaining| > 1 {
      var j := Topmost(points, remaining[1..]);
      if Above(points[j], points[i]) {
        i := j;
      }
      assert forall k :: k in remaining ==> k == remaining[0] || k in remaining[1..];
    }
  }

  /** The remaining indices no remaining point dominates. */
  function Front(points: seq<ParetoPoint>, remaining: seq<nat>, todo: seq<nat>): (front: seq<nat>)
    requires Indices(remaining, |points|)
    requires Indices(todo, |points|)
    ensures forall i :: i in front <==> i in todo && Undominated(points, remaining, i)
  {
    if todo == [] then []
    else (if Undominated(points, remaining, todo[0]) then [todo[0]] else []) + Front(points, remaining, todo[1..])
  }

  predicate Undominated(points: seq<ParetoPoint>, remaining: seq<nat>, i: nat)
    requires i < |points| && Indices(remaining, |points|)
  {
    !exists j | j in remaining :: j != i && Dominates(points[j], points[i])
  }

  /** A non-empty remainder always has a non-empty front, because the potential has a
      maximum on it; the program's fallback for an empty front never runs. */
  lemma FrontIsNeverEmpty(points: seq<ParetoPoint>, remaining: seq<nat>)
    requires remaining != [] && Indices(remaining, |points|)
    ensures Front(points, remaining, remaining) != []
  {
    var i := Topmost(points, remaining);
    assert Undominated(points, remaining, i);
    assert i in Front(points, remaining, remaining);
  }

  // ----- What the tiers mean -----

  /** Every dominator sits in a lower tier, and every tier past the first has a
      dominator exactly one tier down. */
  ghost predicate IsTiering(points: seq<ParetoPoint>, tier: seq<nat>) {
    && |tier| == |points|
    && (forall i :: 0 <= i < |tier| ==> tier[i] >= 1)
    && (forall i, j :: 0 <= i < |tier| && 0 <= j < |tier| && Dominates(points[j], points[i]) ==> tier[j] < tier[i])
    && (forall i {:trigger HasDominatorAt(points, tier, i, tier[i] - 1)} ::
          0 <= i < |tier| && tier[i] > 1 ==> HasDominatorAt(points, tier, i, tier[i] - 1))
  }

  ghost predicate HasDominatorAt(points: seq<ParetoPoint>, tier: seq<nat>, i: nat, t: nat)
    requires |tier| == |points| && i < |points|
  {
    exists j :: 0 <= j < |tier| && tier[j] == t && Dominates(points[j], points[i])
  }

  lemma {:induction false} ChainsAreShort(points: seq<ParetoPoint>, tier: seq<nat>, chain: seq<nat>)
    requires IsTiering(points, tier) && IsChain(points, chain)
    ensures |chain| <= tier[chain[|chain| - 1]]
  {
    var n := |chain| - 1;
    if n > 0 {
      assert Dominates(points[chain[n - 1]], points[chain[n]]);
      ChainsAreShort(points, tier, chain[..n]);
    }
  }

  lemma {:induction false} ChainOfTierLength(points: seq<ParetoPoint>, tier: seq<nat>, i: nat) returns (chain: seq<nat>)
    requires IsTiering(points, tier) && i < |tier|
    ensures IsChain(points, chain) && chain[|chain| - 1] == i && |chain| == tier[i]
    decreases tier[i]
  {
    if tier[i] == 1 {
      chain := [i];
    } else {
      assert HasDominatorAt(points, tier, i, tier[i] - 1);
      var j :| 0 <= j < |tier| && tier[j] == tier[i] - 1 && Dominates(points[j], points[i]);
      var c := ChainOfTierLength(points, tier, j);
      chain := c + [i];
    }
  }

  lemma FrontierIsInhabited(points: seq<ParetoPoint>, tier: seq<nat>, i: nat) returns (f: nat)
    requires IsTiering(points, tier) && i < |tier|
    ensures f < |tier| && tier[f] == 1
  {
    var c := ChainOfTierLength(points, tier, i);
    f := c[0];
    forall j | 0 <= j < |tier| && tier[j] == tier[f] - 1 ensures !Dominates(points[j], points[f]) {
      if Dominates(points[j], points[f]) {
        ChainsAreShort(points, tier, [j] + c);
      }
    }
    assert tier[f] > 1 ==> HasDominatorAt(points, tier, f, tier[f] - 1);
  }

  /** The tier of a point is the length of the longest dominance chain that ends at it. */
  lemma TierIsLongestChain(points: seq<ParetoPoint>, tier: seq<nat>, i: nat)
    requires IsTiering(points, tier) && i < |tier|
    ensures exists c :: IsChain(points, c) && c[|c| - 1] == i && |c| == tier[i]
    ensures forall c :: IsChain(points, c) && c[|c| - 1] == i ==> |c| <= tier[i]
  {
    var c := ChainOfTierLength(points, tier, i);
    forall c | IsChain(points, c) && c[|c| - 1] == i ensures |c| <= tier[i] {
      ChainsAreShort(points, tier, c);
    }
  }

  /** The points alone decide the tiers. */
  lemma TieringIsUnique(points: seq<ParetoPoint>, s: seq<nat>, t: seq<nat>)
    requires IsTiering(points, s) && IsTiering(points, t)
    ensures s == t
  {
    forall i | 0 <= i < |s| ensures s[i] == t[i] {
      var c := ChainOfTierLength(points, s, i);
      var d := ChainOfTierLength(points, t, i);
      ChainsAreShort(points, t, c);
      ChainsAreShort(points, s, d);
    }
  }

  /** `perm` rearranges the indices below `n`, and `inv` undoes it. */
  ghost predicate Inverse(perm: seq<nat>, inv: seq<nat>) {
    && |perm| == |inv|
    && (forall i :: 0 <= i < |perm| ==> perm[i] < |perm|)
    && (forall i :: 0 <= i < |inv| ==> inv[i] < |inv|)
    && (forall i {:trigger inv[perm[i]]} :: 0 <= i < |perm| ==> inv[perm[i]] == i)
    && (forall i {:trigger perm[inv[i]]} :: 0 <= i < |inv| ==> perm[inv[i]] == i)
  }

  function Rearrange<T>(s: seq<T>, perm: seq<nat>): (r: seq<T>)
    requires |perm| == |s| && forall i :: 0 <= i < |perm| ==> perm[i] < |s|
    ensures |r| == |s| && forall i :: 0 <= i < |perm| ==> r[i] == s[perm[i]]
  {
    seq(|perm|, i requires 0 <= i < |perm| => s[perm[i]])
  }

  lemma DominatorFollows(points: seq<ParetoPoint>, tier: seq<nat>, perm: seq<nat>, inv: seq<nat>, i: nat, t: nat)
    requires |tier| == |perm| == |points| && Inverse(perm, inv) && i < |perm|
    requires HasDominatorAt(points, tier, perm[i], t)
    ensures HasDominatorAt(Rearrange(points, perm), Rearrange(tier, perm), i, t)
  {
    var j :| 0 <= j < |tier| && tier[j] == t && Dominates(points[j], points[perm[i]]);
    assert perm[inv[j]] == j;
  }

  /** Rearranging the input rearranges the tiers the same way and changes nothing else. */
  lemma TiersFollowRearrangement(points: seq<ParetoPoint>, tier: seq<nat>, perm: seq<nat>, inv: seq<nat>)
    requires IsTiering(points, tier) && |perm| == |points| && Inverse(perm, inv)
    ensures IsTiering(Rearrange(points, perm), Rearrange(tier, perm))
  {
    var p, t := Rearrange(points, perm), Rearrange(tier, perm);
    forall i | 0 <= i < |t| && t[i] > 1 ensures HasDominatorAt(p, t, i, t[i] - 1) {
      DominatorFollows(points, tier, perm, inv, i, t[i] - 1);
    }
  }

  // ----- When the frontier dominates every point past it -----

  /** Dominance is transitive on these points. */
  predicate Transitive(points: seq<ParetoPoint>) {
    forall i, j, k | 0 <= i < |points| && 0 <= j < |points| && 0 <= k < |points|
                     && Dominates(points[i], points[j]) && Dominates(points[j], points[k])
      :: Dominates(points[i], points[k])
  }

  ghost predicate FrontierCovers(points: seq<ParetoPoint>, tier: seq<nat>)
    requires |tier| == |points|
  {
    forall i :: 0 <= i < |tier| && tier[i] > 1 ==> HasDominatorAt(points, tier, i, 1)
  }

  lemma {:induction false} TransitiveReachesTheFrontier(points: seq<ParetoPoint>, tier: seq<nat>, i: nat)
    requires IsTiering(points, tier) && Transitive(points) && i < |tier| && tier[i] > 1
    ensures HasDominatorAt(points, tier, i, 1)
    decreases tier[i]
  {
    assert HasDominatorAt(points, tier, i, tier[i] - 1);
    var j :| 0 <= j < |tier| && tier[j] == tier[i] - 1 && Dominates(points[j], points[i]);
    if tier[j] > 1 {
      TransitiveReachesTheFrontier(points, tier, j);
      var k :| 0 <= k < |tier| && tier[k] == 1 && Dominates(points[k], points[j]);
      assert Dominates(points[k], points[i]);
    }
  }

  /** Equal or more than the slack apart. */
  predicate Apart(x: real, y: real) {
    x == y || x > y + EPS || y > x + EPS
  }

  /** No two coverages, and no two finite costs, are within the slack without being equal. */
  predicate Spread(points: seq<ParetoPoint>) {
    forall i, j | 0 <= i < |points| && 0 <= j < |points| ::
      && Apart(points[i].coverage, points[j].coverage)
      && (points[i].cost.Finite? && points[j].cost.Finite? ==> Apart(points[i].cost.usd, points[j].cost.usd))
  }

  lemma SpreadPointsAreTransitive(points: seq<ParetoPoint>)
    requires Spread(points)
    ensures Transitive(points)
  {
    forall i, j, k | 0 <= i < |points| && 0 <= j < |points| && 0 <= k < |points|
                     && Dominates(points[i], points[j]) && Dominates(points[j], points[k])
      ensures Dominates(points[i], points[k])
    {
      var x, y, z := points[i], points[j], points[k];
      assert Apart(x.coverage, y.coverage) && Apart(y.coverage, z.coverage) && Apart(x.coverage, z.coverage);
    }
  }

  function Select<T>(s: seq<T>, sel: seq<nat>): (r: seq<T>)
    requires Indices(sel, |s|)
    ensures |r| == |sel| && forall k :: 0 <= k < |sel| ==> r[k] == s[sel[k]]
  {
    seq(|sel|, k requires 0 <= k < |sel| => s[sel[k]])
  }

  lemma DominatesMeansAbove(a: ParetoPoint, b: ParetoPoint)
    requires Dominates(a, b)
    ensures Above(a, b) && !Dominates(b, a)
  {
  }

  lemma TransitiveCoversSelections(points: seq<ParetoPoint>, sel: seq<nat>, tier: seq<nat>)
    requires Transitive(points) && Indices(sel, |points|) && IsTiering(Select(points, sel), tier)
    ensures FrontierCovers(Select(points, sel), tier)
  {
    var p := Select(points, sel);
    assert Transitive(p) by {
      forall i, j, k | 0 <= i < |p| && 0 <= j < |p| && 0 <= k < |p| && Dominates(p[i], p[j]) && Dominates(p[j], p[k])
        ensures Dominates(p[i], p[k])
      {
        assert Dominates(points[sel[i]], points[sel[j]]) && Dominates(points[sel[j]], points[sel[k]]);
      }
    }
    forall i | 0 <= i < |tier| && tier[i] > 1 ensures HasDominatorAt(p, tier, i, 1) {
      TransitiveReachesTheFrontier(p, tier, i);
    }
  }

  /** A selection of the points, each at most once, and its tiering. */
  ghost predicate Tiered(points: seq<ParetoPoint>, sel: seq<nat>, tier: seq<nat>) {
    Indices(sel, |points|) && Distinct(sel) && IsTiering(Select(points, sel), tier)
  }

  lemma TripleTiers(p: seq<ParetoPoint>)
    requires |p| == 3 && Dominates(p[0], p[1]) && Dominates(p[1], p[2]) && !Dominates(p[0], p[2])
    ensures IsTiering(p, [1, 2, 3]) && !FrontierCovers(p, [1, 2, 3])
  {
    var tier: seq<nat> := [1, 2, 3];
    DominatesMeansAbove(p[0], p[1]);
    DominatesMeansAbove(p[1], p[2]);
    if Dominates(p[2], p[0]) {
      DominatesMeansAbove(p[2], p[0]);
    }
    assert HasDominatorAt(p, tier, 1, 1) && HasDominatorAt(p, tier, 2, 2);
    assert !HasDominatorAt(p, tier, 2, 1);
  }

  /** Three points, each dominating the next but the first not the last: the last is in the
      third tier and nothing on the frontier dominates it. */
  lemma IntransitiveTriple(points: seq<ParetoPoint>, i: nat, j: nat, k: nat)
    requires i < |points| && j < |points| && k < |points|
    requires Dominates(points[i], points[j]) && Dominates(points[j], points[k]) && !Dominates(points[i], points[k])
    ensures Tiered(points, [i, j, k], [1, 2, 3]) && !FrontierCovers(Select(points, [i, j, k]), [1, 2, 3])
  {
    DominatesMeansAbove(points[i], points[j]);
    DominatesMeansAbove(points[j], points[k]);
    TripleTiers(Select(points, [i, j, k]));
  }

  /** Wherever dominance is not transitive, some selection has an uncovered point. */
  lemma IntransitiveLeavesAGap(points: seq<ParetoPoint>) returns (sel: seq<nat>, tier: seq<nat>)
    requires !Transitive(points)
    ensures Tiered(points, sel, tier) && !FrontierCovers(Select(points, sel), tier)
  {
    var i, j, k :| 0 <= i < |points| && 0 <= j < |points| && 0 <= k < |points|
                   && Dominates(points[i], points[j]) && Dominates(points[j], points[k])
                   && !Dominates(points[i], points[k]);
    IntransitiveTriple(points, i, j, k);
    sel, tier := [i, j, k], [1, 2, 3];
  }

  /** On every selection of the points each dominated point has a frontier dominator,
      exactly when dominance is transitive on the points. */
  lemma FrontierCoversEverySelectionExactlyWhenTransitive(points: seq<ParetoPoint>)
    ensures Transitive(points) <==>
            forall sel, tier | Tiered(points, sel, tier) :: FrontierCovers(Select(points, sel), tier)
  {
    if Transitive(points) {
      forall sel, tier | Tiered(points, sel, tier) ensures FrontierCovers(Select(points, sel), tier) {
        TransitiveCoversSelections(points, sel, tier);
      }
    } else {
      var sel, tier := IntransitiveLeavesAGap(points);
    }
  }

  // ----- The peeling loop -----

  /** `retain`: the indices not in the front. */
  function Without(remaining: seq<nat>, front: seq<nat>): (r: seq<nat>)
    ensures forall i :: i in r <==> i in remaining && i !in front
    ensures |r| <= |remaining|
    ensures (exists i :: i in remaining && i in front) ==> |r| < |remaining|
  {
    if remaining == [] then []
    else
      assert remaining == [remaining[0]] + remaining[1..];
      (if remaining[0] in front then [] else [remaining[0]]) + Without(remaining[1..], front)
  }

  /** After the rounds below `current`: a zero marks the points still to be placed. */
  ghost predicate PeeledBelow(points: seq<ParetoPoint>, tier: seq<nat>, current: nat) {
    && |tier| == |points| && current >= 1
    && (forall i :: 0 <= i < |tier| ==> tier[i] < current)
    && (forall i, j :: 0 <= i < |tier| && 0 <= j < |tier| && tier[i] != 0 && Dominates(points[j], points[i])
                       ==> 1 <= tier[j] < tier[i])
    && (forall i {:trigger HasDominatorAt(points, tier, i, tier[i] - 1)} ::
          0 <= i < |tier| && tier[i] > 1 ==> HasDominatorAt(points, tier, i, tier[i] - 1))
    && (forall i :: 0 <= i < |tier| && tier[i] == 0 && current > 1
                    ==> HasDominatorAt(points, tier, i, 0) || HasDominatorAt(points, tier, i, current - 1))
  }

  /** `remaining` lists exactly the points not placed yet. */
  ghost predicate Unplaced(remaining: seq<nat>, tier: seq<nat>) {
    && Indices(remaining, |tier|)
    && (forall i :: 0 <= i < |tier| ==> (i in remaining <==> tier[i] == 0))
  }

  ghost predicate Painted(tier: seq<nat>, front: seq<nat>, current: nat, next: seq<nat>) {
    |next| == |tier| && forall i :: 0 <= i < |tier| ==> next[i] == if i in front then current else tier[i]
  }

  lemma FrontSitsAboveDominators(points: seq<ParetoPoint>, tier: seq<nat>, next: seq<nat>, remaining: seq<nat>,
                                 front: seq<nat>, current: nat)
    requires PeeledBelow(points, tier, current) && Unplaced(remaining, tier)
    requires front == Front(points, remaining, remaining)
    requires Painted(tier, front, current, next)
    ensures forall i, j :: 0 <= i < |next| && 0 <= j < |next| && next[i] != 0 && Dominates(points[j], points[i])
              ==> 1 <= next[j] < next[i]
  {
    forall i, j | 0 <= i < |next| && 0 <= j < |next| && next[i] != 0 && Dominates(points[j], points[i])
      ensures 1 <= next[j] < next[i]
    {
      if i in front {
        assert Undominated(points, remaining, i) && j !in remaining;
      }
    }
  }

  lemma PlacedHaveDominators(points: seq<ParetoPoint>, tier: seq<nat>, next: seq<nat>, remaining: seq<nat>,
                             front: seq<nat>, current: nat, i: nat)
    requires PeeledBelow(points, tier, current) && Unplaced(remaining, tier)
    requires front == Front(points, remaining, remaining)
    requires Painted(tier, front, current, next)
    requires i < |next| && next[i] > 1
    ensures HasDominatorAt(points, next, i, next[i] - 1)
  {
    assert tier[i] == 0 || tier[i] > 1;
    var t := next[i] - 1;
    if i in front {
      assert Undominated(points, remaining, i);
      assert HasDominatorAt(points, tier, i, t);
    } else {
      assert HasDominatorAt(points, tier, i, tier[i] - 1);
    }
    var j :| 0 <= j < |tier| && tier[j] == t && Dominates(points[j], points[i]);
    assert next[j] == t;
  }

  /** One round keeps the invariant. */
  lemma PeelRound(points: seq<ParetoPoint>, tier: seq<nat>, next: seq<nat>, remaining: seq<nat>,
                  front: seq<nat>, current: nat)
    requires PeeledBelow(points, tier, current) && Unplaced(remaining, tier)
    requires front == Front(points, remaining, remaining)
    requires Painted(tier, front, current, next)
    ensures PeeledBelow(points, next, current + 1)
  {
    forall i | 0 <= i < |next| && next[i] > 1 ensures HasDominatorAt(points, next, i, next[i] - 1) {
      PlacedHaveDominators(points, tier, next, remaining, front, current, i);
    }
    forall i | 0 <= i < |next| && next[i] == 0
      ensures HasDominatorAt(points, next, i, 0) || HasDominatorAt(points, next, i, current)
    {
      assert i in remaining && !Undominated(points, remaining, i);
      var j :| j in remaining && j != i && Dominates(points[j], points[i]);
      assert next[j] == 0 || next[j] == current;
    }
    FrontSitsAboveDominators(points, tier, next, remaining, front, current);
  }

  lemma RoundShrinks(points: seq<ParetoPoint>, tier: seq<nat>, next: seq<nat>, remaining: seq<nat>,
                     front: seq<nat>, current: nat)
    requires |tier| == |points| && current >= 1 && Unplaced(remaining, tier) && remaining != []
    requires front == Front(points, remaining, remaining)
    requires Painted(tier, front, current, next)
    ensures Unplaced(Without(remaining, front), next)
    ensures |Without(remaining, front)| < |remaining|
  {
    FrontIsNeverEmpty(points, remaining);
    assert front[0] in remaining;
    var rest := Without(remaining, front);
    forall k | 0 <= k < |rest| ensures rest[k] < |next| {
      assert rest[k] in remaining;
    }
  }

  method Paint(tier: array<nat>, front: seq<nat>, current: nat)
    requires Indices(front, tier.Length)
    modifies tier
    ensures Painted(old(tier[..]), front, current, tier[..])
  {
    for k := 0 to |front|
      invariant Painted(old(tier[..]), front[..k], current, tier[..])
    {
      tier[front[k]] := current;
      assert front[..k + 1] == front[..k] + [front[k]];
    }
    assert front[..|front|] == front;
  }

  /** Peel off the front, give it the current tier, and repeat. */
  method NondominatedTiers(points: seq<ParetoPoint>) returns (tiers: seq<nat>)
    ensures IsTiering(points, tiers)
  {
    var n := |points|;
    var tier := new nat[n](_ => 0);
    var remaining: seq<nat> := seq(n, i => i);
    var current: nat := 1;
    forall i | 0 <= i < n ensures i in remaining {
      assert remaining[i] == i;
    }
    while remaining != []
      invariant Unplaced(remaining, tier[..])
      invariant PeeledBelow(points, tier[..], current)
      decreases |remaining|
    {
      var front := Front(points, remaining, remaining);
      FrontIsNeverEmpty(points, remaining);
      front := if front == [] then remaining else front;
      forall k | 0 <= k < |front| ensures front[k] < n {
        assert front[k] in front;
      }
      ghost var before := tier[..];
      Paint(tier, front, current);
      PeelRound(points, before, tier[..], remaining, front, current);
      RoundShrinks(points, before, tier[..], remaining, front, current);
      remaining := Without(remaining, front);
      current := current + 1;
    }
    tiers := tier[..];
  }
}
