/** The Retort board: stacks ranked by Pareto tier. Rows come out of a hash map, so they
    arrive in an order nobody chose. */
module Retort {
  import opened Bytes
  import opened Crypto
  import opened Pareto
  import opened Sorting
  import opened Wrappers

  const RETORT_BENCHMARK_ID: Bytes := Ascii("retort-metaharness")

  datatype Detail = Detail(
    codeQuality: real,
    costUsd: real,
    costBin: string,
    excludedTooling: nat,
    dominantFactor: Option<string>,
    isBaseline: bool,
    reportedFrontier: Option<bool>
  )

  datatype Submission = Submission(
    benchmark: Bytes,
    handle: Bytes,
    competitor: AgentId,
    score: real,
    passed: nat,
    total: nat,
    detail: Option<Detail>
  )

  // ----- Best submission per stack -----

  predicate Eligible(s: Submission, handle: Bytes) {
    s.benchmark == RETORT_BENCHMARK_ID && s.handle == handle
  }

  /** `subs[k]` is the first of the highest-scoring submissions for its stack. */
  ghost predicate Wins(subs: seq<Submission>, k: nat, handle: Bytes) {
    && k < |subs| && Eligible(subs[k], handle)
    && (forall j :: 0 <= j < |subs| && Eligible(subs[j], handle) ==> subs[j].score <= subs[k].score)
    && (forall j :: 0 <= j < k && Eligible(subs[j], handle) ==> subs[j].score < subs[k].score)
  }

  ghost predicate IsBest(subs: seq<Submission>, best: map<Bytes, Submission>) {
    && (forall k :: 0 <= k < |subs| && subs[k].benchmark == RETORT_BENCHMARK_ID ==> subs[k].handle in best)
    && (forall h :: h in best ==> exists k: nat :: Wins(subs, k, h) && best[h] == subs[k])
  }

  /** Whether `s` displaces what the map holds for its stack. */
  predicate Better(best: map<Bytes, Submission>, s: Submission) {
    s.handle in best ==> s.score > best[s.handle].score
  }

  lemma WinnerStays(seen: seq<Submission>, s: Submission, k: nat, h: Bytes)
    requires Wins(seen, k, h) && (Eligible(s, h) ==> s.score <= seen[k].score)
    ensures Wins(seen + [s], k, h)
  {
  }

  lemma WinnerChanges(seen: seq<Submission>, s: Submission, k: nat, h: Bytes)
    requires Wins(seen, k, h) && Eligible(s, h) && s.score > seen[k].score
    ensures Wins(seen + [s], |seen|, h)
  {
  }

  lemma BestStep(seen: seq<Submission>, best: map<Bytes, Submission>, s: Submission)
    requires IsBest(seen, best)
    ensures IsBest(seen + [s], if s.benchmark == RETORT_BENCHMARK_ID && Better(best, s)
                               then best[s.handle := s] else best)
  {
    var next := if s.benchmark == RETORT_BENCHMARK_ID && Better(best, s) then best[s.handle := s] else best;
    forall h | h in next
      ensures exists k: nat :: Wins(seen + [s], k, h) && next[h] == (seen + [s])[k]
    {
      if h in best {
        var k: nat :| Wins(seen, k, h) && best[h] == seen[k];
        if Eligible(s, h) && s.score > seen[k].score {
          WinnerChanges(seen, s, k, h);
        } else {
          WinnerStays(seen, s, k, h);
        }
      } else {
        assert Wins(seen + [s], |seen|, h);
      }
    }
  }

  method CollectBest(subs: seq<Submission>) returns (best: map<Bytes, Submission>)
    ensures IsBest(subs, best)
  {
    best := map[];
    for i := 0 to |subs|
      invariant IsBest(subs[..i], best)
    {
      var s := subs[i];
      BestStep(subs[..i], best, s);
      assert subs[..i + 1] == subs[..i] + [s];
      if s.benchmark != RETORT_BENCHMARK_ID {
        continue;
      }
      if Better(best, s) {
        best := best[s.handle := s];
      }
    }
    assert subs[..|subs|] == subs;
  }

  lemma WinnerIsUnique(subs: seq<Submission>, j: nat, k: nat, h: Bytes)
    requires Wins(subs, j, h) && Wins(subs, k, h)
    ensures j == k
  {
  }

  lemma BestIncludes(subs: seq<Submission>, a: map<Bytes, Submission>, b: map<Bytes, Submission>, h: Bytes)
    requires IsBest(subs, a) && IsBest(subs, b) && h in a
    ensures h in b && a[h] == b[h]
  {
    var j: nat :| Wins(subs, j, h) && a[h] == subs[j];
    assert subs[j].handle in b;
    var k: nat :| Wins(subs, k, h) && b[h] == subs[k];
    WinnerIsUnique(subs, j, k, h);
  }

  /** The submission list alone decides which rows reach the board. */
  lemma BestIsDetermined(subs: seq<Submission>, a: map<Bytes, Submission>, b: map<Bytes, Submission>)
    requires IsBest(subs, a) && IsBest(subs, b)
    ensures a == b
  {
    forall h | h in a ensures h in b && a[h] == b[h] {
      BestIncludes(subs, a, b, h);
    }
    forall h | h in b ensures h in a {
      BestIncludes(subs, b, a, h);
    }
  }

  // ----- Rows and their order -----

  function PointOf(s: Submission): ParetoPoint {
    ParetoPoint(s.score, if s.detail.Some? then Finite(s.detail.value.costUsd) else Infinite)
  }

  function Points(rows: seq<Submission>): (r: seq<ParetoPoint>)
    ensures |r| == |rows| && forall i :: 0 <= i < |rows| ==> r[i] == PointOf(rows[i])
  {
    seq(|rows|, i requires 0 <= i < |rows| => PointOf(rows[i]))
  }

  /** `rows` is one of the orders in which the map can yield its values. */
  ghost predicate Listing(best: map<Bytes, Submission>, rows: seq<Submission>) {
    && (forall i :: 0 <= i < |rows| ==> rows[i].handle in best && best[rows[i].handle] == rows[i])
    && (forall i, j :: 0 <= i < j < |rows| ==> rows[i].handle != rows[j].handle)
    && (forall h :: h in best ==> exists i :: 0 <= i < |rows| && rows[i].handle == h)
  }

  datatype Entry = Entry(row: Submission, tier: nat)

  function Entries(rows: seq<Submission>, tiers: seq<nat>): (r: seq<Entry>)
    requires |rows| == |tiers|
    ensures |r| == |rows| && forall i :: 0 <= i < |rows| ==> r[i] == Entry(rows[i], tiers[i])
  {
    seq(|rows|, i requires 0 <= i < |rows| => Entry(rows[i], tiers[i]))
  }

  /** Tier, then higher coverage, then lower cost, then handle. */
  predicate EntryLe(x: Entry, y: Entry) {
    var p, q := PointOf(x.row), PointOf(y.row);
    if x.tier != y.tier then x.tier < y.tier
    else if p.coverage != q.coverage then p.coverage > q.coverage
    else if p.cost != q.cost then p.cost.Below(q.cost, 0.0)
    else BytesLe(x.row.handle, y.row.handle)
  }

  lemma EntryLeIsTotal()
    ensures TotalPreorder(EntryLe)
  {
    forall a, b ensures EntryLe(a, b) || EntryLe(b, a) {
      BytesLeTotal(a.row.handle, b.row.handle);
    }
    forall a, b, c | EntryLe(a, b) && EntryLe(b, c) ensures EntryLe(a, c) {
      if a.tier == b.tier == c.tier && PointOf(a.row) == PointOf(b.row) == PointOf(c.row) {
        BytesLeTransitive(a.row.handle, b.row.handle, c.row.handle);
      }
    }
  }

  // ----- Insight text -----

  /** `f64::round`: to the nearest integer, halves away from zero. */
  function Round(x: real): int {
    if x >= 0.0 then (x + 0.5).Floor else -((-x + 0.5).Floor)
  }

  /** Percentage by which `low` is cheaper than `high`, 0 if it is not. */
  function PctLower(low: Cost, high: Cost): int {
    if (high.Finite? && high.usd <= 0.0) || !low.Below(high, 0.0) then 0
    else if high.Infinite? then 100
    else Round((1.0 - low.usd / high.usd) * 100.0)
  }

  /** The cost ratio the frontier text prints; `NotANumber` is infinity over infinity. */
  datatype Ratio = Times(x: real) | Unbounded | NotANumber

  function RatioOf(top: Cost, mine: Cost): Ratio {
    if mine.Finite? && mine.usd <= 0.0 then Unbounded
    else if mine.Infinite? then (if top.Infinite? then NotANumber else Times(0.0))
    else if top.Infinite? then Unbounded
    else Times(top.usd / mine.usd)
  }

  /** The numbers each insight sentence shows. */
  datatype Insight =
    | SameReliability(cheaperPct: int)
    | FrontierGives(pts: int, cheaperPct: int)
    | DominatedOnly
    | MostReliable(coverage: real, cost: Cost)
    | CheaperThanTop(cheaperPct: int, times: Ratio, pts: int)
    | FrontierOnly

  function Abs(x: real): real {
    if x >= 0.0 then x else -x
  }

  function DominatedText(dom: ParetoPoint, me: ParetoPoint): Insight {
    var cheaper := PctLower(dom.cost, me.cost);
    if Abs(dom.coverage - me.coverage) <= 0.02 then SameReliability(cheaper)
    else FrontierGives(Round((dom.coverage - me.coverage) * 100.0), cheaper)
  }

  function FrontierText(anchor: Option<ParetoPoint>, me: ParetoPoint): Insight {
    match anchor
    case None => FrontierOnly
    case Some(top) =>
      if Abs(top.coverage - me.coverage) <= EPS
         && top.cost.Finite? && me.cost.Finite? && Abs(top.cost.usd - me.cost.usd) <= EPS
      then MostReliable(me.coverage, me.cost)
      else CheaperThanTop(PctLower(me.cost, top.cost), RatioOf(top.cost, me.cost),
                          Round((top.coverage - me.coverage) * 100.0))
  }

  predicate FrontierDominator(points: seq<ParetoPoint>, tiers: seq<nat>, me: ParetoPoint, k: nat)
    requires |points| == |tiers|
  {
    k < |points| && tiers[k] == 1 && Dominates(points[k], me)
  }

  /** Among the first `n` points, no frontier dominator is strictly cheaper than `k`. */
  ghost predicate Cheapest(points: seq<ParetoPoint>, tiers: seq<nat>, me: ParetoPoint, n: nat, k: nat)
    requires |points| == |tiers|
  {
    && k < n && FrontierDominator(points, tiers, me, k)
    && (forall j: nat :: j < n && FrontierDominator(points, tiers, me, j)
                         ==> !points[j].cost.Below(points[k].cost, 0.0))
  }

  /** The dominator the insight cites: the first of the cheapest. */
  ghost predicate Cited(points: seq<ParetoPoint>, tiers: seq<nat>, me: ParetoPoint, n: nat, k: nat)
    requires |points| == |tiers|
  {
    && Cheapest(points, tiers, me, n, k)
    && (forall j: nat :: j < k && FrontierDominator(points, tiers, me, j)
                         ==> points[k].cost.Below(points[j].cost, 0.0))
  }

  ghost predicate IsInsight(points: seq<ParetoPoint>, tiers: seq<nat>, anchor: Option<ParetoPoint>,
                            me: ParetoPoint, tier: nat, text: Insight)
    requires |points| == |tiers|
  {
    if tier <= 1 then text == FrontierText(anchor, me)
    else
      || (exists k: nat :: Cited(points, tiers, me, |points|, k) && text == DominatedText(points[k], me))
      || (text == DominatedOnly && !exists k: nat :: FrontierDominator(points, tiers, me, k))
  }

  method InsightFor(me: ParetoPoint, tier: nat, anchor: Option<ParetoPoint>,
                    points: seq<ParetoPoint>, tiers: seq<nat>) returns (text: Insight)
    requires |points| == |tiers|
    ensures IsInsight(points, tiers, anchor, me, tier, text)
  {
    if tier > 1 {
      var dom: Option<nat> := None;
      for k := 0 to |points|
        invariant dom.None? ==> forall j: nat :: j < k ==> !FrontierDominator(points, tiers, me, j)
        invariant dom.Some? ==> Cited(points, tiers, me, k, dom.value)
      {
        if tiers[k] == 1 {
          if Dominates(points[k], me)
             && (dom.None? || points[k].cost.Below(points[dom.value].cost, 0.0)) {
            dom := Some(k);
          }
        }
      }
      return if dom.Some? then DominatedText(points[dom.value], me) else DominatedOnly;
    }
    return FrontierText(anchor, me);
  }

  // ----- The board -----

  datatype Standing = Standing(
    rank: nat,
    operator: AgentId,
    stack: Bytes,
    coverage: real,
    codeQuality: real,
    costUsd: real,
    costBin: string,
    passed: nat,
    total: nat,
    excludedTooling: nat,
    dominantFactor: Option<string>,
    paretoOptimal: bool,
    paretoTier: nat,
    isBaseline: bool,
    reportedFrontier: Option<bool>,
    insight: Insight
  )

  function StandingOf(rank: nat, e: Entry, insight: Insight): Standing {
    var s, d := e.row, e.row.detail;
    Standing(
      rank, s.competitor, s.handle, s.score,
      if d.Some? then d.value.codeQuality else 0.0,
      if d.Some? then d.value.costUsd else 0.0,
      if d.Some? then d.value.costBin else "?",
      s.passed, s.total,
      if d.Some? then d.value.excludedTooling else 0,
      if d.Some? then d.value.dominantFactor else None,
      e.tier == 1, e.tier,
      d.Some? && d.value.isBaseline,
      if d.Some? then d.value.reportedFrontier else None,
      insight)
  }

  /** The point of the first frontier row in board order. */
  function Anchor(order: seq<Entry>): Option<ParetoPoint> {
    if order == [] then None
    else if order[0].tier == 1 then Some(PointOf(order[0].row))
    else Anchor(order[1..])
  }

  function BoardOrder(rows: seq<Submission>, tiers: seq<nat>): (order: seq<Entry>)
    requires |rows| == |tiers|
    ensures multiset(order) == multiset(Entries(rows, tiers)) && Sorted(order, EntryLe)
    ensures |order| == |rows|
  {
    EntryLeIsTotal();
    Sort(Entries(rows, tiers), EntryLe)
  }

  ghost predicate IsBoardWith(rows: seq<Submission>, tiers: seq<nat>, board: seq<Standing>) {
    && IsTiering(Points(rows), tiers)
    && |board| == |rows|
    && forall k :: 0 <= k < |board| ==> StandsAs(Points(rows), tiers, BoardOrder(rows, tiers), k, board[k])
  }

  /** The `k`-th entry, numbered and commented on. */
  ghost predicate StandsAs(points: seq<ParetoPoint>, tiers: seq<nat>, order: seq<Entry>, k: nat, s: Standing)
    requires k < |order| && |points| == |tiers|
  {
    && s == StandingOf(k + 1, order[k], s.insight)
    && IsInsight(points, tiers, Anchor(order), PointOf(order[k].row), order[k].tier, s.insight)
  }

  ghost predicate IsBoard(rows: seq<Submission>, board: seq<Standing>) {
    exists tiers :: IsBoardWith(rows, tiers, board)
  }

  /** Rank the rows as the map happened to yield them. */
  method RankRows(rows: seq<Submission>) returns (board: seq<Standing>)
    ensures IsBoard(rows, board)
  {
    var points := Points(rows);
    var tiers := NondominatedTiers(points);
    var order := BoardOrder(rows, tiers);
    var anchor := Anchor(order);
    board := [];
    for k := 0 to |order|
      invariant |board| == k
      invariant forall i :: 0 <= i < k ==> StandsAs(points, tiers, order, i, board[i])
    {
      var insight := InsightFor(PointOf(order[k].row), order[k].tier, anchor, points, tiers);
      board := board + [StandingOf(k + 1, order[k], insight)];
    }
    assert IsBoardWith(rows, tiers, board);
  }

  // ----- Facts about one board -----

  lemma EntryOf(rows: seq<Submission>, tiers: seq<nat>, e: Entry) returns (i: nat)
    requires |rows| == |tiers| && e in BoardOrder(rows, tiers)
    ensures i < |rows| && e == Entry(rows[i], tiers[i])
  {
    assert e in multiset(Entries(rows, tiers));
    i :| 0 <= i < |rows| && Entries(rows, tiers)[i] == e;
  }

  lemma PlaceOf(rows: seq<Submission>, tiers: seq<nat>, i: nat) returns (k: nat)
    requires |rows| == |tiers| && i < |rows|
    ensures k < |rows| && BoardOrder(rows, tiers)[k] == Entry(rows[i], tiers[i])
  {
    var order := BoardOrder(rows, tiers);
    assert Entries(rows, tiers)[i] in multiset(order);
    k :| 0 <= k < |order| && order[k] == Entries(rows, tiers)[i];
  }

  lemma OrderIsDistinct(best: map<Bytes, Submission>, rows: seq<Submission>, tiers: seq<nat>)
    requires Listing(best, rows) && |tiers| == |rows|
    ensures Distinct(Entries(rows, tiers)) && Distinct(BoardOrder(rows, tiers))
  {
    DistinctIsInvariant(Entries(rows, tiers), BoardOrder(rows, tiers));
  }

  /** Ranks count from one, tiers never decrease down the board, and every stack of the
      map appears exactly once. */
  lemma BoardIsComplete(best: map<Bytes, Submission>, rows: seq<Submission>, board: seq<Standing>)
    requires Listing(best, rows) && IsBoard(rows, board)
    ensures forall k :: 0 <= k < |board| ==> board[k].rank == k + 1 && board[k].stack in best
    ensures forall j, k :: 0 <= j < k < |board| ==> board[j].paretoTier <= board[k].paretoTier
    ensures forall j, k :: 0 <= j < k < |board| ==> board[j].stack != board[k].stack
    ensures forall h :: h in best ==> exists k :: 0 <= k < |board| && board[k].stack == h
  {
    var tiers :| IsBoardWith(rows, tiers, board);
    var order := BoardOrder(rows, tiers);
    OrderIsDistinct(best, rows, tiers);
    forall k | 0 <= k < |board| ensures board[k].rank == k + 1 && board[k].stack in best {
      var i := EntryOf(rows, tiers, order[k]);
    }
    forall j, k | 0 <= j < k < |board|
      ensures board[j].stack != board[k].stack && board[j].paretoTier <= board[k].paretoTier
    {
      assert order[j] != order[k] && EntryLe(order[j], order[k]);
      var a := EntryOf(rows, tiers, order[j]);
      var b := EntryOf(rows, tiers, order[k]);
    }
    forall h | h in best ensures exists k :: 0 <= k < |board| && board[k].stack == h {
      var i :| 0 <= i < |rows| && rows[i].handle == h;
      var k := PlaceOf(rows, tiers, i);
      assert board[k].stack == h;
    }
  }

  /** Every second-tier row cites a frontier row that dominates it. */
  lemma SecondTierCitesTheFrontier(rows: seq<Submission>, tiers: seq<nat>, board: seq<Standing>, k: nat)
    requires IsBoardWith(rows, tiers, board) && k < |board| && board[k].paretoTier == 2
    ensures var me := PointOf(BoardOrder(rows, tiers)[k].row);
            exists j: nat :: Cited(Points(rows), tiers, me, |rows|, j)
                             && board[k].insight == DominatedText(Points(rows)[j], me)
  {
    var e := BoardOrder(rows, tiers)[k];
    var i := EntryOf(rows, tiers, e);
    assert board[k] == StandingOf(k + 1, e, board[k].insight);
    assert HasDominatorAt(Points(rows), tiers, i, tiers[i] - 1);
    var j :| 0 <= j < |tiers| && tiers[j] == 1 && Dominates(Points(rows)[j], Points(rows)[i]);
    assert FrontierDominator(Points(rows), tiers, PointOf(e.row), j);
  }

  /** So does every dominated row, of any tier, of a board on whose points dominance is
      transitive; it is when no two coverages and no two costs are within the slack without
      being equal (`SpreadPointsAreTransitive`). */
  lemma DominatedRowsCiteTheFrontierWhenTransitive(rows: seq<Submission>, tiers: seq<nat>, board: seq<Standing>, k: nat)
    requires IsBoardWith(rows, tiers, board) && k < |board| && board[k].paretoTier > 1
    requires Transitive(Points(rows))
    ensures var me := PointOf(BoardOrder(rows, tiers)[k].row);
            exists j: nat :: Cited(Points(rows), tiers, me, |rows|, j)
                             && board[k].insight == DominatedText(Points(rows)[j], me)
  {
    var e := BoardOrder(rows, tiers)[k];
    var i := EntryOf(rows, tiers, e);
    assert board[k] == StandingOf(k + 1, e, board[k].insight);
    TransitiveReachesTheFrontier(Points(rows), tiers, i);
    var j :| 0 <= j < |tiers| && tiers[j] == 1 && Dominates(Points(rows)[j], Points(rows)[i]);
    assert FrontierDominator(Points(rows), tiers, PointOf(e.row), j);
  }

  /** Past the second tier this fails: dominance is not transitive, so a third-tier point
      may have no dominator on the frontier and its insight names none. */
  lemma ThirdTierMayHaveNoFrontierDominator()
    ensures exists points, tiers :: Unexplained(points, tiers, 2)
  {
    var points := [ParetoPoint(0.0, Finite(0.0)), ParetoPoint(EPS, Finite(1.0)), ParetoPoint(EPS + EPS, Finite(2.0))];
    var tiers: seq<nat> := [1, 2, 3];
    assert HasDominatorAt(points, tiers, 1, 1) by {
      assert Dominates(points[0], points[1]);
    }
    assert HasDominatorAt(points, tiers, 2, 2) by {
      assert Dominates(points[1], points[2]);
    }
    assert Unexplained(points, tiers, 2);
  }

  ghost predicate Unexplained(points: seq<ParetoPoint>, tiers: seq<nat>, i: nat) {
    && IsTiering(points, tiers) && i < |tiers| && tiers[i] == 3
    && (forall k: nat :: !FrontierDominator(points, tiers, points[i], k))
  }
}
