/** How much of the Retort board depends on the order in which the hash map yields rows:
    nothing but the wording of some insights, and exactly when is stated below. */
module RetortOrder {
  import opened Bytes
  import opened Crypto
  import opened Pareto
  import opened Sorting
  import opened Wrappers
  import opened Retort

  // ----- Two listings of one map -----

  ghost function IndexOf(rows: seq<Submission>, h: Bytes): (i: nat)
    requires exists i :: 0 <= i < |rows| && rows[i].handle == h
    ensures i < |rows| && rows[i].handle == h
  {
    var i :| 0 <= i < |rows| && rows[i].handle == h;
    i
  }

  lemma ListedOnce(best: map<Bytes, Submission>, rows: seq<Submission>, other: seq<Submission>)
    requires Listing(best, rows) && Listing(best, other)
    ensures |rows| == |other|
    ensures forall s :: s in rows ==> s in other
  {
    forall s | s in rows ensures s in other {
      var i :| 0 <= i < |other| && other[i].handle == s.handle;
    }
    forall s | s in other ensures s in rows {
      var i :| 0 <= i < |rows| && rows[i].handle == s.handle;
    }
    SameElements(rows, other);
  }

  /** Any two listings are rearrangements of each other. */
  lemma Rearrangement(best: map<Bytes, Submission>, rows: seq<Submission>, other: seq<Submission>)
    returns (perm: seq<nat>, inv: seq<nat>)
    requires Listing(best, rows) && Listing(best, other)
    ensures |perm| == |rows| == |other| && Inverse(perm, inv)
    ensures other == Rearrange(rows, perm)
  {
    ListedOnce(best, rows, other);
    perm := seq(|other|, i requires 0 <= i < |other| => IndexOf(rows, other[i].handle));
    inv := seq(|rows|, i requires 0 <= i < |rows| => IndexOf(other, rows[i].handle));
    forall i | 0 <= i < |perm| ensures other[i] == rows[perm[i]] && inv[perm[i]] == i && perm[inv[i]] == i {
      assert rows[perm[i]].handle == other[i].handle;
      assert other[inv[i]].handle == rows[i].handle;
      assert other[inv[perm[i]]].handle == rows[perm[i]].handle;
      assert rows[perm[inv[i]]].handle == other[inv[i]].handle;
    }
  }

  lemma PointsFollowRows(rows: seq<Submission>, perm: seq<nat>)
    requires |perm| == |rows| && forall i :: 0 <= i < |perm| ==> perm[i] < |rows|
    ensures Points(Rearrange(rows, perm)) == Rearrange(Points(rows), perm)
  {
  }

  lemma TiersFollowRows(rows: seq<Submission>, tiers: seq<nat>, perm: seq<nat>, inv: seq<nat>, tiers2: seq<nat>)
    requires |perm| == |rows| && Inverse(perm, inv)
    requires IsTiering(Points(rows), tiers) && IsTiering(Points(Rearrange(rows, perm)), tiers2)
    ensures tiers2 == Rearrange(tiers, perm)
  {
    TiersFollowRearrangement(Points(rows), tiers, perm, inv);
    PointsFollowRows(rows, perm);
    TieringIsUnique(Points(Rearrange(rows, perm)), tiers2, Rearrange(tiers, perm));
  }

  lemma EntriesFollowRows(rows: seq<Submission>, tiers: seq<nat>, perm: seq<nat>, inv: seq<nat>, e: Entry)
    requires |tiers| == |perm| == |rows| && Inverse(perm, inv)
    ensures e in Entries(rows, tiers) <==> e in Entries(Rearrange(rows, perm), Rearrange(tiers, perm))
  {
    var es, es2 := Entries(rows, tiers), Entries(Rearrange(rows, perm), Rearrange(tiers, perm));
    if e in es {
      var i :| 0 <= i < |es| && es[i] == e;
      assert perm[inv[i]] == i && es2[inv[i]] == e;
    }
    if e in es2 {
      var i :| 0 <= i < |es2| && es2[i] == e;
      assert es[perm[i]] == e;
    }
  }

  lemma HandlesBreakTies(best: map<Bytes, Submission>, rows: seq<Submission>, tiers: seq<nat>, a: Entry, b: Entry)
    requires Listing(best, rows) && |tiers| == |rows|
    requires a in BoardOrder(rows, tiers) && b in BoardOrder(rows, tiers) && EntryLe(a, b) && EntryLe(b, a)
    ensures a == b
  {
    BytesLeTotal(a.row.handle, b.row.handle);
    assert a.row.handle == b.row.handle;
    var i := EntryOf(rows, tiers, a);
    var j := EntryOf(rows, tiers, b);
  }

  /** The row order of the board is the same from every listing: handles break every tie. */
  lemma OrderIsDetermined(best: map<Bytes, Submission>, rows: seq<Submission>, tiers: seq<nat>,
                          perm: seq<nat>, inv: seq<nat>)
    requires Listing(best, rows) && |tiers| == |perm| == |rows| && Inverse(perm, inv)
    requires Listing(best, Rearrange(rows, perm))
    ensures BoardOrder(rows, tiers) == BoardOrder(Rearrange(rows, perm), Rearrange(tiers, perm))
  {
    var rows2, tiers2 := Rearrange(rows, perm), Rearrange(tiers, perm);
    var es, es2, order := Entries(rows, tiers), Entries(rows2, tiers2), BoardOrder(rows, tiers);
    assert multiset(es) == multiset(es2) by {
      OrderIsDistinct(best, rows, tiers);
      OrderIsDistinct(best, rows2, tiers2);
      forall e ensures e in es <==> e in es2 {
        EntriesFollowRows(rows, tiers, perm, inv, e);
      }
      SameElements(es, es2);
    }
    forall a, b | a in order && b in order && EntryLe(a, b) && EntryLe(b, a) ensures a == b {
      HandlesBreakTies(best, rows, tiers, a, b);
    }
    SortedIsUnique(order, BoardOrder(rows2, tiers2), EntryLe);
  }

  /** Any two tiered listings of one map put the same rows in the same board order. */
  lemma SameOrder(best: map<Bytes, Submission>, rows: seq<Submission>, tiers: seq<nat>,
                  rows2: seq<Submission>, tiers2: seq<nat>) returns (perm: seq<nat>, inv: seq<nat>)
    requires Listing(best, rows) && Listing(best, rows2)
    requires IsTiering(Points(rows), tiers) && IsTiering(Points(rows2), tiers2)
    ensures |perm| == |rows| == |tiers| && Inverse(perm, inv)
    ensures rows2 == Rearrange(rows, perm) && tiers2 == Rearrange(tiers, perm)
    ensures BoardOrder(rows, tiers) == BoardOrder(rows2, tiers2)
  {
    perm, inv := Rearrangement(best, rows, rows2);
    TiersFollowRows(rows, tiers, perm, inv, tiers2);
    OrderIsDetermined(best, rows, tiers, perm, inv);
  }

  // ----- What every listing agrees on -----

  function Unworded(board: seq<Standing>): (r: seq<Standing>)
    ensures |r| == |board|
    ensures forall k :: 0 <= k < |board| ==> r[k] == board[k].(insight := FrontierOnly)
  {
    seq(|board|, k requires 0 <= k < |board| => board[k].(insight := FrontierOnly))
  }

  lemma StandingAt(rows: seq<Submission>, tiers: seq<nat>, board: seq<Standing>, k: nat)
    requires IsBoardWith(rows, tiers, board) && k < |board|
    ensures Unworded(board)[k] == StandingOf(k + 1, BoardOrder(rows, tiers)[k], FrontierOnly)
  {
  }

  /** Two boards ranked from two listings agree on every row, rank, tier and figure. */
  lemma BoardIgnoresMapOrder(best: map<Bytes, Submission>, rows: seq<Submission>, board: seq<Standing>,
                             rows2: seq<Submission>, board2: seq<Standing>)
    requires Listing(best, rows) && Listing(best, rows2)
    requires IsBoard(rows, board) && IsBoard(rows2, board2)
    ensures Unworded(board) == Unworded(board2)
  {
    var tiers :| IsBoardWith(rows, tiers, board);
    var tiers2 :| IsBoardWith(rows2, tiers2, board2);
    var perm, inv := SameOrder(best, rows, tiers, rows2, tiers2);
    forall k | 0 <= k < |board| ensures Unworded(board)[k] == Unworded(board2)[k] {
      StandingAt(rows, tiers, board, k);
      StandingAt(rows2, tiers2, board2, k);
    }
  }

  // ----- When the wording agrees too -----

  /** Whenever several frontier rows tie as cheapest dominator of a row, they would be
      described by the same words. */
  ghost predicate TiesAgree(rows: seq<Submission>, tiers: seq<nat>)
    requires |rows| == |tiers|
  {
    var points := Points(rows);
    forall i: nat, a: nat, b: nat ::
      i < |rows| && tiers[i] > 1
      && Cheapest(points, tiers, points[i], |rows|, a) && Cheapest(points, tiers, points[i], |rows|, b)
      ==> DominatedText(points[a], points[i]) == DominatedText(points[b], points[i])
  }

  lemma CheapestFollowsRows(rows: seq<Submission>, tiers: seq<nat>, perm: seq<nat>, inv: seq<nat>,
                            me: ParetoPoint, k: nat)
    requires |tiers| == |perm| == |rows| && Inverse(perm, inv) && k < |rows|
    ensures Cheapest(Points(Rearrange(rows, perm)), Rearrange(tiers, perm), me, |rows|, k)
            <==> Cheapest(Points(rows), tiers, me, |rows|, perm[k])
  {
    var p, t := Points(rows), tiers;
    var p2, t2 := Points(Rearrange(rows, perm)), Rearrange(tiers, perm);
    forall j: nat | j < |rows| ensures FrontierDominator(p2, t2, me, j) <==> FrontierDominator(p, t, me, perm[j]) {
    }
    forall j: nat | j < |rows| ensures FrontierDominator(p, t, me, j) <==> FrontierDominator(p2, t2, me, inv[j]) {
    }
    assert forall j: nat :: j < |rows| ==> p2[inv[j]] == p[j] && p2[j] == p[perm[j]];
  }

  lemma SameInsight(rows: seq<Submission>, tiers: seq<nat>, perm: seq<nat>, inv: seq<nat>,
                    anchor: Option<ParetoPoint>, i: nat, text: Insight, text2: Insight)
    requires |tiers| == |perm| == |rows| && Inverse(perm, inv) && TiesAgree(rows, tiers) && i < |rows|
    requires IsInsight(Points(rows), tiers, anchor, Points(rows)[i], tiers[i], text)
    requires IsInsight(Points(Rearrange(rows, perm)), Rearrange(tiers, perm), anchor, Points(rows)[i], tiers[i], text2)
    ensures text == text2
  {
    var p, me := Points(rows), Points(rows)[i];
    var p2, t2 := Points(Rearrange(rows, perm)), Rearrange(tiers, perm);
    if tiers[i] > 1 {
      if k: nat :| Cited(p, tiers, me, |p|, k) {
        assert FrontierDominator(p2, t2, me, inv[k]);
        var k2: nat :| Cited(p2, t2, me, |p2|, k2) && text2 == DominatedText(p2[k2], me);
        CheapestFollowsRows(rows, tiers, perm, inv, me, k2);
        assert Cheapest(p, tiers, me, |rows|, perm[k2]);
        var k1: nat :| Cited(p, tiers, me, |p|, k1) && text == DominatedText(p[k1], me);
        assert Cheapest(p, tiers, me, |rows|, k1);
      } else if k2: nat :| Cited(p2, t2, me, |p2|, k2) {
        assert FrontierDominator(p, tiers, me, perm[k2]);
      }
    }
  }

  lemma AgreeingTiesDetermineTheBoard(best: map<Bytes, Submission>, rows: seq<Submission>, tiers: seq<nat>,
                                      board: seq<Standing>, rows2: seq<Submission>, board2: seq<Standing>)
    requires Listing(best, rows) && Listing(best, rows2)
    requires IsBoardWith(rows, tiers, board) && IsBoard(rows2, board2)
    requires TiesAgree(rows, tiers)
    ensures board == board2
  {
    var tiers2 :| IsBoardWith(rows2, tiers2, board2);
    var perm, inv := SameOrder(best, rows, tiers, rows2, tiers2);
    var order := BoardOrder(rows, tiers);
    forall k | 0 <= k < |board| ensures board[k] == board2[k] {
      var i := EntryOf(rows, tiers, order[k]);
      SameInsight(rows, tiers, perm, inv, Anchor(order), i, board[k].insight, board2[k].insight);
    }
  }

  // ----- Otherwise another listing words it differently -----

  /** Bring row `x` to the front. */
  lemma FrontFirst(n: nat, x: nat) returns (perm: seq<nat>, inv: seq<nat>)
    requires x < n
    ensures |perm| == n && Inverse(perm, inv) && perm[0] == x && inv[x] == 0
  {
    perm := seq(n, i => if i == 0 then x else if i <= x then i - 1 else i);
    inv := seq(n, i => if i == x then 0 else if i < x then i + 1 else i);
  }

  lemma ListingRearranged(best: map<Bytes, Submission>, rows: seq<Submission>, perm: seq<nat>, inv: seq<nat>)
    requires Listing(best, rows) && |perm| == |rows| && Inverse(perm, inv)
    ensures Listing(best, Rearrange(rows, perm))
  {
    var rows2 := Rearrange(rows, perm);
    forall i, j | 0 <= i < j < |rows2| ensures rows2[i].handle != rows2[j].handle {
      assert inv[perm[i]] == i && inv[perm[j]] == j;
      assert rows[perm[i]].handle != rows[perm[j]].handle;
    }
    forall h | h in best ensures exists i :: 0 <= i < |rows2| && rows2[i].handle == h {
      var i :| 0 <= i < |rows| && rows[i].handle == h;
      assert perm[inv[i]] == i && rows2[inv[i]].handle == h;
    }
  }

  /** Every listing has a board. */
  lemma InsightExists(points: seq<ParetoPoint>, tiers: seq<nat>, anchor: Option<ParetoPoint>, me: ParetoPoint,
                      tier: nat)
    returns (text: Insight)
    requires |points| == |tiers|
    ensures IsInsight(points, tiers, anchor, me, tier, text)
  {
    if tier <= 1 {
      return FrontierText(anchor, me);
    }
    var dom: Option<nat> := None;
    for k := 0 to |points|
      invariant dom.None? ==> forall j: nat :: j < k ==> !FrontierDominator(points, tiers, me, j)
      invariant dom.Some? ==> Cited(points, tiers, me, k, dom.value)
    {
      if FrontierDominator(points, tiers, me, k)
         && (dom.None? || points[k].cost.Below(points[dom.value].cost, 0.0)) {
        dom := Some(k);
      }
    }
    text := if dom.Some? then DominatedText(points[dom.value], me) else DominatedOnly;
  }

  lemma BoardExists(rows: seq<Submission>, tiers: seq<nat>) returns (board: seq<Standing>)
    requires IsTiering(Points(rows), tiers)
    ensures IsBoardWith(rows, tiers, board)
  {
    var points, order := Points(rows), BoardOrder(rows, tiers);
    board := [];
    for k := 0 to |order|
      invariant |board| == k
      invariant forall i :: 0 <= i < k ==> StandsAs(points, tiers, order, i, board[i])
    {
      var text := InsightExists(points, tiers, Anchor(order), PointOf(order[k].row), order[k].tier);
      board := board + [StandingOf(k + 1, order[k], text)];
    }
  }

  /** With `x` listed first, a row that `x` dominates as cheaply as any cites `x`. */
  lemma FirstIsCited(rows: seq<Submission>, tiers: seq<nat>, perm: seq<nat>, inv: seq<nat>,
                     me: ParetoPoint, x: nat, anchor: Option<ParetoPoint>, tier: nat, text: Insight)
    requires |tiers| == |perm| == |rows| && Inverse(perm, inv) && x < |rows| && perm[0] == x && inv[x] == 0
    requires Cheapest(Points(rows), tiers, me, |rows|, x) && tier > 1
    requires IsInsight(Points(Rearrange(rows, perm)), Rearrange(tiers, perm), anchor, me, tier, text)
    ensures text == DominatedText(Points(rows)[x], me)
  {
    var p2, t2 := Points(Rearrange(rows, perm)), Rearrange(tiers, perm);
    CheapestFollowsRows(rows, tiers, perm, inv, me, 0);
    assert FrontierDominator(p2, t2, me, 0);
    var k: nat :| Cited(p2, t2, me, |p2|, k) && text == DominatedText(p2[k], me);
    assert k == 0;
  }

  /** A disagreeing tie: row `i`, at place `k`, has a cheapest dominator whose words are
      not the ones on the board. */
  lemma OtherWords(rows: seq<Submission>, tiers: seq<nat>, board: seq<Standing>) returns (i: nat, k: nat, x: nat)
    requires IsBoardWith(rows, tiers, board) && !TiesAgree(rows, tiers)
    ensures i < |rows| && tiers[i] > 1 && k < |rows| && x < |rows|
    ensures BoardOrder(rows, tiers)[k] == Entry(rows[i], tiers[i])
    ensures Cheapest(Points(rows), tiers, PointOf(rows[i]), |rows|, x)
    ensures board[k].insight != DominatedText(Points(rows)[x], PointOf(rows[i]))
  {
    var points := Points(rows);
    var r: nat, a: nat, b: nat :|
      r < |rows| && tiers[r] > 1
      && Cheapest(points, tiers, points[r], |rows|, a) && Cheapest(points, tiers, points[r], |rows|, b)
      && DominatedText(points[a], points[r]) != DominatedText(points[b], points[r]);
    i := r;
    k := PlaceOf(rows, tiers, i);
    x := if board[k].insight == DominatedText(points[a], points[i]) then b else a;
  }

  lemma TiesThatDisagree(best: map<Bytes, Submission>, rows: seq<Submission>, tiers: seq<nat>, board: seq<Standing>)
    returns (rows2: seq<Submission>, board2: seq<Standing>)
    requires Listing(best, rows) && IsBoardWith(rows, tiers, board) && !TiesAgree(rows, tiers)
    ensures Listing(best, rows2) && IsBoard(rows2, board2) && board2 != board
  {
    var i, k, x := OtherWords(rows, tiers, board);
    var perm, inv := FrontFirst(|rows|, x);
    rows2 := Rearrange(rows, perm);
    ListingRearranged(best, rows, perm, inv);
    assert IsTiering(Points(rows2), Rearrange(tiers, perm)) by {
      TiersFollowRearrangement(Points(rows), tiers, perm, inv);
      PointsFollowRows(rows, perm);
    }
    board2 := BoardExists(rows2, Rearrange(tiers, perm));
    OrderIsDetermined(best, rows, tiers, perm, inv);
    FirstIsCited(rows, tiers, perm, inv, PointOf(rows[i]), x, Anchor(BoardOrder(rows, tiers)),
                 tiers[i], board2[k].insight);
  }

  /** The whole board, wording included, is a function of the submissions alone exactly
      when ties among cheapest dominators are described alike. */
  lemma BoardIsDeterminedExactlyWhenTiesAgree(best: map<Bytes, Submission>, rows: seq<Submission>,
                                              tiers: seq<nat>, board: seq<Standing>)
    requires Listing(best, rows) && IsBoardWith(rows, tiers, board)
    ensures TiesAgree(rows, tiers) <==>
            forall rows2, board2 | Listing(best, rows2) && IsBoard(rows2, board2) :: board2 == board
  {
    if TiesAgree(rows, tiers) {
      forall rows2, board2 | Listing(best, rows2) && IsBoard(rows2, board2) ensures board2 == board {
        AgreeingTiesDetermineTheBoard(best, rows, tiers, board, rows2, board2);
      }
    } else {
      var rows2, board2 := TiesThatDisagree(best, rows, tiers, board);
    }
  }

  /** In particular it is, when no two frontier rows of equal cost differ in coverage. */
  lemma DistinctCostsSuffice(rows: seq<Submission>, tiers: seq<nat>)
    requires |rows| == |tiers|
    requires forall a: nat, b: nat | a < |rows| && b < |rows| && tiers[a] == 1 && tiers[b] == 1
               && PointOf(rows[a]).cost == PointOf(rows[b]).cost :: rows[a].score == rows[b].score
    ensures TiesAgree(rows, tiers)
  {
    var points := Points(rows);
    forall i: nat, a: nat, b: nat | i < |rows| && tiers[i] > 1
        && Cheapest(points, tiers, points[i], |rows|, a) && Cheapest(points, tiers, points[i], |rows|, b)
      ensures DominatedText(points[a], points[i]) == DominatedText(points[b], points[i])
    {
      assert points[a].cost == points[b].cost;
      assert points[a] == points[b];
    }
  }

  // ----- The whole computation -----

  /** `board` is what `rank_stacks` may return for `subs`. */
  ghost predicate Ranks(subs: seq<Submission>, board: seq<Standing>) {
    exists best, rows :: IsBest(subs, best) && Listing(best, rows) && IsBoard(rows, board)
  }

  /** Whatever the map order, one submission list gives one ranking. */
  lemma RankingIsAFunctionOfTheSubmissions(subs: seq<Submission>, board: seq<Standing>, board2: seq<Standing>)
    requires Ranks(subs, board) && Ranks(subs, board2)
    ensures Unworded(board) == Unworded(board2)
  {
    var best, rows :| IsBest(subs, best) && Listing(best, rows) && IsBoard(rows, board);
    var best2, rows2 :| IsBest(subs, best2) && Listing(best2, rows2) && IsBoard(rows2, board2);
    BestIsDetermined(subs, best, best2);
    BoardIgnoresMapOrder(best, rows, board, rows2, board2);
  }

  function Stack(handle: Bytes, coverage: real, cost: real): Submission {
    Submission(RETORT_BENCHMARK_ID, handle, AgentId(seq(32, _ => 0)), coverage, 0, 0,
               Some(Detail(0.0, cost, "", 0, None, false, None)))
  }

  /** One submission for each of several stacks. */
  predicate OnePerStack(subs: seq<Submission>) {
    && (forall i :: 0 <= i < |subs| ==> subs[i].benchmark == RETORT_BENCHMARK_ID)
    && (forall i, j :: 0 <= i < j < |subs| ==> subs[i].handle != subs[j].handle)
  }

  /** Two points of one cost whose coverage differs by half of EPS, on either side of the 0.02
      threshold as seen from a third that both dominate. */
  function TiedPoints(): seq<ParetoPoint> {
    [ParetoPoint(0.5, Finite(1.0)), ParetoPoint(0.5 + EPS / 2.0, Finite(1.0)),
     ParetoPoint(0.48 + EPS / 4.0, Finite(2.0))]
  }

  lemma TiedPointsTier(tiers: seq<nat>)
    requires tiers == [1, 1, 2]
    ensures IsTiering(TiedPoints(), tiers)
  {
    assert Dominates(TiedPoints()[0], TiedPoints()[2]);
    assert HasDominatorAt(TiedPoints(), tiers, 2, 1);
  }

  lemma TiedPointsDiffer(tiers: seq<nat>)
    requires tiers == [1, 1, 2]
    ensures var p := TiedPoints();
            && Cheapest(p, tiers, p[2], 3, 0) && Cheapest(p, tiers, p[2], 3, 1)
            && DominatedText(p[0], p[2]) != DominatedText(p[1], p[2])
  {
  }

  lemma TiedStacks() returns (subs: seq<Submission>, tiers: seq<nat>)
    ensures OnePerStack(subs) && IsTiering(Points(subs), tiers) && !TiesAgree(subs, tiers)
  {
    subs := [Stack([97], 0.5, 1.0), Stack([98], 0.5 + EPS / 2.0, 1.0), Stack([99], 0.48 + EPS / 4.0, 2.0)];
    tiers := [1, 1, 2];
    assert Points(subs) == TiedPoints();
    TiedPointsTier(tiers);
    TiedPointsDiffer(tiers);
  }

  /** Submissions of distinct stacks are all best, and listed as they came. */
  lemma DistinctStacksAreAllBest(subs: seq<Submission>) returns (best: map<Bytes, Submission>)
    requires OnePerStack(subs)
    ensures IsBest(subs, best) && Listing(best, subs)
  {
    best := map i | 0 <= i < |subs| :: subs[i].handle := subs[i];
    forall k: nat | k < |subs| ensures Wins(subs, k, subs[k].handle) && best[subs[k].handle] == subs[k] {
    }
  }

  lemma DisagreeingTiesGiveTwoBoards(subs: seq<Submission>, tiers: seq<nat>)
    returns (board: seq<Standing>, board2: seq<Standing>)
    requires OnePerStack(subs)
    requires IsTiering(Points(subs), tiers) && !TiesAgree(subs, tiers)
    ensures Ranks(subs, board) && Ranks(subs, board2) && board != board2
  {
    var best := DistinctStacksAreAllBest(subs);
    board := BoardExists(subs, tiers);
    var rows2;
    rows2, board2 := TiesThatDisagree(best, subs, tiers, board);
    assert IsBoard(subs, board);
  }

  /** Ties do disagree: one list of three submissions has two boards, and which of them
      `rank_stacks` returns is up to the map. */
  lemma TiesCanDisagree()
    ensures exists subs, board, board2 :: Ranks(subs, board) && Ranks(subs, board2) && board != board2
  {
    var subs, tiers := TiedStacks();
    var board, board2 := DisagreeingTiesGiveTwoBoards(subs, tiers);
  }
}
