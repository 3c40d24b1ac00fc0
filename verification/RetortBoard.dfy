/** What a finished Retort board says, in the figures of the submissions it was ranked from. */
module RetortBoard {
  import opened Bytes
  import opened Pareto
  import opened Wrappers
  import opened Retort
  import opened RetortOrder

  // ----- Rows -----

  lemma WinnerBehind(subs: seq<Submission>, best: map<Bytes, Submission>, rows: seq<Submission>, tiers: seq<nat>,
                     board: seq<Standing>, k: nat) returns (i: nat)
    requires IsBest(subs, best) && Listing(best, rows) && IsBoardWith(rows, tiers, board) && k < |board|
    ensures i < |subs| && Wins(subs, i, subs[i].handle) && BoardOrder(rows, tiers)[k].row == subs[i]
    ensures board[k] == StandingOf(k + 1, BoardOrder(rows, tiers)[k], board[k].insight)
  {
    var e := BoardOrder(rows, tiers)[k];
    var r := EntryOf(rows, tiers, e);
    assert rows[r].handle in best && best[rows[r].handle] == rows[r];
    i :| Wins(subs, i, e.row.handle) && best[e.row.handle] == subs[i];
  }

  /** Behind each row stands the first of its stack's highest-scoring submissions to the
      benchmark. */
  lemma RowIsOfTheBestSubmission(subs: seq<Submission>, board: seq<Standing>, k: nat) returns (i: nat, tier: nat)
    requires Ranks(subs, board) && k < |board|
    ensures i < |subs| && subs[i].benchmark == Ascii("retort-metaharness")
    ensures forall j | 0 <= j < |subs| && subs[j].benchmark == Ascii("retort-metaharness")
                       && subs[j].handle == subs[i].handle ::
              subs[j].score <= subs[i].score && (j < i ==> subs[j].score < subs[i].score)
    ensures board[k] == StandingOf(k + 1, Entry(subs[i], tier), board[k].insight)
  {
    var best, rows :| IsBest(subs, best) && Listing(best, rows) && IsBoard(rows, board);
    var tiers :| IsBoardWith(rows, tiers, board);
    i := WinnerBehind(subs, best, rows, tiers, board, k);
    tier := BoardOrder(rows, tiers)[k].tier;
  }

  /** It shows that submission's figures, and neutral ones where the detail is missing. */
  lemma RowShowsItsSubmission(rank: nat, s: Submission, tier: nat, text: Insight)
    ensures var row := StandingOf(rank, Entry(s, tier), text);
            && row.rank == rank && row.stack == s.handle && row.operator == s.competitor && row.coverage == s.score
            && row.passed == s.passed && row.total == s.total
            && row.paretoTier == tier && (row.paretoOptimal <==> tier == 1) && row.insight == text
            && match s.detail
               case None => && row.codeQuality == 0.0 && row.costUsd == 0.0 && row.costBin == "?"
                            && row.excludedTooling == 0 && row.dominantFactor.None?
                            && !row.isBaseline && row.reportedFrontier.None?
               case Some(d) => && row.codeQuality == d.codeQuality && row.costUsd == d.costUsd
                               && row.costBin == d.costBin && row.excludedTooling == d.excludedTooling
                               && row.dominantFactor == d.dominantFactor && row.isBaseline == d.isBaseline
                               && row.reportedFrontier == d.reportedFrontier
  {
  }

  /** Every stack with a submission to the benchmark has exactly one row. */
  lemma EveryStackIsRankedOnce(subs: seq<Submission>, board: seq<Standing>)
    requires Ranks(subs, board)
    ensures forall i :: 0 <= i < |subs| && subs[i].benchmark == Ascii("retort-metaharness")
                        ==> exists k :: 0 <= k < |board| && board[k].stack == subs[i].handle
    ensures forall j, k :: 0 <= j < k < |board| ==> board[j].stack != board[k].stack
  {
    var best, rows :| IsBest(subs, best) && Listing(best, rows) && IsBoard(rows, board);
    BoardIsComplete(best, rows, board);
  }

  // ----- Their order -----

  /** Row `x` may stand above row `y`: a lower tier, else a higher score, else a lower cost
      with a missing one last, else the handle that comes first. */
  lemma OrderOfTwo(x: Entry, y: Entry)
    requires EntryLe(x, y)
    ensures x.tier <= y.tier
    ensures x.tier == y.tier ==> x.row.score >= y.row.score
    ensures x.tier == y.tier && x.row.score == y.row.score && y.row.detail.Some?
            ==> x.row.detail.Some? && x.row.detail.value.costUsd <= y.row.detail.value.costUsd
    ensures x.tier == y.tier && x.row.score == y.row.score && x.row.detail.None? && y.row.detail.None?
            ==> BytesLe(x.row.handle, y.row.handle)
    ensures x.tier == y.tier && x.row.score == y.row.score && x.row.detail.Some? && y.row.detail.Some?
            && x.row.detail.value.costUsd == y.row.detail.value.costUsd
            ==> BytesLe(x.row.handle, y.row.handle)
  {
  }

  /** Down the board tiers rise; within a tier coverage falls, and never within a tier and a
      coverage does a row stand above a cheaper one, or one without a cost above one with
      it; what is left is in byte order of the handles. */
  lemma BoardIsInOrder(subs: seq<Submission>, board: seq<Standing>, j: nat, k: nat) returns (a: nat, b: nat)
    requires Ranks(subs, board) && j < k < |board|
    ensures a < |subs| && subs[a].handle == board[j].stack && subs[a].score == board[j].coverage
    ensures b < |subs| && subs[b].handle == board[k].stack && subs[b].score == board[k].coverage
    ensures subs[a].detail.Some? ==> board[j].costUsd == subs[a].detail.value.costUsd
    ensures subs[b].detail.Some? ==> board[k].costUsd == subs[b].detail.value.costUsd
    ensures board[j].paretoTier <= board[k].paretoTier
    ensures board[j].paretoTier == board[k].paretoTier ==> board[j].coverage >= board[k].coverage
    ensures board[j].paretoTier == board[k].paretoTier && board[j].coverage == board[k].coverage
            ==> && (subs[b].detail.Some? ==> subs[a].detail.Some? && board[j].costUsd <= board[k].costUsd)
                && (subs[a].detail.Some? == subs[b].detail.Some? && board[j].costUsd == board[k].costUsd
                    ==> BytesLe(board[j].stack, board[k].stack))
  {
    var best, rows :| IsBest(subs, best) && Listing(best, rows) && IsBoard(rows, board);
    var tiers :| IsBoardWith(rows, tiers, board);
    a := WinnerBehind(subs, best, rows, tiers, board, j);
    b := WinnerBehind(subs, best, rows, tiers, board, k);
    OrderOfTwo(BoardOrder(rows, tiers)[j], BoardOrder(rows, tiers)[k]);
  }

  /** A row is on the frontier exactly when no other is at least as accurate and as cheap up
      to 1e-9 and by more than that better on one side. */
  lemma FrontierRowsAreUnbeaten(rows: seq<Submission>, tiers: seq<nat>, i: nat)
    requires IsTiering(Points(rows), tiers) && i < |rows|
    ensures tiers[i] == 1 <==> forall j :: 0 <= j < |rows| ==> !Beats(rows[j], rows[i], 0.000000001)
  {
    assert forall j :: 0 <= j < |rows| ==>
             (Beats(rows[j], rows[i], EPS) <==> Dominates(Points(rows)[j], Points(rows)[i]));
    if tiers[i] > 1 {
      assert HasDominatorAt(Points(rows), tiers, i, tiers[i] - 1);
      var j :| 0 <= j < |rows| && tiers[j] == tiers[i] - 1 && Dominates(Points(rows)[j], Points(rows)[i]);
      assert Beats(rows[j], rows[i], EPS);
    }
  }

  ghost predicate Beats(a: Submission, b: Submission, slack: real) {
    && a.score + slack >= b.score
    && match (a.detail, b.detail)
       case (None, None) => a.score - slack > b.score
       case (None, Some(_)) => false
       case (Some(_), None) => true
       case (Some(c), Some(d)) => && c.costUsd <= d.costUsd + slack
                                  && (a.score - slack > b.score || c.costUsd < d.costUsd - slack)
  }

  // ----- The anchor -----

  lemma {:induction false} AnchorIsFirstOfFrontier(order: seq<Entry>)
    ensures Anchor(order).None? ==> forall k :: 0 <= k < |order| ==> order[k].tier != 1
    ensures Anchor(order).Some? ==>
              exists k :: 0 <= k < |order| && order[k].tier == 1 && Anchor(order).value == PointOf(order[k].row)
                          && forall j :: 0 <= j < k ==> order[j].tier != 1
  {
    if order != [] {
      if order[0].tier == 1 {
        assert Anchor(order).value == PointOf(order[0].row);
      } else {
        var rest := order[1..];
        AnchorIsFirstOfFrontier(rest);
        assert forall k :: 0 < k < |order| ==> order[k] == rest[k - 1];
        if Anchor(order).Some? {
          var k :| 0 <= k < |rest| && rest[k].tier == 1 && Anchor(rest).value == PointOf(rest[k].row)
                   && forall j :: 0 <= j < k ==> rest[j].tier != 1;
          assert order[k + 1] == rest[k];
        }
      }
    }
  }

  /** The row at place `k`, the first frontier row, against any other frontier row. */
  lemma FirstOfFrontierIsBest(rows: seq<Submission>, tiers: seq<nat>, k: nat, i: nat)
    requires |tiers| == |rows| && i < |rows| && tiers[i] == 1 && k < |rows|
    requires var order := BoardOrder(rows, tiers);
             order[k].tier == 1 && forall j :: 0 <= j < k ==> order[j].tier != 1
    ensures var top := BoardOrder(rows, tiers)[k].row;
            && rows[i].score <= top.score
            && (rows[i].score == top.score && rows[i].detail.Some?
                ==> top.detail.Some? && top.detail.value.costUsd <= rows[i].detail.value.costUsd)
  {
    var m := PlaceOf(rows, tiers, i);
    if k < m {
      OrderOfTwo(BoardOrder(rows, tiers)[k], BoardOrder(rows, tiers)[m]);
    }
  }

  lemma NoAnchorWithoutRows(rows: seq<Submission>, tiers: seq<nat>)
    requires IsTiering(Points(rows), tiers)
    ensures Anchor(BoardOrder(rows, tiers)).None? <==> rows == []
  {
    AnchorIsFirstOfFrontier(BoardOrder(rows, tiers));
    if rows != [] {
      var f := FrontierIsInhabited(Points(rows), tiers, 0);
      var k := PlaceOf(rows, tiers, f);
    }
  }

  /** The anchor is a frontier row of greatest coverage, one of the cheapest of those, and
      there is one exactly when there is a row. */
  lemma AnchorIsTheBestFrontierRow(rows: seq<Submission>, tiers: seq<nat>) returns (top: nat)
    requires IsTiering(Points(rows), tiers)
    ensures rows == [] <==> Anchor(BoardOrder(rows, tiers)).None?
    ensures rows != [] ==> top < |rows| && tiers[top] == 1
    ensures rows != [] ==> Anchor(BoardOrder(rows, tiers)) == Some(
              ParetoPoint(rows[top].score, match rows[top].detail case None => Infinite
                                                                  case Some(d) => Finite(d.costUsd)))
    ensures forall i | rows != [] && 0 <= i < |rows| && tiers[i] == 1 ::
              && rows[i].score <= rows[top].score
              && (rows[i].score == rows[top].score && rows[i].detail.Some?
                  ==> rows[top].detail.Some? && rows[top].detail.value.costUsd <= rows[i].detail.value.costUsd)
  {
    var order := BoardOrder(rows, tiers);
    NoAnchorWithoutRows(rows, tiers);
    top := 0;
    if rows != [] {
      AnchorIsFirstOfFrontier(order);
      var k :| 0 <= k < |order| && order[k].tier == 1 && Anchor(order).value == PointOf(order[k].row)
               && forall j :: 0 <= j < k ==> order[j].tier != 1;
      top := EntryOf(rows, tiers, order[k]);
      forall i | 0 <= i < |rows| && tiers[i] == 1
        ensures rows[i].score <= rows[top].score
        ensures rows[i].score == rows[top].score && rows[i].detail.Some?
                ==> rows[top].detail.Some? && rows[top].detail.value.costUsd <= rows[i].detail.value.costUsd
      {
        FirstOfFrontierIsBest(rows, tiers, k, i);
      }
    }
  }

  // ----- The sentences -----

  /** Nearest integer, the one farther from zero in the middle. */
  lemma RoundIsNearest(x: real)
    ensures x - 0.5 <= Round(x) as real <= x + 0.5
    ensures Round(x) as real == x - 0.5 ==> x < 0.0
    ensures Round(x) as real == x + 0.5 ==> x > 0.0
  {
  }

  /** Nothing unless `low` is the cheaper one, all of it against an infinite cost, and
      otherwise the nearest whole percentage. */
  lemma PctLowerIsNearestPercentage(low: Cost, high: Cost)
    ensures low.Infinite? ==> PctLower(low, high) == 0
    ensures low.Finite? && high.Infinite? ==> PctLower(low, high) == 100
    ensures low.Finite? && high.Finite? && (high.usd <= 0.0 || high.usd <= low.usd) ==> PctLower(low, high) == 0
    ensures low.Finite? && high.Finite? && low.usd < high.usd && high.usd > 0.0 ==>
              var pct := (1.0 - low.usd / high.usd) * 100.0;
              pct - 0.5 <= PctLower(low, high) as real <= pct + 0.5
  {
    if low.Finite? && high.Finite? && low.usd < high.usd && high.usd > 0.0 {
      RoundIsNearest((1.0 - low.usd / high.usd) * 100.0);
    }
  }

  /** A dominated row names a frontier row that dominates it, the cheapest, whenever one
      does: as reliable if coverages are within 0.02, else by how many points better. */
  lemma DominatedRowSays(points: seq<ParetoPoint>, tiers: seq<nat>, anchor: Option<ParetoPoint>,
                         me: ParetoPoint, tier: nat, text: Insight)
    requires |points| == |tiers| && tier > 1 && IsInsight(points, tiers, anchor, me, tier, text)
    ensures text == DominatedOnly <==> forall k :: 0 <= k < |points| && tiers[k] == 1 ==> !Dominates(points[k], me)
    ensures text != DominatedOnly ==>
              exists k :: && 0 <= k < |points| && tiers[k] == 1 && Dominates(points[k], me)
                          && (forall j :: 0 <= j < |points| && tiers[j] == 1 && Dominates(points[j], me)
                                          ==> points[k].cost == points[j].cost
                                              || (points[k].cost.Finite?
                                                  && (points[j].cost.Infinite?
                                                      || points[k].cost.usd < points[j].cost.usd)))
                          && DescribesDominator(points[k], me, text)
  {
    if text != DominatedOnly {
      var k: nat :| Cited(points, tiers, me, |points|, k) && text == DominatedText(points[k], me);
      RoundIsNearest((points[k].coverage - me.coverage) * 100.0);
      assert DescribesDominator(points[k], me, text);
      forall j: nat | j < |points| && tiers[j] == 1 && Dominates(points[j], me)
        ensures !points[j].cost.Below(points[k].cost, 0.0)
      {
        assert FrontierDominator(points, tiers, me, j);
      }
    } else {
      forall k: nat | k < |points| && tiers[k] == 1 ensures !Dominates(points[k], me) {
        assert !FrontierDominator(points, tiers, me, k);
      }
    }
  }

  ghost predicate DescribesDominator(dom: ParetoPoint, me: ParetoPoint, text: Insight) {
    var gain := dom.coverage - me.coverage;
    if -0.02 <= gain <= 0.02 then text == SameReliability(PctLower(dom.cost, me.cost))
    else text.FrontierGives? && text.cheaperPct == PctLower(dom.cost, me.cost)
         && gain * 100.0 - 0.5 <= text.pts as real <= gain * 100.0 + 0.5
  }

  /** A frontier row within the slack of the anchor on both axes is the most reliable; any
      other says how much cheaper it is and how many points it gives up. */
  lemma FrontierRowSays(points: seq<ParetoPoint>, tiers: seq<nat>, top: ParetoPoint, me: ParetoPoint, text: Insight)
    requires |points| == |tiers| && IsInsight(points, tiers, Some(top), me, 1, text)
    ensures var atTop := && top.coverage - 0.000000001 <= me.coverage <= top.coverage + 0.000000001
                         && top.cost.Finite? && me.cost.Finite?
                         && top.cost.usd - 0.000000001 <= me.cost.usd <= top.cost.usd + 0.000000001;
            if atTop then text == MostReliable(me.coverage, me.cost)
            else && text.CheaperThanTop? && text.cheaperPct == PctLower(me.cost, top.cost)
                 && var gap := (top.coverage - me.coverage) * 100.0;
                    gap - 0.5 <= text.pts as real <= gap + 0.5
    ensures text.CheaperThanTop? && top.cost.Finite? && me.cost.Finite? && me.cost.usd > 0.0
            ==> text.times == Times(top.cost.usd / me.cost.usd)
  {
    RoundIsNearest((top.coverage - me.coverage) * 100.0);
  }

  lemma FirstRowIsOnTheFrontier(rows: seq<Submission>, tiers: seq<nat>)
    requires IsTiering(Points(rows), tiers) && rows != []
    ensures BoardOrder(rows, tiers)[0].tier == 1
  {
    var f := FrontierIsInhabited(Points(rows), tiers, 0);
    var k := PlaceOf(rows, tiers, f);
    var e := EntryOf(rows, tiers, BoardOrder(rows, tiers)[0]);
    if k > 0 {
      OrderOfTwo(BoardOrder(rows, tiers)[0], BoardOrder(rows, tiers)[k]);
    }
  }

  lemma AnchorIsItself(order: seq<Entry>, text: Insight, points: seq<ParetoPoint>, tiers: seq<nat>)
    requires |points| == |tiers| && order != [] && order[0].tier == 1
    requires IsInsight(points, tiers, Anchor(order), PointOf(order[0].row), 1, text)
    ensures var s := order[0].row;
            s.detail.Some? ==> text == MostReliable(s.score, Finite(s.detail.value.costUsd))
  {
  }

  /** The first row is on the frontier, and if its cost is known it is called most reliable. */
  lemma FirstRowIsMostReliable(subs: seq<Submission>, board: seq<Standing>) returns (i: nat)
    requires Ranks(subs, board) && board != []
    ensures board[0].paretoOptimal
    ensures i < |subs| && subs[i].handle == board[0].stack && subs[i].score == board[0].coverage
    ensures subs[i].detail.Some? ==>
              board[0].insight == MostReliable(board[0].coverage, Finite(subs[i].detail.value.costUsd))
  {
    var best, rows :| IsBest(subs, best) && Listing(best, rows) && IsBoard(rows, board);
    var tiers :| IsBoardWith(rows, tiers, board);
    FirstRowIsOnTheFrontier(rows, tiers);
    i := WinnerBehind(subs, best, rows, tiers, board, 0);
    assert StandsAs(Points(rows), tiers, BoardOrder(rows, tiers), 0, board[0]);
    AnchorIsItself(BoardOrder(rows, tiers), board[0].insight, Points(rows), tiers);
  }

  // ----- The whole computation -----

  lemma ListOneMore(done: map<Bytes, Submission>, rows: seq<Submission>, s: Submission)
    requires Listing(done, rows) && s.handle !in done
    ensures Listing(done[s.handle := s], rows + [s])
  {
    var next := done[s.handle := s];
    forall h | h in next
      ensures exists i :: 0 <= i < |rows + [s]| && (rows + [s])[i].handle == h
    {
      if h in done {
        var i :| 0 <= i < |rows| && rows[i].handle == h;
        assert (rows + [s])[i].handle == h;
      } else {
        assert (rows + [s])[|rows|].handle == h;
      }
    }
  }

  /** The map's values, in an order the caller cannot predict. */
  method IntoValues(best: map<Bytes, Submission>) returns (rows: seq<Submission>)
    requires forall h :: h in best ==> best[h].handle == h
    ensures Listing(best, rows)
  {
    rows := [];
    var todo := best.Keys;
    ghost var done: map<Bytes, Submission> := map[];
    while todo != {}
      invariant todo <= best.Keys && done.Keys == best.Keys - todo
      invariant forall h :: h in done ==> done[h] == best[h]
      invariant Listing(done, rows)
      decreases |todo|
    {
      var h :| h in todo;
      ListOneMore(done, rows, best[h]);
      rows := rows + [best[h]];
      done := done[h := best[h]];
      todo := todo - {h};
    }
    assert done == best;
  }

  /** The board of the best submissions, whatever order the map yields them in. */
  method RankStacks(subs: seq<Submission>) returns (board: seq<Standing>)
    ensures Ranks(subs, board)
    ensures forall k :: 0 <= k < |board| ==> board[k].rank == k + 1
    ensures forall j, k :: 0 <= j < k < |board| ==> board[j].paretoTier <= board[k].paretoTier
    ensures forall j, k :: 0 <= j < k < |board| && board[j].paretoTier == board[k].paretoTier
                           ==> board[j].coverage >= board[k].coverage
  {
    var best := CollectBest(subs);
    var rows := IntoValues(best);
    board := RankRows(rows);
    BoardIsComplete(best, rows, board);
    forall j, k | 0 <= j < k < |board| && board[j].paretoTier == board[k].paretoTier
      ensures board[j].coverage >= board[k].coverage
    {
      var a, b := BoardIsInOrder(subs, board, j, k);
    }
  }
}
