/** Outcome records and the scores computed from them, with and without key rotation. */
module Reputation {
  import opened Bytes
  import opened Crypto
  import opened Rotation
  import opened Sorting
  import opened Wilson

  datatype OutcomeRecord = OutcomeRecord(agent: AgentId, success: bool, weight: real, source: string)

  datatype ReputationScore = ReputationScore(agent: AgentId, successes: real, total: real, rate: real, score: real)

  // ----- Weighted sums -----

  /** Weight of the outcomes whose agent is kept. */
  function Total(records: seq<OutcomeRecord>, keep: AgentId -> bool): real {
    if records == [] then 0.0
    else
      var r := records[|records| - 1];
      Total(records[..|records| - 1], keep) + if keep(r.agent) then r.weight else 0.0
  }

  function Successes(records: seq<OutcomeRecord>, keep: AgentId -> bool): real {
    if records == [] then 0.0
    else
      var r := records[|records| - 1];
      Successes(records[..|records| - 1], keep) + if keep(r.agent) && r.success then r.weight else 0.0
  }

  predicate AllWeighted(records: seq<OutcomeRecord>) {
    forall i :: 0 <= i < |records| ==> records[i].weight > 0.0
  }

  lemma {:induction false} SumsAreOrdered(records: seq<OutcomeRecord>, keep: AgentId -> bool)
    requires AllWeighted(records)
    ensures 0.0 <= Successes(records, keep) <= Total(records, keep)
  {
    if records != [] {
      SumsAreOrdered(records[..|records| - 1], keep);
    }
  }

  lemma SumsStep(records: seq<OutcomeRecord>, r: OutcomeRecord, keep: AgentId -> bool)
    ensures Total(records + [r], keep) == Total(records, keep) + if keep(r.agent) then r.weight else 0.0
    ensures Successes(records + [r], keep)
            == Successes(records, keep) + if keep(r.agent) && r.success then r.weight else 0.0
  {
    assert (records + [r])[..|records|] == records;
  }

  function Summary(who: AgentId, successes: real, total: real, root: real -> real): ReputationScore {
    ReputationScore(who, successes, total, if total > 0.0 then successes / total else 0.0,
                    WilsonLowerBound(successes, total, root))
  }

  function Only(agent: AgentId): AgentId -> bool {
    a => a == agent
  }

  /** The keys that resolve to the same current identity as `agent`. */
  function ClassOf(current: AgentId -> AgentId, agent: AgentId): AgentId -> bool {
    a => current(a) == current(agent)
  }

  function ScoreOf(records: seq<OutcomeRecord>, agent: AgentId, root: real -> real): ReputationScore {
    Summary(agent, Successes(records, Only(agent)), Total(records, Only(agent)), root)
  }

  function ScoreVia(records: seq<OutcomeRecord>, agent: AgentId, current: AgentId -> AgentId,
                    root: real -> real): ReputationScore {
    Summary(current(agent), Successes(records, ClassOf(current, agent)), Total(records, ClassOf(current, agent)), root)
  }

  /** The rate is the share of weight that succeeded, and the score its Wilson bound. */
  lemma ScoreSays(records: seq<OutcomeRecord>, agent: AgentId, current: AgentId -> AgentId, root: real -> real)
    ensures var s, v := ScoreOf(records, agent, root), ScoreVia(records, agent, current, root);
            && s.agent == agent && v.agent == current(agent)
            && (s.total > 0.0 ==> s.rate * s.total == s.successes) && (s.total <= 0.0 ==> s.rate == 0.0)
            && (v.total > 0.0 ==> v.rate * v.total == v.successes) && (v.total <= 0.0 ==> v.rate == 0.0)
            && s.score == WilsonLowerBound(s.successes, s.total, root)
            && v.score == WilsonLowerBound(v.successes, v.total, root)
  {
  }

  /** An outcome's weight counts for its own agent, and through rotations for every key of
      that agent's identity; as a success only if it was one. */
  lemma OneMoreOutcome(records: seq<OutcomeRecord>, r: OutcomeRecord, agent: AgentId, current: AgentId -> AgentId,
                       root: real -> real)
    ensures var s, t := ScoreOf(records, agent, root), ScoreOf(records + [r], agent, root);
            && t.total == s.total + (if r.agent == agent then r.weight else 0.0)
            && t.successes == s.successes + if r.agent == agent && r.success then r.weight else 0.0
    ensures var s, t := ScoreVia(records, agent, current, root), ScoreVia(records + [r], agent, current, root);
            && t.total == s.total + (if current(r.agent) == current(agent) then r.weight else 0.0)
            && t.successes == s.successes + if current(r.agent) == current(agent) && r.success then r.weight else 0.0
  {
    SumsStep(records, r, Only(agent));
    SumsStep(records, r, ClassOf(current, agent));
  }

  /** An agent never observed has nothing to its name. */
  lemma NothingObserved(agent: AgentId, current: AgentId -> AgentId, root: real -> real)
    ensures ScoreOf([], agent, root) == ReputationScore(agent, 0.0, 0.0, 0.0, 0.0)
    ensures ScoreVia([], agent, current, root) == ReputationScore(current(agent), 0.0, 0.0, 0.0, 0.0)
  {
  }

  /** A recorded outcome moves no score the wrong way, its own agent's or any other's. */
  lemma RecordingMovesScoresTheRightWay(records: seq<OutcomeRecord>, r: OutcomeRecord, agent: AgentId,
                                        root: real -> real)
    requires IsSqrt(root) && AllWeighted(records) && r.weight > 0.0
    ensures r.success ==> ScoreOf(records, agent, root).score <= ScoreOf(records + [r], agent, root).score
    ensures !r.success ==> ScoreOf(records + [r], agent, root).score <= ScoreOf(records, agent, root).score
    ensures r.agent != agent ==> ScoreOf(records + [r], agent, root) == ScoreOf(records, agent, root)
  {
    var keep := Only(agent);
    SumsStep(records, r, keep);
    SumsAreOrdered(records, keep);
    if r.agent == agent {
      if r.success {
        SuccessNeverLowers(Successes(records, keep), Total(records, keep), r.weight, root);
      } else {
        FailureNeverRaises(Successes(records, keep), Total(records, keep), r.weight, root);
      }
    }
  }

  // ----- Rotation-aware scores -----

  lemma {:induction false} SumsDependOnTheSelection(records: seq<OutcomeRecord>, f: AgentId -> bool, g: AgentId -> bool)
    requires forall a :: f(a) == g(a)
    ensures Total(records, f) == Total(records, g) && Successes(records, f) == Successes(records, g)
  {
    if records != [] {
      SumsDependOnTheSelection(records[..|records| - 1], f, g);
    }
  }

  /** Keys with one current identity have one score, in every field. */
  lemma ScoreViaIsPerIdentity(records: seq<OutcomeRecord>, a: AgentId, b: AgentId, current: AgentId -> AgentId,
                              root: real -> real)
    requires current(a) == current(b)
    ensures ScoreVia(records, a, current, root) == ScoreVia(records, b, current, root)
  {
    SumsDependOnTheSelection(records, ClassOf(current, a), ClassOf(current, b));
  }

  /** Sum of the class totals of a list of representatives. */
  function SumOfTotals(records: seq<OutcomeRecord>, reps: seq<AgentId>, current: AgentId -> AgentId): real {
    if reps == [] then 0.0
    else SumOfTotals(records, reps[1..], current) + Total(records, ClassOf(current, reps[0]))
  }

  function SumOfSuccesses(records: seq<OutcomeRecord>, reps: seq<AgentId>, current: AgentId -> AgentId): real {
    if reps == [] then 0.0
    else SumOfSuccesses(records, reps[1..], current) + Successes(records, ClassOf(current, reps[0]))
  }

  function Anyone(): AgentId -> bool {
    _ => true
  }

  ghost predicate OnePerIdentity(reps: seq<AgentId>, current: AgentId -> AgentId) {
    forall i, j :: 0 <= i < j < |reps| ==> current(reps[i]) != current(reps[j])
  }

  predicate Represented(reps: seq<AgentId>, a: AgentId, current: AgentId -> AgentId) {
    exists i | 0 <= i < |reps| :: current(reps[i]) == current(a)
  }

  /** One more record adds its weight to exactly one representative. */
  lemma {:induction false} OneShare(records: seq<OutcomeRecord>, r: OutcomeRecord, reps: seq<AgentId>,
                                    current: AgentId -> AgentId)
    requires OnePerIdentity(reps, current)
    ensures SumOfTotals(records + [r], reps, current)
            == SumOfTotals(records, reps, current) + if Represented(reps, r.agent, current) then r.weight else 0.0
    ensures SumOfSuccesses(records + [r], reps, current)
            == SumOfSuccesses(records, reps, current)
               + if Represented(reps, r.agent, current) && r.success then r.weight else 0.0
  {
    if reps != [] {
      OneShare(records, r, reps[1..], current);
      SumsStep(records, r, ClassOf(current, reps[0]));
      if current(reps[0]) == current(r.agent) {
        assert Represented(reps, r.agent, current);
        assert !Represented(reps[1..], r.agent, current);
      } else if i :| 0 <= i < |reps| && current(reps[i]) == current(r.agent) {
        assert reps[1..][i - 1] == reps[i];
        assert Represented(reps[1..], r.agent, current);
      } else {
        assert !Represented(reps[1..], r.agent, current);
      }
    }
  }

  lemma {:induction false} NothingRecorded(reps: seq<AgentId>, current: AgentId -> AgentId)
    ensures SumOfTotals([], reps, current) == 0.0 && SumOfSuccesses([], reps, current) == 0.0
  {
    if reps != [] {
      NothingRecorded(reps[1..], current);
    }
  }

  /** Added over one representative per identity, the folded scores account for every
      recorded weight once: no outcome is lost and none is counted twice. */
  lemma {:induction false} FoldedScoresConserveWeight(records: seq<OutcomeRecord>, reps: seq<AgentId>,
                                        current: AgentId -> AgentId)
    requires OnePerIdentity(reps, current)
    requires forall i :: 0 <= i < |records| ==> Represented(reps, records[i].agent, current)
    ensures SumOfTotals(records, reps, current) == Total(records, Anyone())
    ensures SumOfSuccesses(records, reps, current) == Successes(records, Anyone())
  {
    if records == [] {
      NothingRecorded(reps, current);
    } else {
      var n := |records| - 1;
      FoldedScoresConserveWeight(records[..n], reps, current);
      OneShare(records[..n], records[n], reps, current);
      assert records == records[..n] + [records[n]];
    }
  }

  lemma {:induction false} SumsSplit(records: seq<OutcomeRecord>, f: AgentId -> bool, g: AgentId -> bool,
                                     h: AgentId -> bool)
    requires forall i :: 0 <= i < |records| ==>
      var a := records[i].agent;
      (f(a) <==> g(a) || h(a)) && !(g(a) && h(a))
    ensures Total(records, f) == Total(records, g) + Total(records, h)
    ensures Successes(records, f) == Successes(records, g) + Successes(records, h)
  {
    if records != [] {
      SumsSplit(records[..|records| - 1], f, g, h);
    }
  }

  /** Read through the two resolvers, the successor's class is the disjoint union of both. */
  ghost predicate Merges(before: AgentId -> AgentId, now: AgentId -> AgentId, o: AgentId, n: AgentId, a: AgentId) {
    && (now(a) == now(n) <==> before(a) == before(o) || before(a) == before(n))
    && before(o) != before(n)
  }

  lemma LinkMerges(next: Links, after: Links, o: AgentId, a: AgentId)
    requires o !in next && o in after && after == next[o := after[o]] && Ends(after, after[o]) && Ends(after, a)
    ensures Merges(Resolver(next), Resolver(after), o, after[o], a)
  {
    MergedClass(next, after, o, a);
    var f, g := Resolver(after), Resolver(next);
    assert f(a) == Resolve(after, a);
    assert f(after[o]) == Resolve(after, after[o]);
    assert g(a) == Resolve(next, a);
    assert g(o) == Resolve(next, o);
    assert g(after[o]) == Resolve(next, after[o]);
  }

  lemma MergingAddsSums(records: seq<OutcomeRecord>, before: AgentId -> AgentId, now: AgentId -> AgentId,
                        o: AgentId, n: AgentId)
    requires forall i :: 0 <= i < |records| ==> Merges(before, now, o, n, records[i].agent)
    ensures Total(records, ClassOf(now, n)) == Total(records, ClassOf(before, o)) + Total(records, ClassOf(before, n))
    ensures Successes(records, ClassOf(now, n))
            == Successes(records, ClassOf(before, o)) + Successes(records, ClassOf(before, n))
  {
    SumsSplit(records, ClassOf(now, n), ClassOf(before, o), ClassOf(before, n));
  }

  /** Rotating `o` to `n` gives `n` both standings, added. */
  lemma RotationAddsStandings(records: seq<OutcomeRecord>, next: Links, o: AgentId, n: AgentId,
                              before: AgentId -> AgentId, now: AgentId -> AgentId)
    requires o !in next && Ends(next[o := n], n)
    requires forall i :: 0 <= i < |records| ==> Ends(next[o := n], records[i].agent)
    requires before == Resolver(next) && now == Resolver(next[o := n])
    ensures Total(records, ClassOf(now, n)) == Total(records, ClassOf(before, o)) + Total(records, ClassOf(before, n))
    ensures Successes(records, ClassOf(now, n))
            == Successes(records, ClassOf(before, o)) + Successes(records, ClassOf(before, n))
  {
    forall i | 0 <= i < |records| ensures Merges(before, now, o, n, records[i].agent) {
      LinkMerges(next, next[o := n], o, records[i].agent);
    }
    MergingAddsSums(records, before, now, o, n);
  }

  // ----- The ledger -----

  /** Higher score, then larger total, then lower id. */
  predicate RanksBefore(a: ReputationScore, b: ReputationScore) {
    if a.score != b.score then a.score > b.score
    else if a.total != b.total then a.total > b.total
    else BytesLe(Hex(a.agent.key), Hex(b.agent.key))
  }

  lemma RanksBeforeIsTotal()
    ensures TotalPreorder(RanksBefore)
  {
    forall a, b ensures RanksBefore(a, b) || RanksBefore(b, a) {
      BytesLeTotal(Hex(a.agent.key), Hex(b.agent.key));
    }
    forall a, b, c | RanksBefore(a, b) && RanksBefore(b, c) ensures RanksBefore(a, c) {
      if a.score == b.score == c.score && a.total == b.total == c.total {
        BytesLeTransitive(Hex(a.agent.key), Hex(b.agent.key), Hex(c.agent.key));
      }
    }
  }

  /** A ranking goes down in score, among equal scores down in weight, and then up in id. */
  lemma RankingIsBestFirst(out: seq<ReputationScore>, i: nat, j: nat)
    requires Sorted(out, RanksBefore) && i < j < |out|
    ensures out[i].score >= out[j].score
    ensures out[i].score == out[j].score ==> out[i].total >= out[j].total
    ensures out[i].score == out[j].score && out[i].total == out[j].total
            ==> BytesLe(Hex(out[i].agent.key), Hex(out[j].agent.key))
  {
    assert RanksBefore(out[i], out[j]);
  }

  ghost predicate Observes(records: seq<OutcomeRecord>, a: AgentId) {
    exists k :: 0 <= k < |records| && records[k].agent == a
  }

  lemma ObservesStep(records: seq<OutcomeRecord>, r: OutcomeRecord)
    ensures forall a :: Observes(records + [r], a) <==> Observes(records, a) || a == r.agent
  {
    var all := records + [r];
    assert all[|records|] == r;
    forall a | Observes(records, a) ensures Observes(all, a) {
      var k :| 0 <= k < |records| && records[k].agent == a;
      assert all[k].agent == a;
    }
  }

  ghost predicate Scored(out: seq<ReputationScore>, a: AgentId) {
    exists k :: 0 <= k < |out| && out[k].agent == a
  }

  class ReputationLedger {
    var records: seq<OutcomeRecord>
    const root: real -> real

    constructor (root: real -> real)
      ensures records == [] && this.root == root
    {
      records := [];
      this.root := root;
    }

    /** Outcomes of no weight are ignored. */
    method Record(outcome: OutcomeRecord)
      modifies this`records
      ensures records == if outcome.weight > 0.0 then old(records) + [outcome] else old(records)
      ensures AllWeighted(old(records)) ==> AllWeighted(records)
    {
      if outcome.weight > 0.0 {
        records := records + [outcome];
      }
    }

    method Score(agent: AgentId) returns (r: ReputationScore)
      ensures r == ScoreOf(records, agent, root)
    {
      var successes, total := 0.0, 0.0;
      for i := 0 to |records|
        invariant total == Total(records[..i], Only(agent))
        invariant successes == Successes(records[..i], Only(agent))
      {
        SumsStep(records[..i], records[i], Only(agent));
        assert records[..i + 1] == records[..i] + [records[i]];
        if records[i].agent == agent {
          total := total + records[i].weight;
          if records[i].success {
            successes := successes + records[i].weight;
          }
        }
      }
      assert records[..|records|] == records;
      var rate := if total > 0.0 then successes / total else 0.0;
      r := ReputationScore(agent, successes, total, rate, WilsonLowerBound(successes, total, root));
    }

    method ScoreThrough(agent: AgentId, chain: RotationChain) returns (r: ReputationScore)
      ensures r == ScoreVia(records, agent, Resolver(chain.next), root)
    {
      var current := chain.Current(agent);
      ghost var keep := ClassOf(Resolver(chain.next), agent);
      var successes, total := 0.0, 0.0;
      for i := 0 to |records|
        invariant total == Total(records[..i], keep)
        invariant successes == Successes(records[..i], keep)
      {
        SumsStep(records[..i], records[i], keep);
        assert records[..i + 1] == records[..i] + [records[i]];
        var owner := chain.Current(records[i].agent);
        if owner == current {
          total := total + records[i].weight;
          if records[i].success {
            successes := successes + records[i].weight;
          }
        }
      }
      assert records[..|records|] == records;
      var rate := if total > 0.0 then successes / total else 0.0;
      r := ReputationScore(current, successes, total, rate, WilsonLowerBound(successes, total, root));
    }

    /** The observed agents, in order of first appearance. */
    method Observed() returns (agents: seq<AgentId>)
      ensures Distinct(agents)
      ensures forall a :: a in agents <==> Observes(records, a)
    {
      agents := [];
      for i := 0 to |records|
        invariant Distinct(agents)
        invariant forall a :: a in agents <==> Observes(records[..i], a)
      {
        assert records[..i + 1] == records[..i] + [records[i]];
        ObservesStep(records[..i], records[i]);
        if records[i].agent !in agents {
          agents := agents + [records[i].agent];
        }
      }
      assert records[..|records|] == records;
    }

    method ScoreAll(agents: seq<AgentId>) returns (scores: seq<ReputationScore>)
      ensures |scores| == |agents|
      ensures forall k :: 0 <= k < |agents| ==> scores[k] == ScoreOf(records, agents[k], root)
    {
      scores := [];
      for i := 0 to |agents|
        invariant |scores| == i
        invariant forall k :: 0 <= k < i ==> scores[k] == ScoreOf(records, agents[k], root)
      {
        var s := Score(agents[i]);
        scores := scores + [s];
      }
    }

    /** Every observed agent once, best first. */
    method Ranking() returns (out: seq<ReputationScore>)
      ensures Sorted(out, RanksBefore)
      ensures forall i, j :: 0 <= i < j < |out| ==> out[i].agent != out[j].agent
      ensures forall s :: s in out ==> s == ScoreOf(records, s.agent, root)
      ensures forall i :: 0 <= i < |records| ==> Scored(out, records[i].agent)
      ensures forall k :: 0 <= k < |out| ==> Observes(records, out[k].agent)
    {
      var agents := Observed();
      var scores := ScoreAll(agents);
      RanksBeforeIsTotal();
      out := Sort(scores, RanksBefore);
      RankingIsComplete(agents, scores, out);
      forall k | 0 <= k < |out| ensures Observes(records, out[k].agent) {
        assert Scored(out, out[k].agent);
      }
    }

    lemma RankingIsComplete(agents: seq<AgentId>, scores: seq<ReputationScore>, out: seq<ReputationScore>)
      requires Distinct(agents) && |scores| == |agents| && multiset(scores) == multiset(out)
      requires forall k :: 0 <= k < |agents| ==> scores[k] == ScoreOf(records, agents[k], root)
      ensures forall i, j :: 0 <= i < j < |out| ==> out[i].agent != out[j].agent
      ensures forall s :: s in out ==> s == ScoreOf(records, s.agent, root)
      ensures forall a :: a in agents <==> Scored(out, a)
    {
      forall s | s in out ensures s == ScoreOf(records, s.agent, root) && s.agent in agents {
        assert s in multiset(scores);
      }
      DistinctIsInvariant(scores, out);
      forall k | 0 <= k < |out| ensures out[k].agent in agents {
        assert out[k] in out;
      }
      forall a | a in agents ensures Scored(out, a) {
        var i :| 0 <= i < |agents| && agents[i] == a;
        assert scores[i] in multiset(out);
        var k :| 0 <= k < |out| && out[k] == scores[i];
      }
    }
  }
}
