/** Whether the index finds a stored vector when it is searched for that very vector. */
module LshRecall {
  import opened Lsh
  import opened Rvf
  import opened Sorting
  import opened VectorStore
  import opened Wrappers

  /** The positions behind an indexed answer, best first. */
  function Found(rs: seq<Record>, sigs: seq<Signature>, q: Signature, query: seq<Word>, topK: nat, budget: nat,
                 cosine: Similarity): seq<nat>
    requires SameWidth(sigs, q)
  {
    var ranked := RankedPositions(rs, Candidates(sigs, q, budget), query, cosine);
    ranked[..Min(topK, |ranked|)]
  }

  lemma HitsAreOfTheFound(rs: seq<Record>, sigs: seq<Signature>, q: Signature, query: seq<Word>, topK: nat,
                          budget: nat, cosine: Similarity)
    requires SameWidth(sigs, q) && |sigs| == |rs| && rs != []
    ensures IndexedHits(rs, sigs, q, query, topK, budget, cosine)
            == Map(HitAt(rs, query, cosine), Found(rs, sigs, q, query, topK, budget, cosine))
  {
    var c := Candidates(sigs, q, budget);
    var ranked := RankedPositions(rs, c, query, cosine);
    CandidatesAreNearest(sigs, q, budget);
    SearchRanksPositions(rs, c, query, cosine, topK);
    assert Map(HitAt(rs, query, cosine), ranked)[..Min(topK, |c|)]
        == Map(HitAt(rs, query, cosine), ranked[..Min(topK, |c|)]);
  }

  /** No stored vector is closer to the query than record `i`'s. */
  ghost predicate IsClosest(rs: seq<Record>, query: seq<Word>, cosine: Similarity, i: nat)
    requires i < |rs|
  {
    forall j: nat :: j < |rs| ==> ScoreAt(rs, query, cosine, j) <= ScoreAt(rs, query, cosine, i)
  }

  /** The earlier positions on the same side of every plane that score as well. */
  ghost function Rivals(rs: seq<Record>, sigs: seq<Signature>, q: Signature, query: seq<Word>, cosine: Similarity,
                        i: nat): set<nat>
    requires i <= |sigs|
  {
    set j | j in EarlierTwins(sigs, q, i) && ScoreAt(rs, query, cosine, j) == ScoreAt(rs, query, cosine, i)
  }

  lemma TwinsOfATwin(sigs: seq<Signature>, q: Signature, i: nat, j: nat, budget: nat)
    requires SameWidth(sigs, q) && i < |sigs| && sigs[i] == q
    requires i in Candidates(sigs, q, budget) && j in EarlierTwins(sigs, q, i)
    ensures j in Candidates(sigs, q, budget)
  {
    ExactMatchIsCandidateExactly(sigs, q, i, budget);
    ExactMatchIsCandidateExactly(sigs, q, j, budget);
    Fewer(EarlierTwins(sigs, q, j), EarlierTwins(sigs, q, i));
  }

  lemma Fewer(a: set<nat>, b: set<nat>)
    requires a <= b
    ensures |a| <= |b|
  {
    assert b == a + (b - a);
  }

  /** The candidates in rank order: by score, then distance, then position, each once. */
  lemma RankedCandidates(rs: seq<Record>, sigs: seq<Signature>, q: Signature, query: seq<Word>, budget: nat,
                         cosine: Similarity)
    requires SameWidth(sigs, q)
    ensures var ranked := RankedPositions(rs, Candidates(sigs, q, budget), query, cosine);
            && Distinct(ranked)
            && Sorted(ranked, Lex(Better(rs, query, cosine), Lex(Nearer(sigs, q), Earlier())))
            && forall j: nat :: j in ranked <==> j in Candidates(sigs, q, budget)
  {
    var c := Candidates(sigs, q, budget);
    var ranked := RankedPositions(rs, c, query, cosine);
    OrderIsByDistanceThenPosition(sigs, q);
    LexIsPreorder(Nearer(sigs, q), Earlier());
    SortIsStable(c, Better(rs, query, cosine), Lex(Nearer(sigs, q), Earlier()));
    DistinctIsInvariant(c, ranked);
    forall j: nat ensures j in ranked <==> j in c {
      assert j in ranked <==> j in multiset(ranked);
      assert j in c <==> j in multiset(c);
    }
  }

  /** Of two candidates, who ranks before an exact match that scores best. */
  lemma RanksBeforeClosest(rs: seq<Record>, sigs: seq<Signature>, q: Signature, query: seq<Word>,
                           cosine: Similarity, i: nat, j: nat)
    requires SameWidth(sigs, q) && |sigs| == |rs| && i < |rs| && j < |rs| && i != j
    requires sigs[i] == q && IsClosest(rs, query, cosine, i)
    ensures Lex(Better(rs, query, cosine), Lex(Nearer(sigs, q), Earlier()))(j, i)
            <==> j in Rivals(rs, sigs, q, query, cosine, i)
    ensures j in Rivals(rs, sigs, q, query, cosine, i)
            ==> !Lex(Better(rs, query, cosine), Lex(Nearer(sigs, q), Earlier()))(i, j)
  {
    HammingZeroIsEquality(q, q);
    HammingZeroIsEquality(sigs[j], q);
    assert Distance(sigs, q, i) == 0;
    assert Distance(sigs, q, j) == 0 <==> sigs[j] == q;
  }

  lemma PlaceOfClosest(rs: seq<Record>, sigs: seq<Signature>, q: Signature, query: seq<Word>, budget: nat,
                       cosine: Similarity, i: nat, p: nat)
    requires SameWidth(sigs, q) && |sigs| == |rs| && i < |rs| && sigs[i] == q && IsClosest(rs, query, cosine, i)
    requires var ranked := RankedPositions(rs, Candidates(sigs, q, budget), query, cosine);
             p < |ranked| && ranked[p] == i
    ensures |Rivals(rs, sigs, q, query, cosine, i)| == p
  {
    var ranked := RankedPositions(rs, Candidates(sigs, q, budget), query, cosine);
    RankedCandidates(rs, sigs, q, query, budget, cosine);
    assert ranked[p] in ranked;
    forall j: nat ensures j in ranked[..p] <==> j in Rivals(rs, sigs, q, query, cosine, i) {
      if j in ranked[..p] {
        FormerIsRival(rs, sigs, q, query, budget, cosine, ranked, i, p, j);
      }
      if j in Rivals(rs, sigs, q, query, cosine, i) {
        RivalIsFormer(rs, sigs, q, query, budget, cosine, ranked, i, p, j);
      }
    }
    assert Elements(ranked[..p]) == Rivals(rs, sigs, q, query, cosine, i);
    DistinctElements(ranked[..p]);
  }

  lemma FormerIsRival(rs: seq<Record>, sigs: seq<Signature>, q: Signature, query: seq<Word>, budget: nat,
                      cosine: Similarity, ranked: seq<nat>, i: nat, p: nat, j: nat)
    requires SameWidth(sigs, q) && |sigs| == |rs| && i < |rs| && sigs[i] == q && IsClosest(rs, query, cosine, i)
    requires ranked == RankedPositions(rs, Candidates(sigs, q, budget), query, cosine)
    requires p < |ranked| && ranked[p] == i && j in ranked[..p]
    ensures j in Rivals(rs, sigs, q, query, cosine, i)
  {
    RankedCandidates(rs, sigs, q, query, budget, cosine);
    CandidatesAreNearest(sigs, q, budget);
    var b :| 0 <= b < p && ranked[b] == j;
    assert ranked[b] in ranked;
    RanksBeforeClosest(rs, sigs, q, query, cosine, i, j);
  }

  lemma RivalIsFormer(rs: seq<Record>, sigs: seq<Signature>, q: Signature, query: seq<Word>, budget: nat,
                      cosine: Similarity, ranked: seq<nat>, i: nat, p: nat, j: nat)
    requires SameWidth(sigs, q) && |sigs| == |rs| && i < |rs| && sigs[i] == q && IsClosest(rs, query, cosine, i)
    requires ranked == RankedPositions(rs, Candidates(sigs, q, budget), query, cosine)
    requires p < |ranked| && ranked[p] == i && j in Rivals(rs, sigs, q, query, cosine, i)
    ensures j in ranked[..p]
  {
    RankedCandidates(rs, sigs, q, query, budget, cosine);
    assert ranked[p] in ranked;
    TwinsOfATwin(sigs, q, i, j, budget);
    assert j in ranked;
    var b :| 0 <= b < |ranked| && ranked[b] == j;
    RanksBeforeClosest(rs, sigs, q, query, cosine, i, j);
    var le := Lex(Better(rs, query, cosine), Lex(Nearer(sigs, q), Earlier()));
    assert forall k :: p < k < |ranked| ==> le(ranked[p], ranked[k]);
    assert ranked[..p][b] == j;
  }

  /** An exact match that scores best is among the hits exactly when it is a candidate and
      fewer than `topK` earlier ones with its signature score as well. */
  lemma ClosestIsFoundExactly(rs: seq<Record>, sigs: seq<Signature>, q: Signature, query: seq<Word>, topK: nat,
                              budget: nat, cosine: Similarity, i: nat)
    requires SameWidth(sigs, q) && |sigs| == |rs| && i < |rs| && sigs[i] == q && IsClosest(rs, query, cosine, i)
    ensures i in Found(rs, sigs, q, query, topK, budget, cosine) <==>
            |EarlierTwins(sigs, q, i)| < budget && |Rivals(rs, sigs, q, query, cosine, i)| < topK
  {
    var ranked := RankedPositions(rs, Candidates(sigs, q, budget), query, cosine);
    var found := Found(rs, sigs, q, query, topK, budget, cosine);
    RankedCandidates(rs, sigs, q, query, budget, cosine);
    ExactMatchIsCandidateExactly(sigs, q, i, budget);
    assert forall k :: 0 <= k < |found| ==> ranked[k] in found && found[k] == ranked[k] && found[k] in ranked;
    if i in ranked {
      var p :| 0 <= p < |ranked| && ranked[p] == i;
      PlaceOfClosest(rs, sigs, q, query, budget, cosine, i, p);
      if i in found {
        var a :| 0 <= a < |found| && found[a] == i;
        assert ranked[a] == ranked[p];
      }
    }
  }

  /** Searched for a stored vector through a fresh index, record `i` itself is among the
      hits exactly when fewer earlier records share its signature than the budget allows and
      fewer than `topK` of those score as well. */
  lemma EqualVectorIsFoundExactly(rs: seq<Record>, planes: seq<Plane>, side: Side, i: nat, topK: nat,
                                  maxCandidates: nat, cosine: Similarity)
    requires i < |rs| && IsClosest(rs, rs[i].vector, cosine, i)
    ensures var sigs, query := SignaturesOf(planes, rs, side), rs[i].vector;
            var q, budget := SignatureOf(planes, query, side), Max(maxCandidates, topK);
            i in Found(rs, sigs, q, query, topK, budget, cosine) <==>
            |EarlierTwins(sigs, q, i)| < budget && |Rivals(rs, sigs, q, query, cosine, i)| < topK
  {
    var sigs, query := SignaturesOf(planes, rs, side), rs[i].vector;
    ClosestIsFoundExactly(rs, sigs, SignatureOf(planes, query, side), query, topK, Max(maxCandidates, topK), cosine, i);
  }

  lemma FoundInRange(rs: seq<Record>, sigs: seq<Signature>, q: Signature, query: seq<Word>, topK: nat, budget: nat,
                     cosine: Similarity)
    requires SameWidth(sigs, q) && |sigs| == |rs|
    ensures forall k :: 0 <= k < |Found(rs, sigs, q, query, topK, budget, cosine)|
                        ==> Found(rs, sigs, q, query, topK, budget, cosine)[k] < |rs|
  {
    var found := Found(rs, sigs, q, query, topK, budget, cosine);
    var ranked := RankedPositions(rs, Candidates(sigs, q, budget), query, cosine);
    RankedCandidates(rs, sigs, q, query, budget, cosine);
    CandidatesAreNearest(sigs, q, budget);
    forall k | 0 <= k < |found| ensures found[k] < |rs| {
      assert found[k] == ranked[k] && ranked[k] in ranked;
    }
  }

  /** With distinct ids a hit tells its record. */
  lemma HitTellsItsRecord(rs: seq<Record>, found: seq<nat>, query: seq<Word>, cosine: Similarity, i: nat)
    requires DistinctIds(rs) && i < |rs| && forall k :: 0 <= k < |found| ==> found[k] < |rs|
    ensures HitOf(query, cosine)(rs[i]) in Map(HitAt(rs, query, cosine), found) <==> i in found
  {
    var hits, mine := Map(HitAt(rs, query, cosine), found), HitOf(query, cosine)(rs[i]);
    assert mine == HitAt(rs, query, cosine)(i);
    if mine in hits {
      var k :| 0 <= k < |hits| && hits[k] == mine;
      assert hits[k] == HitAt(rs, query, cosine)(found[k]);
      assert rs[found[k]].id == rs[i].id;
    }
    if i in found {
      var k :| 0 <= k < |found| && found[k] == i;
      assert hits[k] == mine;
    }
  }

  /** The same of a live index and store: what `search` returns for a stored vector. */
  method SearchForStored(index: LshIndex, store: RvfStore, i: nat, topK: nat, maxCandidates: nat, cosine: Similarity)
    returns (r: Result<seq<Hit>>)
    requires index.Valid() && store.Valid() && index.dim == store.dim && i < |store.records|
    requires index.sigs == SignaturesOf(index.planes, store.records, index.side)
    requires IsClosest(store.records, store.records[i].vector, cosine, i)
    ensures var rs, query := store.records, store.records[i].vector;
            var q, budget := SignatureOf(index.planes, query, index.side), Max(maxCandidates, topK);
            var found := Found(rs, index.sigs, q, query, topK, budget, cosine);
            && r == Ok(Map(HitAt(rs, query, cosine), found))
            && (i in found <==> |EarlierTwins(index.sigs, q, i)| < budget
                                && |Rivals(rs, index.sigs, q, query, cosine, i)| < topK)
            && (DistinctIds(rs) ==> (HitOf(query, cosine)(rs[i]) in r.value <==> i in found))
  {
    var query := store.records[i].vector;
    ghost var rs, q := store.records, SignatureOf(index.planes, query, index.side);
    ghost var budget := Max(maxCandidates, topK);
    HitsAreOfTheFound(rs, index.sigs, q, query, topK, budget, cosine);
    FoundInRange(rs, index.sigs, q, query, topK, budget, cosine);
    if DistinctIds(rs) {
      HitTellsItsRecord(rs, Found(rs, index.sigs, q, query, topK, budget, cosine), query, cosine, i);
    }
    EqualVectorIsFoundExactly(rs, index.planes, index.side, i, topK, maxCandidates, cosine);
    r := index.Search(store, query, topK, maxCandidates, cosine);
  }

  // ----- Both ways of missing it -----

  /** The same side of every plane, as two positive multiples of one vector are. */
  ghost predicate SameSides(planes: seq<Plane>, side: Side, one: seq<Word>, two: seq<Word>) {
    forall k :: 0 <= k < |planes| ==> side(planes[k], one) == side(planes[k], two)
  }

  function Pair(one: seq<Word>, two: seq<Word>, meta: Json): (rs: seq<Record>)
    ensures DistinctIds(rs)
  {
    [Record([1], one, meta), Record([2], two, meta)]
  }

  lemma SecondHasOneTwin(planes: seq<Plane>, side: Side, one: seq<Word>, two: seq<Word>, meta: Json)
    requires SameSides(planes, side, one, two)
    ensures var sigs, q := SignaturesOf(planes, Pair(one, two, meta), side), SignatureOf(planes, two, side);
            sigs[1] == q && EarlierTwins(sigs, q, 1) == {0}
  {
    var sigs, q := SignaturesOf(planes, Pair(one, two, meta), side), SignatureOf(planes, two, side);
    assert sigs[0] == q;
    forall j: nat ensures j in EarlierTwins(sigs, q, 1) <==> j == 0 {
    }
  }

  /** Whatever the planes: with an earlier record on the same sides, a stored vector is not
      even a candidate for its own search under a budget of one. */
  lemma EqualVectorCanBeMissed(planes: seq<Plane>, side: Side, one: seq<Word>, two: seq<Word>, meta: Json)
    requires SameSides(planes, side, one, two)
    ensures 1 !in Candidates(SignaturesOf(planes, Pair(one, two, meta), side), SignatureOf(planes, two, side), 1)
  {
    SecondHasOneTwin(planes, side, one, two, meta);
    ExactMatchIsCandidateExactly(SignaturesOf(planes, Pair(one, two, meta), side),
                                 SignatureOf(planes, two, side), 1, 1);
  }

  /** And if the earlier one also scores as well, no budget helps a search for one hit. */
  lemma EqualVectorCanBeOutranked(planes: seq<Plane>, side: Side, one: seq<Word>, two: seq<Word>, meta: Json,
                                  maxCandidates: nat, cosine: Similarity)
    requires SameSides(planes, side, one, two) && cosine(two, one) == cosine(two, two)
    ensures var rs := Pair(one, two, meta);
            1 !in Found(rs, SignaturesOf(planes, rs, side), SignatureOf(planes, two, side), two, 1,
                        Max(maxCandidates, 1), cosine)
  {
    var rs := Pair(one, two, meta);
    var sigs, q := SignaturesOf(planes, rs, side), SignatureOf(planes, two, side);
    SecondHasOneTwin(planes, side, one, two, meta);
    assert 0 in Rivals(rs, sigs, q, two, cosine, 1);
    assert Rivals(rs, sigs, q, two, cosine, 1) == {0};
    EqualVectorIsFoundExactly(rs, planes, side, 1, 1, maxCandidates, cosine);
  }
}
