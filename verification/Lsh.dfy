/** The sign-projection index over the vector store, and how far it agrees with the exact scan. */
module Lsh {
  import opened Rvf
  import opened Sorting
  import opened VectorStore
  import opened Wrappers

  /** A hyperplane, and the side of it a vector falls on (a non-negative dot product). */
  type Plane(!new)
  type Side = (Plane, seq<Word>) -> bool

  /** One bit per hyperplane. */
  type Signature = seq<bool>

  function SignatureOf(planes: seq<Plane>, v: seq<Word>, side: Side): (r: Signature)
    ensures |r| == |planes| && forall i :: 0 <= i < |planes| ==> r[i] == side(planes[i], v)
  {
    seq(|planes|, i requires 0 <= i < |planes| => side(planes[i], v))
  }

  /** How many bits differ. */
  function Hamming(a: Signature, b: Signature): nat
    requires |a| == |b|
  {
    if a == [] then 0
    else (if a[0] != b[0] then 1 else 0) + Hamming(a[1..], b[1..])
  }

  lemma {:induction false} HammingZeroIsEquality(a: Signature, b: Signature)
    requires |a| == |b|
    ensures Hamming(a, b) == 0 <==> a == b
  {
    if a != [] {
      HammingZeroIsEquality(a[1..], b[1..]);
      assert a == [a[0]] + a[1..] && b == [b[0]] + b[1..];
    }
  }

  /** The planes that tell the two apart. */
  ghost function Differing(a: Signature, b: Signature): set<nat>
    requires |a| == |b|
  {
    set i: nat | i < |a| && a[i] != b[i]
  }

  lemma {:induction false} HammingSnoc(a: Signature, b: Signature, x: bool, y: bool)
    requires |a| == |b|
    ensures Hamming(a + [x], b + [y]) == Hamming(a, b) + if x != y then 1 else 0
  {
    if a == [] {
      assert Hamming([x][1..], [y][1..]) == 0;
    } else {
      assert (a + [x])[1..] == a[1..] + [x] && (b + [y])[1..] == b[1..] + [y];
      HammingSnoc(a[1..], b[1..], x, y);
    }
  }

  /** The distance is the number of planes with the two vectors on opposite sides. */
  lemma {:induction false} HammingCountsDifferingPlanes(a: Signature, b: Signature)
    requires |a| == |b|
    ensures Hamming(a, b) == |Differing(a, b)|
  {
    if a != [] {
      var n := |a| - 1;
      HammingCountsDifferingPlanes(a[..n], b[..n]);
      HammingSnoc(a[..n], b[..n], a[n], b[n]);
      assert a == a[..n] + [a[n]] && b == b[..n] + [b[n]];
      LastPlane(a, b);
    }
  }

  lemma LastPlane(a: Signature, b: Signature)
    requires |a| == |b| > 0
    ensures var n := |a| - 1;
            |Differing(a, b)| == |Differing(a[..n], b[..n])| + if a[n] != b[n] then 1 else 0
  {
    var n := |a| - 1;
    var before := Differing(a[..n], b[..n]);
    if a[n] != b[n] {
      assert Differing(a, b) == before + {n};
    } else {
      assert Differing(a, b) == before;
    }
  }

  // ----- Candidate selection -----

  predicate SameWidth(sigs: seq<Signature>, q: Signature) {
    forall i :: 0 <= i < |sigs| ==> |sigs[i]| == |q|
  }

  /** The distance that position `i` is sorted by. */
  function Distance(sigs: seq<Signature>, q: Signature, i: nat): nat
    requires SameWidth(sigs, q)
  {
    if i < |sigs| then Hamming(sigs[i], q) else 0
  }

  function Nearer(sigs: seq<Signature>, q: Signature): (nat, nat) -> bool
    requires SameWidth(sigs, q)
  {
    (i: nat, j: nat) => Distance(sigs, q, i) <= Distance(sigs, q, j)
  }

  function Earlier(): (nat, nat) -> bool {
    (i: nat, j: nat) => i <= j
  }

  function Positions(n: nat): (r: seq<nat>)
    ensures |r| == n && forall i :: 0 <= i < n ==> r[i] == i
  {
    seq(n, i requires 0 <= i < n => i)
  }

  /** Every position, least distance first. */
  function Order(sigs: seq<Signature>, q: Signature): seq<nat>
    requires SameWidth(sigs, q)
  {
    Sort(Positions(|sigs|), Nearer(sigs, q))
  }

  function Candidates(sigs: seq<Signature>, q: Signature, budget: nat): seq<nat>
    requires SameWidth(sigs, q)
  {
    var idx := Order(sigs, q);
    idx[..Min(budget, |idx|)]
  }

  lemma PositionsOnce(n: nat)
    ensures Distinct(Positions(n)) && Sorted(Positions(n), Earlier())
    ensures forall i: nat :: i in Positions(n) <==> i < n
  {
    forall i: nat ensures i in Positions(n) <==> i < n {
      if i < n {
        assert Positions(n)[i] == i;
      }
    }
  }

  /** Each position once; ordered by distance, then by position. */
  lemma OrderIsByDistanceThenPosition(sigs: seq<Signature>, q: Signature)
    requires SameWidth(sigs, q)
    ensures Distinct(Order(sigs, q)) && |Order(sigs, q)| == |sigs|
    ensures forall i: nat :: i in Order(sigs, q) <==> i < |sigs|
    ensures Sorted(Order(sigs, q), Lex(Nearer(sigs, q), Earlier()))
  {
    PositionsOnce(|sigs|);
    DistinctIsInvariant(Positions(|sigs|), Order(sigs, q));
    forall i: nat ensures i in Order(sigs, q) <==> i < |sigs| {
      assert i in Order(sigs, q) <==> i in multiset(Order(sigs, q));
      assert i in Positions(|sigs|) <==> i in multiset(Positions(|sigs|));
    }
    SortIsStable(Positions(|sigs|), Nearer(sigs, q), Earlier());
  }

  /** The candidates are as many as the budget allows, and none left out is on the query's
      side of more planes. */
  lemma CandidatesAreNearest(sigs: seq<Signature>, q: Signature, budget: nat)
    requires SameWidth(sigs, q)
    ensures var c := Candidates(sigs, q, budget);
            && |c| == (if budget < |sigs| then budget else |sigs|) && Distinct(c)
            && (forall a :: 0 <= a < |c| ==> c[a] < |sigs|)
            && forall a, j: nat :: 0 <= a < |c| && j < |sigs| && j !in c
                ==> |Differing(sigs[c[a]], q)| <= |Differing(sigs[j], q)|
  {
    OrderIsByDistanceThenPosition(sigs, q);
    var idx := Order(sigs, q);
    var c := Candidates(sigs, q, budget);
    forall a | 0 <= a < |c| ensures c[a] < |sigs| {
      assert idx[a] in idx;
    }
    assert forall k :: 0 <= k < |c| ==> idx[k] in c;
    forall a, j: nat | 0 <= a < |c| && j < |sigs| && j !in c
      ensures |Differing(sigs[c[a]], q)| <= |Differing(sigs[j], q)|
    {
      HammingCountsDifferingPlanes(sigs[c[a]], q);
      HammingCountsDifferingPlanes(sigs[j], q);
      assert j in idx;
      var b :| 0 <= b < |idx| && idx[b] == j;
      assert Nearer(sigs, q)(idx[a], idx[b]);
    }
  }

  /** The earlier positions whose signature is exactly `q`. */
  ghost function EarlierTwins(sigs: seq<Signature>, q: Signature, i: nat): set<nat>
    requires i <= |sigs|
  {
    set j: nat | j < i && sigs[j] == q
  }

  ghost function Elements(s: seq<nat>): set<nat> {
    set x: nat | x in s
  }

  lemma {:induction false} DistinctElements(s: seq<nat>)
    requires Distinct(s)
    ensures |Elements(s)| == |s|
  {
    if s != [] {
      var n := |s| - 1;
      assert s == s[..n] + [s[n]];
      DistinctElements(s[..n]);
      assert s[n] !in Elements(s[..n]);
      assert Elements(s) == Elements(s[..n]) + {s[n]};
    }
  }

  /** Only earlier twins come before an exact match. */
  lemma BeforeExactMatch(sigs: seq<Signature>, q: Signature, i: nat, p: nat, b: nat)
    requires SameWidth(sigs, q) && i < |sigs| && sigs[i] == q
    requires b < p < |Order(sigs, q)| && Order(sigs, q)[p] == i
    ensures Order(sigs, q)[b] in EarlierTwins(sigs, q, i)
  {
    OrderIsByDistanceThenPosition(sigs, q);
    var idx := Order(sigs, q);
    var j := idx[b];
    assert j in idx;
    assert j != i && Lex(Nearer(sigs, q), Earlier())(idx[b], idx[p]);
    HammingZeroIsEquality(q, q);
    HammingZeroIsEquality(sigs[j], q);
  }

  /** And all of them do. */
  lemma TwinComesBefore(sigs: seq<Signature>, q: Signature, i: nat, p: nat, j: nat)
    requires SameWidth(sigs, q) && i < |sigs| && sigs[i] == q
    requires p < |Order(sigs, q)| && Order(sigs, q)[p] == i && j in EarlierTwins(sigs, q, i)
    ensures j in Order(sigs, q)[..p]
  {
    OrderIsByDistanceThenPosition(sigs, q);
    var idx, le := Order(sigs, q), Lex(Nearer(sigs, q), Earlier());
    assert j in idx;
    var b :| 0 <= b < |idx| && idx[b] == j;
    assert forall k :: p < k < |idx| ==> le(idx[p], idx[k]);
    assert !le(i, j);
    assert idx[..p][b] == j;
  }

  lemma PlaceOfExactMatch(sigs: seq<Signature>, q: Signature, i: nat, p: nat)
    requires SameWidth(sigs, q) && i < |sigs| && sigs[i] == q
    requires p < |Order(sigs, q)| && Order(sigs, q)[p] == i
    ensures |EarlierTwins(sigs, q, i)| == p
  {
    var idx := Order(sigs, q);
    forall j: nat ensures j in idx[..p] <==> j in EarlierTwins(sigs, q, i) {
      if j in idx[..p] {
        var b :| 0 <= b < p && idx[b] == j;
        BeforeExactMatch(sigs, q, i, p, b);
      }
      if j in EarlierTwins(sigs, q, i) {
        TwinComesBefore(sigs, q, i, p, j);
      }
    }
    assert Elements(idx[..p]) == EarlierTwins(sigs, q, i);
    OrderIsByDistanceThenPosition(sigs, q);
    DistinctElements(idx[..p]);
  }

  /** A position whose signature is exactly `q` is a candidate exactly when fewer earlier
      positions share it than the budget allows. */
  lemma ExactMatchIsCandidateExactly(sigs: seq<Signature>, q: Signature, i: nat, budget: nat)
    requires SameWidth(sigs, q) && i < |sigs| && sigs[i] == q
    ensures i in Candidates(sigs, q, budget) <==> |EarlierTwins(sigs, q, i)| < budget
  {
    OrderIsByDistanceThenPosition(sigs, q);
    var idx := Order(sigs, q);
    assert i in idx;
    var p :| 0 <= p < |idx| && idx[p] == i;
    PlaceOfExactMatch(sigs, q, i, p);
    var c := Candidates(sigs, q, budget);
    assert forall k :: 0 <= k < |c| ==> idx[k] in c;
    if i in c {
      var a :| 0 <= a < |c| && c[a] == i;
      assert idx[a] == idx[p];
    }
  }

  function SignaturesOf(planes: seq<Plane>, rs: seq<Record>, side: Side): (r: seq<Signature>)
    ensures |r| == |rs| && forall i :: 0 <= i < |rs| ==> r[i] == SignatureOf(planes, rs[i].vector, side)
  {
    Map((r: Record) => SignatureOf(planes, r.vector, side), rs)
  }

  // ----- Search -----

  /** The records at the given positions. */
  function At(rs: seq<Record>, idx: seq<nat>): (r: seq<Record>)
    requires forall k :: 0 <= k < |idx| ==> idx[k] < |rs|
    ensures |r| == |idx| && forall k :: 0 <= k < |idx| ==> r[k] == rs[idx[k]]
  {
    seq(|idx|, k requires 0 <= k < |idx| => rs[idx[k]])
  }

  /** What the index answers when it holds one signature per record. */
  function IndexedHits(rs: seq<Record>, sigs: seq<Signature>, q: Signature, query: seq<Word>,
                       topK: nat, budget: nat, cosine: Similarity): seq<Hit>
    requires SameWidth(sigs, q) && |sigs| == |rs|
  {
    CandidatesAreNearest(sigs, q, budget);
    ExactHits(At(rs, Candidates(sigs, q, budget)), query, topK, cosine)
  }

  /** What the index answers, in the vectors' own terms: the hits are the most similar of the
      records whose signatures differ from the query's on the fewest planes. */
  lemma HitsAreTheMostSimilarOfTheNearest(rs: seq<Record>, sigs: seq<Signature>, q: Signature, query: seq<Word>,
                                          topK: nat, budget: nat, cosine: Similarity) returns (near: seq<nat>)
    requires SameWidth(sigs, q) && |sigs| == |rs|
    ensures |near| == (if budget < |rs| then budget else |rs|) && Distinct(near)
    ensures forall a :: 0 <= a < |near| ==> near[a] < |rs|
    ensures forall a, j: nat :: 0 <= a < |near| && j < |rs| && j !in near
                                ==> |Differing(sigs[near[a]], q)| <= |Differing(sigs[j], q)|
    ensures var hits := IndexedHits(rs, sigs, q, query, topK, budget, cosine);
            && |hits| == (if topK < |near| then topK else |near|)
            && (forall i, j :: 0 <= i < j < |hits| ==> hits[i].score >= hits[j].score)
            && (forall h | h in hits ::
                  exists a :: 0 <= a < |near| && var r := rs[near[a]]; h == Hit(r.id, cosine(query, r.vector), r.meta))
            && forall a, h | 0 <= a < |near| && h in hits ::
                 var r := rs[near[a]];
                 Hit(r.id, cosine(query, r.vector), r.meta) in hits || h.score >= cosine(query, r.vector)
  {
    near := Candidates(sigs, q, budget);
    CandidatesAreNearest(sigs, q, budget);
    HitsAreTheMostSimilar(At(rs, near), query, topK, cosine);
  }

  function Max(a: nat, b: nat): (r: nat)
    ensures r >= a && r >= b && (r == a || r == b)
  {
    if a < b then b else a
  }

  class LshIndex {
    const planes: seq<Plane>
    const sigs: seq<Signature>
    const dim: nat
    const side: Side

    ghost predicate Valid() {
      forall i :: 0 <= i < |sigs| ==> |sigs[i]| == |planes|
    }

    /** One signature per record of the store, in store order. */
    constructor (store: RvfStore, planesFor: nat -> seq<Plane>, side: Side)
      ensures Valid() && dim == store.dim && planes == planesFor(dim) && this.side == side
      ensures sigs == SignaturesOf(planes, store.records, side)
      ensures |sigs| == |store.records|
      ensures forall i :: 0 <= i < |sigs| ==> |sigs[i]| == |planes|
      ensures forall i, j :: 0 <= i < |sigs| && 0 <= j < |planes|
                             ==> sigs[i][j] == side(planes[j], store.records[i].vector)
    {
      var ps := planesFor(store.dim);
      var out: seq<Signature> := [];
      for i := 0 to |store.records|
        invariant |out| == i
        invariant forall k :: 0 <= k < i ==> out[k] == SignatureOf(ps, store.records[k].vector, side)
      {
        var sig := Sign(ps, store.records[i].vector, side);
        out := out + [sig];
      }
      dim, planes, sigs, this.side := store.dim, ps, out, side;
    }

    /** Exact when the record count has changed; otherwise the best of the candidates. */
    method Search(store: RvfStore, query: seq<Word>, topK: nat, maxCandidates: nat, cosine: Similarity)
      returns (r: Result<seq<Hit>>)
      requires Valid()
      ensures |query| != dim ==> r == Err(Malformed)
      ensures |query| == dim && |sigs| != |store.records| ==>
                r == if |query| != store.dim then Err(Malformed) else Ok(ExactHits(store.records, query, topK, cosine))
      ensures |query| == dim && |sigs| == |store.records| ==>
                r == Ok(IndexedHits(store.records, sigs, SignatureOf(planes, query, side), query,
                                    topK, Max(maxCandidates, topK), cosine))
    {
      if |query| != dim {
        return Err(Malformed);
      }
      if |sigs| != |store.records| {
        r := store.Search(query, topK, cosine);
        return r;
      }
      var qsig := Sign(planes, query, side);
      var idx := Positions(|store.records|);
      idx := Sort(idx, Nearer(sigs, qsig));
      idx := idx[..Min(Max(maxCandidates, topK), |idx|)];
      CandidatesAreNearest(sigs, qsig, Max(maxCandidates, topK));
      var hits := Map(HitOf(query, cosine), At(store.records, idx));
      hits := Sort(hits, ByScore());
      hits := hits[..Min(topK, |hits|)];
      return Ok(hits);
    }
  }

  method Sign(planes: seq<Plane>, v: seq<Word>, side: Side) returns (sig: Signature)
    ensures sig == SignatureOf(planes, v, side)
    ensures |sig| == |planes| && forall i :: 0 <= i < |planes| ==> sig[i] == side(planes[i], v)
  {
    sig := [];
    for i := 0 to |planes|
      invariant |sig| == i && forall k :: 0 <= k < i ==> sig[k] == side(planes[k], v)
    {
      sig := sig + [side(planes[i], v)];
    }
  }

  // ----- Agreement with the exact scan -----

  function Scores(hits: seq<Hit>): (r: seq<real>)
    ensures |r| == |hits| && forall i :: 0 <= i < |hits| ==> r[i] == hits[i].score
  {
    Map((h: Hit) => h.score, hits)
  }

  function Descending(): (real, real) -> bool {
    (a: real, b: real) => a >= b
  }

  lemma ScoresDescend(s: seq<Hit>)
    requires Sorted(s, ByScore())
    ensures Sorted(Scores(s), Descending())
  {
    forall i, j | 0 <= i < j < |s| ensures Descending()(Scores(s)[i], Scores(s)[j]) {
      assert ByScore()(s[i], s[j]);
    }
  }

  lemma SortedScoresAlike(s: seq<Hit>, t: seq<Hit>)
    requires Sorted(s, ByScore()) && Sorted(t, ByScore()) && multiset(s) == multiset(t)
    ensures Scores(s) == Scores(t)
  {
    MapKeepsCounts((h: Hit) => h.score, s, t);
    ScoresDescend(s);
    ScoresDescend(t);
    SortedIsUnique(Scores(s), Scores(t), Descending());
  }

  /** Rankings of rearranged hits carry the same scores. */
  lemma ScoresOfPrefix(s: seq<Hit>, n: nat)
    requires n <= |s|
    ensures Scores(s[..n]) == Scores(s)[..n]
  {
  }

  lemma RearrangedHitsScoreAlike(a: seq<Hit>, b: seq<Hit>, k: nat)
    requires multiset(a) == multiset(b)
    ensures Scores(Ranked(a, k)) == Scores(Ranked(b, k))
  {
    var s, t := Sort(a, ByScore()), Sort(b, ByScore());
    SortedScoresAlike(s, t);
    assert |a| == |multiset(a)| == |multiset(b)| == |b|;
    ScoresOfPrefix(s, Min(k, |a|));
    ScoresOfPrefix(t, Min(k, |a|));
  }

  /** With a budget covering the store, the indexed search scores as the exact scan does,
      whatever the signatures hold. */
  lemma FullBudgetScoresExactly(rs: seq<Record>, sigs: seq<Signature>, q: Signature, query: seq<Word>,
                                topK: nat, budget: nat, cosine: Similarity)
    requires SameWidth(sigs, q) && |sigs| == |rs| <= budget
    ensures Scores(IndexedHits(rs, sigs, q, query, topK, budget, cosine)) == Scores(ExactHits(rs, query, topK, cosine))
  {
    FullBudgetRearranges(rs, sigs, q, budget);
    MapKeepsCounts(HitOf(query, cosine), At(rs, Candidates(sigs, q, budget)), rs);
    RearrangedHitsScoreAlike(Map(HitOf(query, cosine), At(rs, Candidates(sigs, q, budget))),
                             Map(HitOf(query, cosine), rs), topK);
  }

  lemma FullBudgetRearranges(rs: seq<Record>, sigs: seq<Signature>, q: Signature, budget: nat)
    requires SameWidth(sigs, q) && |sigs| == |rs| <= budget
    ensures Candidates(sigs, q, budget) == Order(sigs, q)
    ensures forall a :: 0 <= a < |Order(sigs, q)| ==> Order(sigs, q)[a] < |rs|
    ensures multiset(At(rs, Order(sigs, q))) == multiset(rs)
  {
    CandidatesAreNearest(sigs, q, budget);
    var idx := Order(sigs, q);
    assert idx[..|idx|] == idx;
    AtRearranged(rs, idx);
  }

  lemma AtRearranged(rs: seq<Record>, idx: seq<nat>)
    requires multiset(idx) == multiset(Positions(|rs|))
    requires forall a :: 0 <= a < |idx| ==> idx[a] < |rs|
    ensures multiset(At(rs, idx)) == multiset(rs)
  {
    if rs == [] {
      assert |idx| == |multiset(idx)| == 0;
    } else {
      var get := (i: nat) => if i < |rs| then rs[i] else rs[0];
      MapKeepsCounts(get, idx, Positions(|rs|));
      assert Map(get, idx) == At(rs, idx);
      assert Map(get, Positions(|rs|)) == rs;
    }
  }

  /** For any budget, the answer is the exact top of the nearest candidates' records. */
  lemma IndexedHitsAreTopOfCandidates(rs: seq<Record>, sigs: seq<Signature>, q: Signature, query: seq<Word>,
                                      topK: nat, budget: nat, cosine: Similarity)
    requires SameWidth(sigs, q) && |sigs| == |rs| && topK <= budget
    ensures var c := Candidates(sigs, q, budget);
            && (forall a :: 0 <= a < |c| ==> c[a] < |rs|)
            && IsTopK(IndexedHits(rs, sigs, q, query, topK, budget, cosine), Map(HitOf(query, cosine), At(rs, c)), topK)
            && |IndexedHits(rs, sigs, q, query, topK, budget, cosine)| == Min(topK, |rs|)
  {
    CandidatesAreNearest(sigs, q, budget);
    RankedIsTopK(Map(HitOf(query, cosine), At(rs, Candidates(sigs, q, budget))), topK);
  }

  // ----- When the hits themselves agree, not only their scores -----

  function ScoreAt(rs: seq<Record>, query: seq<Word>, cosine: Similarity, i: nat): real {
    if i < |rs| then cosine(query, rs[i].vector) else 0.0
  }

  function Better(rs: seq<Record>, query: seq<Word>, cosine: Similarity): (nat, nat) -> bool {
    (i: nat, j: nat) => ScoreAt(rs, query, cosine, i) >= ScoreAt(rs, query, cosine, j)
  }

  function HitAt(rs: seq<Record>, query: seq<Word>, cosine: Similarity): nat -> Hit
    requires rs != []
  {
    (i: nat) => if i < |rs| then Hit(rs[i].id, cosine(query, rs[i].vector), rs[i].meta) else Hit([], 0.0, rs[0].meta)
  }

  /** The positions both searches rank, in the order they come out. */
  function RankedPositions(rs: seq<Record>, idx: seq<nat>, query: seq<Word>, cosine: Similarity): seq<nat> {
    Sort(idx, Better(rs, query, cosine))
  }

  lemma SearchRanksPositions(rs: seq<Record>, idx: seq<nat>, query: seq<Word>, cosine: Similarity, k: nat)
    requires rs != [] && forall a :: 0 <= a < |idx| ==> idx[a] < |rs|
    ensures ExactHits(At(rs, idx), query, k, cosine)
            == Map(HitAt(rs, query, cosine), RankedPositions(rs, idx, query, cosine))[..Min(k, |idx|)]
  {
    assert Map(HitOf(query, cosine), At(rs, idx)) == Map(HitAt(rs, query, cosine), idx);
    SortMapped(HitAt(rs, query, cosine), idx, ByScore(), Better(rs, query, cosine));
  }

  /** Of two records with equal scores, the earlier is never the farther by signature. */
  ghost predicate TiesFollowDistance(rs: seq<Record>, sigs: seq<Signature>, q: Signature, query: seq<Word>,
                                     cosine: Similarity)
    requires SameWidth(sigs, q)
  {
    forall i: nat, j: nat :: i < j < |rs| && ScoreAt(rs, query, cosine, i) == ScoreAt(rs, query, cosine, j)
      ==> Distance(sigs, q, i) <= Distance(sigs, q, j)
  }

  /** The exact scan ranks by score then position; the index by score, distance, position. */
  lemma RankingsAreLexicographic(rs: seq<Record>, sigs: seq<Signature>, q: Signature, query: seq<Word>,
                                 cosine: Similarity)
    requires SameWidth(sigs, q) && |sigs| == |rs|
    ensures Sorted(RankedPositions(rs, Positions(|rs|), query, cosine), Lex(Better(rs, query, cosine), Earlier()))
    ensures Sorted(RankedPositions(rs, Order(sigs, q), query, cosine),
                   Lex(Better(rs, query, cosine), Lex(Nearer(sigs, q), Earlier())))
    ensures multiset(RankedPositions(rs, Positions(|rs|), query, cosine))
            == multiset(RankedPositions(rs, Order(sigs, q), query, cosine))
  {
    PositionsOnce(|rs|);
    SortIsStable(Positions(|rs|), Better(rs, query, cosine), Earlier());
    OrderIsByDistanceThenPosition(sigs, q);
    LexIsPreorder(Nearer(sigs, q), Earlier());
    SortIsStable(Order(sigs, q), Better(rs, query, cosine), Lex(Nearer(sigs, q), Earlier()));
  }

  lemma RankedPositionsInRange(rs: seq<Record>, idx: seq<nat>, query: seq<Word>, cosine: Similarity)
    requires multiset(idx) == multiset(Positions(|rs|))
    ensures |RankedPositions(rs, idx, query, cosine)| == |rs|
    ensures forall i: nat :: i in RankedPositions(rs, idx, query, cosine) <==> i < |rs|
    ensures Distinct(RankedPositions(rs, idx, query, cosine))
  {
    var r := RankedPositions(rs, idx, query, cosine);
    PositionsOnce(|rs|);
    DistinctIsInvariant(Positions(|rs|), r);
    assert |r| == |multiset(r)| == |multiset(Positions(|rs|))|;
    forall i: nat ensures i in r <==> i < |rs| {
      assert i in r <==> i in multiset(r);
      assert i in Positions(|rs|) <==> i in multiset(Positions(|rs|));
    }
  }

  lemma TiesMakeRankingsEqual(rs: seq<Record>, sigs: seq<Signature>, q: Signature, query: seq<Word>, cosine: Similarity)
    requires SameWidth(sigs, q) && |sigs| == |rs| && TiesFollowDistance(rs, sigs, q, query, cosine)
    ensures RankedPositions(rs, Order(sigs, q), query, cosine) == RankedPositions(rs, Positions(|rs|), query, cosine)
  {
    var indexed, exact :=
        RankedPositions(rs, Order(sigs, q), query, cosine), RankedPositions(rs, Positions(|rs|), query, cosine);
    RankingsAreLexicographic(rs, sigs, q, query, cosine);
    RankedPositionsInRange(rs, Order(sigs, q), query, cosine);
    var le := Lex(Better(rs, query, cosine), Earlier());
    forall a, b | 0 <= a < b < |indexed| ensures le(indexed[a], indexed[b]) {
      var x, y := indexed[a], indexed[b];
      assert x in indexed && y in indexed;
      assert Lex(Better(rs, query, cosine), Lex(Nearer(sigs, q), Earlier()))(x, y);
      if y < x && ScoreAt(rs, query, cosine, x) == ScoreAt(rs, query, cosine, y) {
        assert Distance(sigs, q, y) <= Distance(sigs, q, x);
      }
    }
    SortedIsUnique(indexed, exact, le);
  }

  /** In a list sorted both ways, the earlier of two equal scores is no farther. */
  lemma TieFollows(r: seq<nat>, rs: seq<Record>, sigs: seq<Signature>, q: Signature, query: seq<Word>,
                   cosine: Similarity, i: nat, j: nat)
    requires SameWidth(sigs, q) && i in r && j in r && i < j
    requires Sorted(r, Lex(Better(rs, query, cosine), Earlier()))
    requires Sorted(r, Lex(Better(rs, query, cosine), Lex(Nearer(sigs, q), Earlier())))
    requires ScoreAt(rs, query, cosine, i) == ScoreAt(rs, query, cosine, j)
    ensures Distance(sigs, q, i) <= Distance(sigs, q, j)
  {
    var byPosition := Lex(Better(rs, query, cosine), Earlier());
    var byDistance := Lex(Better(rs, query, cosine), Lex(Nearer(sigs, q), Earlier()));
    var a :| 0 <= a < |r| && r[a] == i;
    var b :| 0 <= b < |r| && r[b] == j;
    assert !byPosition(j, i);
    assert forall k :: 0 <= k < a ==> byPosition(r[k], r[a]);
    assert byDistance(r[a], r[b]);
    assert Lex(Nearer(sigs, q), Earlier())(i, j);
  }

  lemma EqualRankingsMeanTiesFollow(rs: seq<Record>, sigs: seq<Signature>, q: Signature, query: seq<Word>,
                                    cosine: Similarity)
    requires SameWidth(sigs, q) && |sigs| == |rs|
    requires RankedPositions(rs, Order(sigs, q), query, cosine) == RankedPositions(rs, Positions(|rs|), query, cosine)
    ensures TiesFollowDistance(rs, sigs, q, query, cosine)
  {
    var r := RankedPositions(rs, Order(sigs, q), query, cosine);
    RankingsAreLexicographic(rs, sigs, q, query, cosine);
    RankedPositionsInRange(rs, Order(sigs, q), query, cosine);
    forall i: nat, j: nat | i < j < |rs| && ScoreAt(rs, query, cosine, i) == ScoreAt(rs, query, cosine, j)
      ensures Distance(sigs, q, i) <= Distance(sigs, q, j)
    {
      assert i in r && j in r;
      TieFollows(r, rs, sigs, q, query, cosine, i, j);
    }
  }

  lemma SameHitsSamePositions(rs: seq<Record>, a: seq<nat>, b: seq<nat>, query: seq<Word>, cosine: Similarity)
    requires rs != [] && DistinctIds(rs) && |a| == |b| == |rs|
    requires forall i: nat :: i in a || i in b ==> i < |rs|
    requires Map(HitAt(rs, query, cosine), a)[..Min(|rs|, |rs|)] == Map(HitAt(rs, query, cosine), b)[..Min(|rs|, |rs|)]
    ensures a == b
  {
    var hit := HitAt(rs, query, cosine);
    assert Map(hit, a)[..|rs|] == Map(hit, a) && Map(hit, b)[..|rs|] == Map(hit, b);
    forall k | 0 <= k < |a| ensures a[k] == b[k] {
      assert a[k] in a && b[k] in b;
      assert Map(hit, a)[k] == hit(a[k]) && Map(hit, b)[k] == hit(b[k]);
      assert hit(a[k]).id == rs[a[k]].id && hit(b[k]).id == rs[b[k]].id;
    }
  }

  /** Both searches, as rankings of positions. */
  lemma BothSearchesRankPositions(rs: seq<Record>, sigs: seq<Signature>, q: Signature,
                                  query: seq<Word>, k: nat, budget: nat, cosine: Similarity)
    requires SameWidth(sigs, q) && |sigs| == |rs| <= budget && rs != []
    ensures IndexedHits(rs, sigs, q, query, k, budget, cosine)
            == Map(HitAt(rs, query, cosine), RankedPositions(rs, Order(sigs, q), query, cosine))[..Min(k, |rs|)]
    ensures ExactHits(rs, query, k, cosine)
            == Map(HitAt(rs, query, cosine), RankedPositions(rs, Positions(|rs|), query, cosine))[..Min(k, |rs|)]
  {
    FullBudgetRearranges(rs, sigs, q, budget);
    assert At(rs, Positions(|rs|)) == rs;
    SearchRanksPositions(rs, Order(sigs, q), query, cosine, k);
    SearchRanksPositions(rs, Positions(|rs|), query, cosine, k);
  }

  lemma IdenticalHitsRankAlike(rs: seq<Record>, sigs: seq<Signature>, q: Signature,
                                    query: seq<Word>, budget: nat, cosine: Similarity)
    requires SameWidth(sigs, q) && |sigs| == |rs| <= budget && DistinctIds(rs) && rs != []
    requires IndexedHits(rs, sigs, q, query, |rs|, budget, cosine) == ExactHits(rs, query, |rs|, cosine)
    ensures RankedPositions(rs, Order(sigs, q), query, cosine) == RankedPositions(rs, Positions(|rs|), query, cosine)
  {
    BothSearchesRankPositions(rs, sigs, q, query, |rs|, budget, cosine);
    RankedPositionsInRange(rs, Order(sigs, q), query, cosine);
    RankedPositionsInRange(rs, Positions(|rs|), query, cosine);
    SameHitsSamePositions(rs, RankedPositions(rs, Order(sigs, q), query, cosine),
                          RankedPositions(rs, Positions(|rs|), query, cosine), query, cosine);
  }

  lemma NothingStoredNothingFound(sigs: seq<Signature>, q: Signature, query: seq<Word>, k: nat, budget: nat,
                                  cosine: Similarity)
    requires SameWidth(sigs, q) && |sigs| == 0
    ensures IndexedHits([], sigs, q, query, k, budget, cosine) == ExactHits([], query, k, cosine)
  {
    CandidatesAreNearest(sigs, q, budget);
    assert At([], Candidates(sigs, q, budget)) == [];
  }

  // ----- Repeated ids: different records may give the same hit -----

  /** `x` comes before `y` in `s`. */
  ghost predicate Before(s: seq<nat>, x: nat, y: nat) {
    exists i, j :: 0 <= i < j < |s| && s[i] == x && s[j] == y
  }

  lemma BeforeInShorter(s: seq<nat>, k: nat, x: nat, y: nat)
    requires k < |s| && Before(s[..k] + s[k + 1..], x, y)
    ensures Before(s, x, y)
  {
    var t := s[..k] + s[k + 1..];
    var i, j :| 0 <= i < j < |t| && t[i] == x && t[j] == y;
    var a, b := if i < k then i else i + 1, if j < k then j else j + 1;
    assert s[a] == x && s[b] == y;
  }

  lemma FrontIsBefore(s: seq<nat>, k: nat, i: nat)
    requires i < k < |s|
    ensures Before(s, s[i], s[k])
  {
  }

  lemma MoveToFront(f: nat -> Hit, b: seq<nat>, k: nat)
    requires k < |b| && forall i :: 0 <= i < k ==> f(b[i]) == f(b[k])
    ensures Map(f, b) == [f(b[k])] + Map(f, b[..k] + b[k + 1..])
  {
    var c := b[..k] + b[k + 1..];
    forall i | 0 <= i < |b| ensures Map(f, b)[i] == ([f(b[k])] + Map(f, c))[i] {
      if 0 < i {
        assert c[i - 1] == if i <= k then b[i - 1] else b[i];
      }
    }
  }

  /** The same positions once each in both, and swapped only where their hits are equal. */
  ghost predicate Relisted(f: nat -> Hit, a: seq<nat>, b: seq<nat>) {
    && Distinct(a) && Distinct(b) && |a| == |b|
    && (forall x: nat :: x in a <==> x in b)
    && (forall x, y :: Before(a, x, y) && Before(b, y, x) ==> f(x) == f(y))
  }

  lemma EarlierHitsAreEqual(f: nat -> Hit, a: seq<nat>, b: seq<nat>, k: nat)
    requires Relisted(f, a, b) && a != [] && k < |b| && b[k] == a[0]
    ensures forall i :: 0 <= i < k ==> f(b[i]) == f(b[k])
  {
    forall i | 0 <= i < k ensures f(b[i]) == f(b[k]) {
      FrontIsBefore(b, k, i);
      assert b[i] in a;
      var j :| 0 <= j < |a| && a[j] == b[i];
      FrontIsBefore(a, j, 0);
    }
  }

  lemma WhereTheFirstIs(f: nat -> Hit, a: seq<nat>, b: seq<nat>) returns (k: nat)
    requires Relisted(f, a, b) && a != []
    ensures k < |b| && b[k] == a[0]
  {
    assert a[0] in b;
    k :| k < |b| && b[k] == a[0];
  }

  /** Two listings that swap only positions with equal hits list the same hits. */
  lemma {:induction false} SwapsOfEqualHits(f: nat -> Hit, a: seq<nat>, b: seq<nat>)
    requires Relisted(f, a, b)
    ensures Map(f, a) == Map(f, b)
    decreases |a|
  {
    if a == [] {
      assert b == [];
    } else {
      var k := WhereTheFirstIs(f, a, b);
      var c := b[..k] + b[k + 1..];
      EarlierHitsAreEqual(f, a, b, k);
      MoveToFront(f, b, k);
      RestSwaps(f, a, b, k);
      SwapsOfEqualHits(f, a[1..], c);
      FirstThenRest(f, a);
    }
  }

  lemma FirstThenRest(f: nat -> Hit, a: seq<nat>)
    requires a != []
    ensures Map(f, a) == [f(a[0])] + Map(f, a[1..])
  {
    assert a == [a[0]] + a[1..];
    MapOfCons(f, a[0], a[1..]);
  }

  lemma RestSwaps(f: nat -> Hit, a: seq<nat>, b: seq<nat>, k: nat)
    requires Relisted(f, a, b) && a != [] && k < |b| && b[k] == a[0]
    ensures Relisted(f, a[1..], b[..k] + b[k + 1..])
  {
    var c := b[..k] + b[k + 1..];
    assert a == [a[0]] + a[1..] && b == b[..k] + [b[k]] + b[k + 1..];
    forall x: nat ensures x in a[1..] <==> x in c {
      assert x in a <==> x == a[0] || x in a[1..];
      assert x in b <==> x == b[k] || x in c;
    }
    forall x, y | Before(a[1..], x, y) && Before(c, y, x) ensures f(x) == f(y) {
      assert a[..0] + a[0 + 1..] == a[1..];
      BeforeInShorter(a, 0, x, y);
      BeforeInShorter(b, k, y, x);
    }
  }

  /** The tie condition where it shows: only for records whose hits differ. */
  ghost predicate DifferentTiesFollow(rs: seq<Record>, sigs: seq<Signature>, q: Signature, query: seq<Word>,
                                      cosine: Similarity)
    requires SameWidth(sigs, q) && rs != []
  {
    var hit := HitAt(rs, query, cosine);
    forall i: nat, j: nat
      | i < j < |rs| && ScoreAt(rs, query, cosine, i) == ScoreAt(rs, query, cosine, j) && hit(i) != hit(j)
      :: Distance(sigs, q, i) <= Distance(sigs, q, j)
  }

  lemma DifferentTiesGiveSameHits(rs: seq<Record>, sigs: seq<Signature>, q: Signature, query: seq<Word>,
                                  cosine: Similarity)
    requires SameWidth(sigs, q) && |sigs| == |rs| && rs != [] && DifferentTiesFollow(rs, sigs, q, query, cosine)
    ensures Map(HitAt(rs, query, cosine), RankedPositions(rs, Order(sigs, q), query, cosine))
            == Map(HitAt(rs, query, cosine), RankedPositions(rs, Positions(|rs|), query, cosine))
  {
    var a, b := RankedPositions(rs, Positions(|rs|), query, cosine), RankedPositions(rs, Order(sigs, q), query, cosine);
    RankingsAreLexicographic(rs, sigs, q, query, cosine);
    RankedPositionsInRange(rs, Positions(|rs|), query, cosine);
    RankedPositionsInRange(rs, Order(sigs, q), query, cosine);
    forall x, y | Before(a, x, y) && Before(b, y, x)
      ensures HitAt(rs, query, cosine)(x) == HitAt(rs, query, cosine)(y)
    {
      InvertedTie(rs, sigs, q, query, cosine, a, b, x, y);
    }
    SwapsOfEqualHits(HitAt(rs, query, cosine), a, b);
  }

  lemma InvertedTie(rs: seq<Record>, sigs: seq<Signature>, q: Signature, query: seq<Word>, cosine: Similarity,
                    a: seq<nat>, b: seq<nat>, x: nat, y: nat)
    requires SameWidth(sigs, q) && rs != [] && DifferentTiesFollow(rs, sigs, q, query, cosine)
    requires Sorted(a, Lex(Better(rs, query, cosine), Earlier())) && Distinct(a)
    requires Sorted(b, Lex(Better(rs, query, cosine), Lex(Nearer(sigs, q), Earlier())))
    requires forall i: nat :: i in a ==> i < |rs|
    requires Before(a, x, y) && Before(b, y, x)
    ensures HitAt(rs, query, cosine)(x) == HitAt(rs, query, cosine)(y)
  {
    var i, j :| 0 <= i < j < |a| && a[i] == x && a[j] == y;
    var k, l :| 0 <= k < l < |b| && b[k] == y && b[l] == x;
    assert x in a && y in a && x != y;
    assert Lex(Better(rs, query, cosine), Earlier())(x, y);
    assert Lex(Better(rs, query, cosine), Lex(Nearer(sigs, q), Earlier()))(y, x);
    assert ScoreAt(rs, query, cosine, x) == ScoreAt(rs, query, cosine, y);
    assert x < y && Lex(Nearer(sigs, q), Earlier())(y, x);
  }

  ghost predicate SameAnswers(rs: seq<Record>, sigs: seq<Signature>, q: Signature, query: seq<Word>, budget: nat,
                              cosine: Similarity)
    requires SameWidth(sigs, q) && |sigs| == |rs|
  {
    forall k :: IndexedHits(rs, sigs, q, query, k, budget, cosine) == ExactHits(rs, query, k, cosine)
  }

  lemma DifferentTiesSuffice(rs: seq<Record>, sigs: seq<Signature>, q: Signature, query: seq<Word>, budget: nat,
                             cosine: Similarity)
    requires SameWidth(sigs, q) && |sigs| == |rs| <= budget
    requires rs != [] ==> DifferentTiesFollow(rs, sigs, q, query, cosine)
    ensures SameAnswers(rs, sigs, q, query, budget, cosine)
  {
    forall k: nat ensures IndexedHits(rs, sigs, q, query, k, budget, cosine) == ExactHits(rs, query, k, cosine) {
      if rs == [] {
        NothingStoredNothingFound(sigs, q, query, k, budget, cosine);
      } else {
        BothSearchesRankPositions(rs, sigs, q, query, k, budget, cosine);
        DifferentTiesGiveSameHits(rs, sigs, q, query, cosine);
      }
    }
  }

  /** With a budget covering the store, both searches rank the same records in the same
      order exactly when, among equal scores, the earlier record is never the farther one;
      and then they return the same hits for every `topK`. Where ids are not repeated the
      hits agree exactly then; where they are, ties between equal hits do not matter. */
  lemma FullBudgetIsIdenticalExactlyWhenTiesFollow(rs: seq<Record>, sigs: seq<Signature>, q: Signature,
                                                   query: seq<Word>, budget: nat, cosine: Similarity)
    requires SameWidth(sigs, q) && |sigs| == |rs| <= budget
    ensures RankedPositions(rs, Order(sigs, q), query, cosine) == RankedPositions(rs, Positions(|rs|), query, cosine)
            <==> TiesFollowDistance(rs, sigs, q, query, cosine)
    ensures (rs != [] ==> DifferentTiesFollow(rs, sigs, q, query, cosine))
            ==> SameAnswers(rs, sigs, q, query, budget, cosine)
    ensures DistinctIds(rs) ==> (SameAnswers(rs, sigs, q, query, budget, cosine)
                                 <==> TiesFollowDistance(rs, sigs, q, query, cosine))
  {
    if TiesFollowDistance(rs, sigs, q, query, cosine) {
      TiesMakeRankingsEqual(rs, sigs, q, query, cosine);
    }
    if rs != [] ==> DifferentTiesFollow(rs, sigs, q, query, cosine) {
      DifferentTiesSuffice(rs, sigs, q, query, budget, cosine);
    }
    if RankedPositions(rs, Order(sigs, q), query, cosine) == RankedPositions(rs, Positions(|rs|), query, cosine) {
      EqualRankingsMeanTiesFollow(rs, sigs, q, query, cosine);
    }
    if rs != [] && DistinctIds(rs) && SameAnswers(rs, sigs, q, query, budget, cosine) {
      assert IndexedHits(rs, sigs, q, query, |rs|, budget, cosine) == ExactHits(rs, query, |rs|, cosine);
      IdenticalHitsRankAlike(rs, sigs, q, query, budget, cosine);
    }
  }
}
