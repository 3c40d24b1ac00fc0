/** Key rotation: dual-signed `old -> new` links and the guarded walk that resolves a key
    to its current identity. */
module Rotation {
  import opened Bytes
  import opened Crypto
  import opened Wrappers

  datatype RotationLink = RotationLink(old_: AgentId, new_: AgentId, createdAt: Time,
                                       oldSig: Signature, newSig: Signature)

  const ROTATION_TAG: Bytes := Ascii("agentbbs.rotation.v1\n")

  function LinkBytes(l: RotationLink, scheme: Scheme): Bytes {
    Compose(ROTATION_TAG, [Hex(l.old_.key), Hex(l.new_.key), scheme.stamp(l.createdAt)])
  }

  /** Both keys signed, and they differ. */
  function VerifyLink(l: RotationLink, scheme: Scheme): Result<()> {
    if l.old_ == l.new_ then Err(Malformed)
    else if !scheme.valid(l.old_, LinkBytes(l, scheme), l.oldSig) then Err(BadSignature)
    else if !scheme.valid(l.new_, LinkBytes(l, scheme), l.newSig) then Err(BadSignature)
    else Ok(())
  }

  type Links = map<AgentId, AgentId>

  const HOPS: nat := 64

  /** Where `n` hops from `k` lead; a key without a successor stays put. */
  function Hop(next: Links, k: AgentId, n: nat): AgentId
    decreases n
  {
    if n == 0 then k
    else
      var j := Hop(next, k, n - 1);
      if j in next then next[j] else j
  }

  lemma {:induction false} HopAdds(next: Links, k: AgentId, m: nat, n: nat)
    ensures Hop(next, Hop(next, k, m), n) == Hop(next, k, m + n)
    decreases n
  {
    if n > 0 {
      HopAdds(next, k, m, n - 1);
    }
  }

  lemma {:induction false} TerminalStays(next: Links, k: AgentId, m: nat, n: nat)
    requires m <= n && Hop(next, k, m) !in next
    ensures Hop(next, k, n) == Hop(next, k, m)
    decreases n
  {
    if m < n {
      TerminalStays(next, k, m, n - 1);
    }
  }

  /** The walk must stop at step `n`: nowhere to go, or back where it already was. */
  predicate Stops(next: Links, k: AgentId, n: nat) {
    Hop(next, k, n) !in next || Repeats(next, k, n)
  }

  predicate Repeats(next: Links, k: AgentId, n: nat) {
    exists m | 0 <= m < n :: Hop(next, k, m) == Hop(next, k, n)
  }

  /** The walk's answer: the key at the first stop, or after 64 hops if none comes. */
  function ResolveFrom(next: Links, k: AgentId, n: nat): AgentId
    requires n <= HOPS
    decreases HOPS - n
  {
    if n == HOPS || Stops(next, k, n) then Hop(next, k, n) else ResolveFrom(next, k, n + 1)
  }

  function Resolve(next: Links, k: AgentId): AgentId {
    ResolveFrom(next, k, 0)
  }

  /** Resolution through a given set of links, as a function of the key. */
  function Resolver(next: Links): AgentId -> AgentId {
    k => Resolve(next, k)
  }

  lemma {:induction false} ResolveAtFirstStop(next: Links, k: AgentId, from: nat, n: nat)
    requires from <= n <= HOPS && (n < HOPS ==> Stops(next, k, n))
    requires forall m: nat :: from <= m < n ==> !Stops(next, k, m)
    ensures ResolveFrom(next, k, from) == Hop(next, k, n)
    decreases n - from
  {
    if from < n {
      ResolveAtFirstStop(next, k, from + 1, n);
    }
  }

  /** The first stop, or 64. */
  lemma FirstStop(next: Links, k: AgentId) returns (n: nat)
    ensures n <= HOPS && (n < HOPS ==> Stops(next, k, n))
    ensures forall m: nat :: m < n ==> !Stops(next, k, m)
    ensures Resolve(next, k) == Hop(next, k, n)
  {
    n := 0;
    while n < HOPS && !Stops(next, k, n)
      invariant n <= HOPS && forall m: nat :: m < n ==> !Stops(next, k, m)
    {
      n := n + 1;
    }
    ResolveAtFirstStop(next, k, 0, n);
  }

  /** A key whose successors end within 64 hops resolves to the end of its chain. */
  lemma ChainResolvesToItsEnd(next: Links, k: AgentId, m: nat)
    requires m <= 64 && Hop(next, k, m) !in next
    ensures Resolve(next, k) == Hop(next, k, m)
  {
    var n := FirstStop(next, k);
    if n > m {
      assert Stops(next, k, m);
    }
    if n < m {
      if Hop(next, k, n) in next {
        var j: nat :| j < n && Hop(next, k, j) == Hop(next, k, n);
        CycleNeverEnds(next, k, j, n, m);
      } else {
        TerminalStays(next, k, n, m);
      }
    }
  }

  /** Once the walk is back where it was, it stays on keys that have successors. */
  lemma {:induction false} CycleRepeats(next: Links, k: AgentId, i: nat, j: nat, d: nat)
    requires Hop(next, k, i) == Hop(next, k, j)
    ensures Hop(next, k, i + d) == Hop(next, k, j + d)
    decreases d
  {
    if d > 0 {
      CycleRepeats(next, k, i, j, d - 1);
    }
  }

  lemma {:induction false} CycleNeverEnds(next: Links, k: AgentId, i: nat, j: nat, n: nat)
    requires i < j <= n && Hop(next, k, i) == Hop(next, k, j) && Hop(next, k, j) in next
    ensures Hop(next, k, n) in next
    decreases n
  {
    if n > j {
      CycleRepeats(next, k, i, j, n - j);
      var back := n - (j - i);
      if back <= j {
        if Hop(next, k, back) !in next {
          TerminalStays(next, k, back, j);
        }
      } else {
        CycleNeverEnds(next, k, i, j, back);
      }
    }
  }

  /** A key whose links enter a cycle, tail plus cycle at most 64 hops, resolves to the key
      where its walk enters the cycle. */
  lemma CycleResolvesToItsEntry(next: Links, k: AgentId, tail: nat, cycle: nat)
    requires cycle >= 1 && tail + cycle <= 64
    requires Hop(next, k, tail) == Hop(next, k, tail + cycle) && Hop(next, k, tail) in next
    requires forall i: nat, j: nat :: i < j < tail + cycle ==> Hop(next, k, i) != Hop(next, k, j)
    ensures Resolve(next, k) == Hop(next, k, tail)
  {
    var n := FirstStop(next, k);
    assert Repeats(next, k, tail + cycle);
    if n < tail + cycle {
      assert !Repeats(next, k, n);
      TerminalStays(next, k, n, tail + cycle);
    }
    if n > tail + cycle {
      assert Stops(next, k, tail + cycle);
    }
  }

  // ----- When resolving twice is resolving once -----

  /** Within 64 hops the walk ends or comes to a cycle of at most 64 keys. */
  ghost predicate Settles(next: Links, k: AgentId) {
    exists t: nat :: t <= HOPS && (Hop(next, k, t) !in next || Loops(next, k, t))
  }

  ghost predicate Loops(next: Links, k: AgentId, t: nat) {
    exists c: nat :: 1 <= c <= HOPS && Hop(next, Hop(next, k, t), c) == Hop(next, k, t)
  }

  /** The least number of hops that leads back to `y`. */
  lemma LeastPeriod(next: Links, y: AgentId, c: nat) returns (d: nat)
    requires 1 <= c && Hop(next, y, c) == y
    ensures 1 <= d <= c && Hop(next, y, d) == y
    ensures forall e: nat :: 1 <= e < d ==> Hop(next, y, e) != y
  {
    d := 1;
    while Hop(next, y, d) != y
      invariant 1 <= d <= c && forall e: nat :: 1 <= e < d ==> Hop(next, y, e) != y
      decreases c - d
    {
      d := d + 1;
    }
  }

  lemma PeriodDoesNotRepeat(next: Links, y: AgentId, d: nat, i: nat, j: nat)
    requires 1 <= d && Hop(next, y, d) == y && i < j < d
    requires forall e: nat :: 1 <= e < d ==> Hop(next, y, e) != y
    ensures Hop(next, y, i) != Hop(next, y, j)
  {
    if Hop(next, y, i) == Hop(next, y, j) {
      CycleRepeats(next, y, i, j, d - j);
    }
  }

  lemma OnCycleResolvesToItself(next: Links, y: AgentId, c: nat)
    requires 1 <= c <= HOPS && Hop(next, y, c) == y
    ensures Resolve(next, y) == y
  {
    if y !in next {
      ChainResolvesToItsEnd(next, y, 0);
    } else {
      var d := LeastPeriod(next, y, c);
      forall i: nat, j: nat | i < j < d ensures Hop(next, y, i) != Hop(next, y, j) {
        PeriodDoesNotRepeat(next, y, d, i, j);
      }
      CycleResolvesToItsEntry(next, y, 0, d);
    }
  }

  /** Past its 64 hops the walk may stop in the middle of a chain, and then resolving again
      moves on. Resolving is idempotent on exactly the keys that settle. */
  lemma ResolveIsIdempotentExactlyWhenSettled(next: Links, k: AgentId)
    ensures Resolve(next, Resolve(next, k)) == Resolve(next, k) <==> Settles(next, k)
  {
    var n := FirstStop(next, k);
    var y := Resolve(next, k);
    if Resolve(next, y) == y {
      var m := FirstStop(next, y);
      if m > 0 {
        assert Loops(next, k, n);
      }
    }
    if Settles(next, k) {
      SettledIsFixed(next, k, n);
    }
  }

  lemma FixedPastEntry(next: Links, k: AgentId, n: nat, t: nat)
    requires Loops(next, k, t) && t <= n
    ensures Resolve(next, Hop(next, k, n)) == Hop(next, k, n)
  {
    var c: nat :| 1 <= c <= HOPS && Hop(next, Hop(next, k, t), c) == Hop(next, k, t);
    HopAdds(next, k, t, c);
    CycleRepeats(next, k, t + c, t, n - t);
    HopAdds(next, k, n, c);
    OnCycleResolvesToItself(next, Hop(next, k, n), c);
  }

  lemma FixedAtRepeat(next: Links, k: AgentId, m: nat, n: nat)
    requires m < n <= HOPS && Hop(next, k, m) == Hop(next, k, n)
    ensures Resolve(next, Hop(next, k, n)) == Hop(next, k, n)
  {
    CycleRepeats(next, k, m, n, n - m);
    HopAdds(next, k, n, n - m);
    OnCycleResolvesToItself(next, Hop(next, k, n), n - m);
  }

  lemma SettledIsFixed(next: Links, k: AgentId, n: nat)
    requires Settles(next, k) && n <= HOPS && Resolve(next, k) == Hop(next, k, n)
    requires n < HOPS ==> Stops(next, k, n)
    ensures Resolve(next, Hop(next, k, n)) == Hop(next, k, n)
  {
    var t: nat :| t <= HOPS && (Hop(next, k, t) !in next || Loops(next, k, t));
    var y := Hop(next, k, n);
    if Hop(next, k, t) !in next {
      ChainResolvesToItsEnd(next, k, t);
      ChainResolvesToItsEnd(next, y, 0);
    } else if n >= t {
      FixedPastEntry(next, k, n, t);
    } else if y !in next {
      ChainResolvesToItsEnd(next, y, 0);
    } else {
      var m: nat :| m < n && Hop(next, k, m) == Hop(next, k, n);
      FixedAtRepeat(next, k, m, n);
    }
  }

  lemma EndingWalkHasNoLoop(next: Links, k: AgentId, t: nat, m: nat)
    requires t < m && Hop(next, k, m) !in next && forall i: nat :: i < m ==> Hop(next, k, i) in next
    ensures !Loops(next, k, t)
  {
    if c: nat :| 1 <= c <= HOPS && Hop(next, Hop(next, k, t), c) == Hop(next, k, t) {
      HopAdds(next, k, t, c);
      if t + c <= m {
        CycleNeverEnds(next, k, t, t + c, m);
      } else {
        TerminalStays(next, k, m, t + c);
      }
    }
  }

  /** In particular a chain of more than 64 links is not resolved in one go. */
  lemma LongChainsDoNotSettle(next: Links, k: AgentId, m: nat)
    requires m > 64 && Hop(next, k, m) !in next
    requires forall t: nat :: t < m ==> Hop(next, k, t) in next
    ensures Resolve(next, Resolve(next, k)) != Resolve(next, k)
  {
    ResolveIsIdempotentExactlyWhenSettled(next, k);
    if Settles(next, k) {
      var t: nat :| t <= HOPS && (Hop(next, k, t) !in next || Loops(next, k, t));
      EndingWalkHasNoLoop(next, k, t, m);
    }
  }

  // ----- Adding a link -----

  /** The chain of `k` ends within 64 hops. */
  ghost predicate Ends(next: Links, k: AgentId) {
    exists m: nat :: m <= HOPS && Hop(next, k, m) !in next
  }

  lemma {:induction false} SameUntilOld(next: Links, after: Links, o: AgentId, k: AgentId, m: nat)
    requires o !in next && o in after && after == next[o := after[o]]
    requires forall j: nat :: j < m ==> Hop(after, k, j) != o
    ensures Hop(after, k, m) == Hop(next, k, m)
    decreases m
  {
    if m > 0 {
      SameUntilOld(next, after, o, k, m - 1);
      assert Hop(after, k, m - 1) != o;
    }
  }

  /** The first of the first `m` hops that visits `o`, or `m`. */
  lemma FirstVisit(next: Links, k: AgentId, o: AgentId, m: nat) returns (i: nat)
    ensures i <= m && (i < m ==> Hop(next, k, i) == o)
    ensures forall j: nat :: j < i ==> Hop(next, k, j) != o
  {
    i := 0;
    while i < m && Hop(next, k, i) != o
      invariant i <= m && forall j: nat :: j < i ==> Hop(next, k, j) != o
    {
      i := i + 1;
    }
  }

  /** A walk that meets `o` after `i` hops ended there before, and now goes on as from `o`'s successor. */
  lemma WalkThroughOld(next: Links, after: Links, o: AgentId, k: AgentId, i: nat, m: nat)
    requires o !in next && o in after && after == next[o := after[o]]
    requires i < m <= HOPS && Hop(after, k, m) !in after && Hop(after, k, i) == o
    requires forall j: nat :: j < i ==> Hop(after, k, j) != o
    ensures Resolve(next, k) == o && Resolve(after, after[o]) == Hop(after, k, m)
  {
    SameUntilOld(next, after, o, k, i);
    ChainResolvesToItsEnd(next, k, i);
    HopAdds(after, k, i + 1, m - i - 1);
    ChainResolvesToItsEnd(after, after[o], m - i - 1);
  }

  /** A walk that ends without meeting `o` ended there before too. */
  lemma WalkPastOld(next: Links, after: Links, o: AgentId, k: AgentId, m: nat)
    requires o !in next && o in after && after == next[o := after[o]]
    requires m <= HOPS && Hop(after, k, m) !in after
    requires forall j: nat :: j < m ==> Hop(after, k, j) != o
    ensures Resolve(next, k) == Hop(after, k, m) != o
  {
    SameUntilOld(next, after, o, k, m);
    ChainResolvesToItsEnd(next, k, m);
  }

  /** Retiring a current key `o` redirects exactly the keys that resolved to it. */
  lemma LinkRedirects(next: Links, after: Links, o: AgentId, k: AgentId)
    requires o !in next && o in after && after == next[o := after[o]] && Ends(after, k)
    ensures Resolve(after, k) == if Resolve(next, k) == o then Resolve(after, after[o]) else Resolve(next, k)
  {
    var m: nat :| m <= HOPS && Hop(after, k, m) !in after;
    ChainResolvesToItsEnd(after, k, m);
    var i := FirstVisit(after, k, o, m);
    if i < m {
      WalkThroughOld(next, after, o, k, i, m);
    } else {
      WalkPastOld(next, after, o, k, m);
    }
  }

  /** A new link merges two identity classes, that of the retired key and that of its
      successor, and leaves all others as they were. */
  lemma LinkMergesTwoClasses(next: Links, after: Links, o: AgentId, a: AgentId, b: AgentId)
    requires o !in next && o in after && after == next[o := after[o]]
    requires Ends(after, a) && Ends(after, b) && Ends(after, after[o])
    ensures Resolve(after, a) == Resolve(after, b) <==>
            var p, q, s := Resolve(next, a), Resolve(next, b), Resolve(next, after[o]);
            p == q || (p == o && q == s) || (p == s && q == o)
  {
    LinkRedirects(next, after, o, a);
    LinkRedirects(next, after, o, b);
    LinkRedirects(next, after, o, after[o]);
    SuccessorIsNotRetired(next, after, o);
  }

  /** The successor's class becomes the disjoint union of the two old classes. */
  lemma MergedClass(next: Links, after: Links, o: AgentId, a: AgentId)
    requires o !in next && o in after && after == next[o := after[o]] && Ends(after, after[o]) && Ends(after, a)
    ensures Resolve(after, a) == Resolve(after, after[o]) <==>
            Resolve(next, a) == Resolve(next, o) || Resolve(next, a) == Resolve(next, after[o])
    ensures Resolve(next, o) != Resolve(next, after[o])
  {
    LinkMergesTwoClasses(next, after, o, a, after[o]);
    SuccessorIsNotRetired(next, after, o);
    ChainResolvesToItsEnd(next, o, 0);
  }

  /** Were the successor's chain to lead back to the retired key, it would never end. */
  lemma SuccessorIsNotRetired(next: Links, after: Links, o: AgentId)
    requires o !in next && o in after && after == next[o := after[o]] && Ends(after, after[o])
    ensures Resolve(next, after[o]) != o
  {
    var n' := after[o];
    var m: nat :| m <= HOPS && Hop(after, n', m) !in after;
    var i := FirstVisit(after, n', o, m);
    if i < m {
      assert Hop(after, n', i + 1) == n' == Hop(after, n', 0);
      if n' in after {
        CycleNeverEnds(after, n', 0, i + 1, m);
      } else {
        TerminalStays(after, n', 0, i);
      }
    } else {
      SameUntilOld(next, after, o, n', m);
      ChainResolvesToItsEnd(next, n', m);
    }
  }

  class RotationChain {
    var next: Links
    const scheme: Scheme

    constructor (scheme: Scheme)
      ensures next == map[] && this.scheme == scheme
    {
      next := map[];
      this.scheme := scheme;
    }

    /** One successor per key: the first verified link wins. */
    method Add(link: RotationLink) returns (r: Result<()>)
      modifies this`next
      ensures r == VerifyLink(link, scheme)
      ensures next == if r.Ok? && link.old_ !in old(next) then old(next)[link.old_ := link.new_] else old(next)
      ensures link.old_ == link.new_ ==> r == Err(Malformed)
      ensures link.old_ != link.new_ ==>
                var bytes := Compose(Ascii("agentbbs.rotation.v1\n"),
                                     [Hex(link.old_.key), Hex(link.new_.key), scheme.stamp(link.createdAt)]);
                if scheme.valid(link.old_, bytes, link.oldSig) && scheme.valid(link.new_, bytes, link.newSig)
                then r == Ok(()) else r == Err(BadSignature)
    {
      r := VerifyLink(link, scheme);
      if r.Ok? && link.old_ !in next {
        next := next[link.old_ := link.new_];
      }
    }

    /** Follow links for at most 64 steps, stopping at a terminal or an already seen key. */
    method Current(id: AgentId) returns (cur: AgentId)
      ensures cur == Resolve(next, id)
    {
      cur := id;
      var seen: set<AgentId> := {};
      var n := 0;
      while n < HOPS
        invariant n <= HOPS && cur == Hop(next, id, n)
        invariant forall k :: k in seen <==> exists m: nat :: m < n && Hop(next, id, m) == k
        invariant ResolveFrom(next, id, n) == Resolve(next, id)
      {
        if cur in seen {
          break;
        }
        seen := seen + {cur};
        if cur !in next {
          break;
        }
        cur := next[cur];
        n := n + 1;
      }
    }
  }
}
