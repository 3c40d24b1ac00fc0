/** Signed claims, and queries over them that follow key rotation. */
module Credential {
  import opened Bytes
  import opened Crypto
  import opened Rotation
  import opened WebTrust
  import opened Wrappers

  datatype Claim = Claim(subject: AgentId, claim: Bytes, issuer: AgentId, issuedAt: Time,
                         expiresAt: Option<Time>, signature: Signature)

  const CREDENTIAL_TAG: Bytes := Ascii("agentbbs.credential.v1\n")

  const NEVER: Bytes := Ascii("never")

  function ExpiryBytes(expiresAt: Option<Time>, scheme: Scheme): Bytes {
    if expiresAt.Some? then scheme.stamp(expiresAt.value) else NEVER
  }

  function ClaimParts(c: Claim, scheme: Scheme): seq<Bytes> {
    [Hex(c.subject.key), c.claim, Hex(c.issuer.key), scheme.stamp(c.issuedAt), ExpiryBytes(c.expiresAt, scheme)]
  }

  predicate ClaimVerified(c: Claim, scheme: Scheme) {
    scheme.valid(c.issuer, Compose(CREDENTIAL_TAG, ClaimParts(c, scheme)), c.signature)
  }

  /** Signature good, and not yet expired. */
  predicate IsValid(c: Claim, now: Time, scheme: Scheme) {
    ClaimVerified(c, scheme) && (c.expiresAt.None? || now < c.expiresAt.value)
  }

  /** An issuer's signature binds every field of the claim, provided no timestamp is
      rendered as the word that stands for "no expiry". */
  lemma ClaimBytesAreInjective(c: Claim, d: Claim, scheme: Scheme)
    requires scheme.Sound() && forall t: Time :: scheme.stamp(t) != NEVER
    requires Compose(CREDENTIAL_TAG, ClaimParts(c, scheme)) == Compose(CREDENTIAL_TAG, ClaimParts(d, scheme))
    ensures c.(signature := d.signature) == d
  {
    var p, q := ClaimParts(c, scheme), ClaimParts(d, scheme);
    ComposeIsInjective(CREDENTIAL_TAG, p, q);
    assert p[0] == q[0] && p[1] == q[1] && p[2] == q[2] && p[3] == q[3] && p[4] == q[4];
    HexIsInjective(c.subject.key, d.subject.key);
    HexIsInjective(c.issuer.key, d.issuer.key);
    SameExpiry(c.expiresAt, d.expiresAt, scheme);
  }

  lemma OnlyNoExpiryIsNever(a: Option<Time>, scheme: Scheme)
    requires forall t: Time :: scheme.stamp(t) != NEVER
    ensures ExpiryBytes(a, scheme) == NEVER <==> a.None?
  {
    if a.Some? {
      var t := a.value;
      assert scheme.stamp(t) != NEVER;
    }
  }

  lemma SameExpiry(a: Option<Time>, b: Option<Time>, scheme: Scheme)
    requires scheme.Sound() && forall t: Time :: scheme.stamp(t) != NEVER
    requires ExpiryBytes(a, scheme) == ExpiryBytes(b, scheme)
    ensures a == b
  {
    OnlyNoExpiryIsNever(a, scheme);
    OnlyNoExpiryIsNever(b, scheme);
    if a.Some? && b.Some? {
      var s, t := a.value, b.value;
      assert scheme.stamp(s) == scheme.stamp(t);
    }
  }

  predicate Accepts(issuers: seq<AgentId>, issuer: AgentId) {
    issuers == [] || issuer in issuers
  }

  predicate Grants(c: Claim, claim: Bytes, now: Time, issuers: seq<AgentId>, scheme: Scheme) {
    c.claim == claim && IsValid(c, now, scheme) && Accepts(issuers, c.issuer)
  }

  predicate HasClaim(creds: seq<Claim>, subject: AgentId, claim: Bytes, now: Time, issuers: seq<AgentId>,
                     scheme: Scheme) {
    exists i | 0 <= i < |creds| :: creds[i].subject == subject && Grants(creds[i], claim, now, issuers, scheme)
  }

  /** A claim once held is held from its credential's arrival until that credential expires:
      later credentials take none away, and time only takes the expired ones. */
  lemma ClaimsLastUntilExpiry(creds: seq<Claim>, more: seq<Claim>, subject: AgentId, claim: Bytes, now: Time,
                              later: Time, issuers: seq<AgentId>, scheme: Scheme)
    requires now <= later
    ensures HasClaim(creds, subject, claim, now, issuers, scheme)
            ==> HasClaim(creds + more, subject, claim, now, issuers, scheme)
    ensures HasClaim(creds, subject, claim, later, issuers, scheme) <==>
            exists i :: 0 <= i < |creds| && creds[i].subject == subject && Grants(creds[i], claim, now, issuers, scheme)
                        && (creds[i].expiresAt.None? || later < creds[i].expiresAt.value)
  {
    if i :| 0 <= i < |creds| && creds[i].subject == subject && Grants(creds[i], claim, now, issuers, scheme) {
      assert (creds + more)[i] == creds[i];
    }
    if i :| 0 <= i < |creds| && creds[i].subject == subject && Grants(creds[i], claim, later, issuers, scheme) {
      assert Grants(creds[i], claim, now, issuers, scheme);
    }
  }

  /** Signatures alone decide a claim: credentials that do not verify never count, wherever
      they stand in the list. */
  lemma {:induction false} ForgeriesDoNotCount(creds: seq<Claim>, subject: AgentId, claim: Bytes, now: Time,
                                               issuers: seq<AgentId>, scheme: Scheme)
    ensures HasClaim(creds, subject, claim, now, issuers, scheme)
            == HasClaim(Genuine(creds, scheme), subject, claim, now, issuers, scheme)
  {
    if creds != [] {
      var rest := Genuine(creds[1..], scheme);
      ForgeriesDoNotCount(creds[1..], subject, claim, now, issuers, scheme);
      HasClaimCons(creds[0], creds[1..], subject, claim, now, issuers, scheme);
      HasClaimCons(creds[0], rest, subject, claim, now, issuers, scheme);
      assert creds == [creds[0]] + creds[1..];
      assert [] + rest == rest;
    }
  }

  lemma HasClaimCons(c: Claim, rest: seq<Claim>, subject: AgentId, claim: Bytes, now: Time, issuers: seq<AgentId>,
                     scheme: Scheme)
    ensures HasClaim([c] + rest, subject, claim, now, issuers, scheme) <==>
            (c.subject == subject && Grants(c, claim, now, issuers, scheme))
            || HasClaim(rest, subject, claim, now, issuers, scheme)
  {
    var all := [c] + rest;
    if i :| 0 <= i < |rest| && rest[i].subject == subject && Grants(rest[i], claim, now, issuers, scheme) {
      assert all[i + 1] == rest[i];
    }
    if c.subject == subject && Grants(c, claim, now, issuers, scheme) {
      assert all[0] == c;
    }
  }

  function Genuine(creds: seq<Claim>, scheme: Scheme): seq<Claim> {
    if creds == [] then []
    else (if ClaimVerified(creds[0], scheme) then [creds[0]] else []) + Genuine(creds[1..], scheme)
  }

  /** `current` resolves a key to its identity. */
  predicate HasClaimVia(creds: seq<Claim>, subject: AgentId, claim: Bytes, now: Time, issuers: seq<AgentId>,
                        scheme: Scheme, current: AgentId -> AgentId) {
    exists i | 0 <= i < |creds| ::
      current(creds[i].subject) == current(subject) && Grants(creds[i], claim, now, issuers, scheme)
  }

  /** Resolution only adds claims: an identity holds what any of its keys holds, and
      nothing else. */
  lemma ClaimsOfAnIdentity(creds: seq<Claim>, subject: AgentId, claim: Bytes, now: Time, issuers: seq<AgentId>,
                           scheme: Scheme, current: AgentId -> AgentId)
    ensures HasClaimVia(creds, subject, claim, now, issuers, scheme, current) <==>
            exists k: AgentId :: current(k) == current(subject) && HasClaim(creds, k, claim, now, issuers, scheme)
  {
    if i :| 0 <= i < |creds| && current(creds[i].subject) == current(subject)
            && Grants(creds[i], claim, now, issuers, scheme) {
      assert HasClaim(creds, creds[i].subject, claim, now, issuers, scheme);
    }
  }

  /** One more credential adds to what is held only if its subject, its claim and its issuer
      are the ones asked for, its issuer signed it and it has not expired; and then it does. */
  lemma OneMoreCredential(creds: seq<Claim>, c: Claim, subject: AgentId, claim: Bytes, now: Time,
                          issuers: seq<AgentId>, scheme: Scheme)
    ensures HasClaim(creds + [c], subject, claim, now, issuers, scheme) <==>
            || HasClaim(creds, subject, claim, now, issuers, scheme)
            || (&& c.subject == subject && c.claim == claim && (issuers == [] || c.issuer in issuers)
                && (c.expiresAt.Some? ==> now < c.expiresAt.value)
                && scheme.valid(c.issuer,
                     Compose(Ascii("agentbbs.credential.v1\n"),
                             [Hex(c.subject.key), c.claim, Hex(c.issuer.key), scheme.stamp(c.issuedAt),
                              if c.expiresAt.Some? then scheme.stamp(c.expiresAt.value) else Ascii("never")]),
                     c.signature))
  {
    var all := creds + [c];
    if HasClaim(creds, subject, claim, now, issuers, scheme) {
      ClaimsLastUntilExpiry(creds, [c], subject, claim, now, now, issuers, scheme);
    }
    if c.subject == subject && Grants(c, claim, now, issuers, scheme) {
      assert all[|creds|] == c;
    }
    if i :| 0 <= i < |all| && all[i].subject == subject && Grants(all[i], claim, now, issuers, scheme) && all[i] != c {
      assert creds[i] == all[i];
    }
  }

  /** The same across rotations, where the subject need only be a key of the identity. */
  lemma OneMoreCredentialVia(creds: seq<Claim>, c: Claim, subject: AgentId, claim: Bytes, now: Time,
                             issuers: seq<AgentId>, scheme: Scheme, current: AgentId -> AgentId)
    ensures HasClaimVia(creds + [c], subject, claim, now, issuers, scheme, current) <==>
            || HasClaimVia(creds, subject, claim, now, issuers, scheme, current)
            || (&& current(c.subject) == current(subject) && c.claim == claim && (issuers == [] || c.issuer in issuers)
                && (c.expiresAt.Some? ==> now < c.expiresAt.value)
                && scheme.valid(c.issuer,
                     Compose(Ascii("agentbbs.credential.v1\n"),
                             [Hex(c.subject.key), c.claim, Hex(c.issuer.key), scheme.stamp(c.issuedAt),
                              if c.expiresAt.Some? then scheme.stamp(c.expiresAt.value) else Ascii("never")]),
                     c.signature))
  {
    forall k: AgentId
      ensures HasClaim(creds + [c], k, claim, now, issuers, scheme) <==>
              || HasClaim(creds, k, claim, now, issuers, scheme)
              || (&& c.subject == k && c.claim == claim && (issuers == [] || c.issuer in issuers)
                  && (c.expiresAt.Some? ==> now < c.expiresAt.value)
                  && scheme.valid(c.issuer,
                     Compose(Ascii("agentbbs.credential.v1\n"),
                             [Hex(c.subject.key), c.claim, Hex(c.issuer.key), scheme.stamp(c.issuedAt),
                              if c.expiresAt.Some? then scheme.stamp(c.expiresAt.value) else Ascii("never")]),
                     c.signature))
    {
      OneMoreCredential(creds, c, k, claim, now, issuers, scheme);
    }
    ClaimsOfAnIdentity(creds + [c], subject, claim, now, issuers, scheme, current);
    ClaimsOfAnIdentity(creds, subject, claim, now, issuers, scheme, current);
  }

  /** An empty store grants nothing. */
  lemma NothingOnFile(subject: AgentId, claim: Bytes, now: Time, issuers: seq<AgentId>, scheme: Scheme,
                      current: AgentId -> AgentId)
    ensures !HasClaim([], subject, claim, now, issuers, scheme)
    ensures !HasClaimVia([], subject, claim, now, issuers, scheme, current)
  {
  }

  /** Every key of one identity gets the same answer, whatever the links: chains, cycles,
      or chains too long to resolve at once. */
  lemma HasClaimViaIsPerIdentity(creds: seq<Claim>, a: AgentId, b: AgentId, claim: Bytes, now: Time,
                                 issuers: seq<AgentId>, scheme: Scheme, next: Links)
    requires Resolve(next, a) == Resolve(next, b)
    ensures HasClaimVia(creds, a, claim, now, issuers, scheme, Resolver(next))
            == HasClaimVia(creds, b, claim, now, issuers, scheme, Resolver(next))
  {
    assert Resolver(next)(a) == Resolver(next)(b);
  }

  /** After rotating `o` to `n`, `n` holds exactly what either key's identity held before. */
  lemma RotationUnitesClaims(creds: seq<Claim>, claim: Bytes, now: Time, issuers: seq<AgentId>, scheme: Scheme,
                             next: Links, o: AgentId, n: AgentId)
    requires o !in next && Ends(next[o := n], n)
    requires forall i :: 0 <= i < |creds| ==> Ends(next[o := n], creds[i].subject)
    ensures HasClaimVia(creds, n, claim, now, issuers, scheme, Resolver(next[o := n])) <==>
            HasClaimVia(creds, o, claim, now, issuers, scheme, Resolver(next))
            || HasClaimVia(creds, n, claim, now, issuers, scheme, Resolver(next))
  {
    forall i | 0 <= i < |creds|
      ensures var s := creds[i].subject;
              Resolver(next[o := n])(s) == Resolver(next[o := n])(n) <==>
              Resolver(next)(s) == Resolver(next)(o) || Resolver(next)(s) == Resolver(next)(n)
    {
      MergedClass(next, next[o := n], o, creds[i].subject);
    }
  }

  class CredentialStore {
    var creds: seq<Claim>
    const scheme: Scheme

    constructor (scheme: Scheme)
      ensures creds == [] && this.scheme == scheme
    {
      creds := [];
      this.scheme := scheme;
    }

    /** Only verified credentials are ever on file. */
    ghost predicate Valid()
      reads this`creds
    {
      forall i :: 0 <= i < |creds| ==> ClaimVerified(creds[i], scheme)
    }

    method Add(c: Claim) returns (r: Result<()>)
      modifies this`creds
      ensures ClaimVerified(c, scheme) ==> r == Ok(()) && creds == old(creds) + [c]
      ensures !ClaimVerified(c, scheme) ==> r == Err(BadSignature) && creds == old(creds)
      ensures old(Valid()) ==> Valid()
      ensures r.Ok? <==> scheme.valid(c.issuer,
                         Compose(Ascii("agentbbs.credential.v1\n"),
                                 [Hex(c.subject.key), c.claim, Hex(c.issuer.key), scheme.stamp(c.issuedAt),
                                  if c.expiresAt.Some? then scheme.stamp(c.expiresAt.value) else Ascii("never")]),
                         c.signature)
    {
      if !ClaimVerified(c, scheme) {
        return Err(BadSignature);
      }
      creds := creds + [c];
      return Ok(());
    }

    method Holds(subject: AgentId, claim: Bytes, now: Time, issuers: seq<AgentId>) returns (r: bool)
      ensures r <==> HasClaim(creds, subject, claim, now, issuers, scheme)
      ensures r <==> exists c | c in creds :: c.subject == subject && c.claim == claim
                       && IsValid(c, now, scheme) && (issuers == [] || c.issuer in issuers)
    {
      r := false;
      for i := 0 to |creds|
        invariant r <==> HasClaim(creds[..i], subject, claim, now, issuers, scheme)
      {
        PrefixGrows(creds, i);
        if creds[i].subject == subject && Grants(creds[i], claim, now, issuers, scheme) {
          r := true;
        }
      }
      WholePrefix(creds);
    }

    /** Resolve the subject once, then scan for a credential of the same identity. */
    method HoldsVia(subject: AgentId, claim: Bytes, now: Time, issuers: seq<AgentId>, chain: RotationChain)
      returns (r: bool)
      ensures r <==> HasClaimVia(creds, subject, claim, now, issuers, scheme, Resolver(chain.next))
      ensures r <==> exists c | c in creds ::
                       Resolve(chain.next, c.subject) == Resolve(chain.next, subject) && c.claim == claim
                       && IsValid(c, now, scheme) && (issuers == [] || c.issuer in issuers)
    {
      var resolved := chain.Current(subject);
      r := false;
      for i := 0 to |creds|
        invariant r <==> HasClaimVia(creds[..i], subject, claim, now, issuers, scheme, Resolver(chain.next))
      {
        var owner := chain.Current(creds[i].subject);
        if owner == resolved && Grants(creds[i], claim, now, issuers, scheme) {
          r := true;
        }
        assert creds[..i + 1] == creds[..i] + [creds[i]];
      }
      assert creds[..|creds|] == creds;
    }
  }

  // ----- Rotation-aware trust -----

  /** `node`, or some key of the same identity, is within reach of the roots. */
  ghost predicate TrustedVia(edges: Edges, roots: set<AgentId>, node: AgentId, maxDepth: nat,
                             current: AgentId -> AgentId) {
    exists k: AgentId :: Within(edges, roots, k, maxDepth) && current(k) == current(node)
  }

  /** The program asks the plain question first; the answer is that of the identity alone. */
  method IsTrustedVia(web: WebOfTrust, node: AgentId, roots: seq<AgentId>, maxDepth: nat, chain: RotationChain)
    returns (r: bool)
    ensures r <==> TrustedVia(web.edges, RootSet(roots), node, maxDepth, Resolver(chain.next))
  {
    r := web.IsTrusted(node, roots, maxDepth);
    if r {
      return;
    }
    var target := chain.Current(node);
    var depth := web.TrustedFrom(roots, maxDepth);
    var todo := depth.Keys;
    while todo != {} && !r
      invariant todo <= depth.Keys
      invariant r ==> exists k :: k in depth && Resolver(chain.next)(k) == target
      invariant !r ==> forall k :: k in depth && k !in todo ==> Resolver(chain.next)(k) != target
      decreases |todo|
    {
      var k :| k in todo;
      var owner := chain.Current(k);
      r := owner == target;
      assert owner == Resolver(chain.next)(k);
      todo := todo - {k};
    }
    assert target == Resolver(chain.next)(node);
  }

  /** Keys of one identity are trusted alike. */
  lemma TrustedViaIsPerIdentity(edges: Edges, roots: set<AgentId>, a: AgentId, b: AgentId, maxDepth: nat, next: Links)
    requires Resolve(next, a) == Resolve(next, b)
    ensures TrustedVia(edges, roots, a, maxDepth, Resolver(next))
            == TrustedVia(edges, roots, b, maxDepth, Resolver(next))
  {
    assert Resolver(next)(a) == Resolver(next)(b);
  }
}
