/** Human sign-off: signed decisions and the gate that reads them. */
module Approval {
  import opened Bytes
  import opened Crypto
  import opened Wrappers

  datatype Verdict = Approve | Reject

  datatype SignedDecision = SignedDecision(actionId: Bytes, verdict: Verdict, reason: Bytes, decider: AgentId,
                                           createdAt: Time, signature: Signature)

  const APPROVAL_TAG: Bytes := Ascii("agentbbs.approval.v1\n")
  const APPROVE: Bytes := Ascii("approve")
  const REJECT: Bytes := Ascii("reject")

  function DecisionParts(d: SignedDecision, scheme: Scheme): seq<Bytes> {
    [d.actionId, if d.verdict.Approve? then APPROVE else REJECT, d.reason,
     Hex(d.decider.key), scheme.stamp(d.createdAt)]
  }

  predicate DecisionVerified(d: SignedDecision, scheme: Scheme) {
    scheme.valid(d.decider, Compose(APPROVAL_TAG, DecisionParts(d, scheme)), d.signature)
  }

  /** A signature binds action, verdict, reason, decider and time: no approval can be
      re-read as a veto, or as an approval of something else. */
  lemma DecisionBytesAreInjective(d: SignedDecision, e: SignedDecision, scheme: Scheme)
    requires scheme.Sound()
    requires Compose(APPROVAL_TAG, DecisionParts(d, scheme)) == Compose(APPROVAL_TAG, DecisionParts(e, scheme))
    ensures d.(signature := e.signature) == e
  {
    var p, q := DecisionParts(d, scheme), DecisionParts(e, scheme);
    ComposeIsInjective(APPROVAL_TAG, p, q);
    assert p[0] == q[0] && p[1] == q[1] && p[2] == q[2] && p[3] == q[3] && p[4] == q[4];
    assert |APPROVE| == 7 && |REJECT| == 6;
    HexIsInjective(d.decider.key, e.decider.key);
  }

  predicate Decides(d: SignedDecision, actionId: Bytes, v: Verdict, allowed: set<AgentId>) {
    d.actionId == actionId && d.verdict == v && d.decider in allowed
  }

  /** Some allowed decider approved and none vetoed. */
  predicate Authorized(decisions: seq<SignedDecision>, actionId: Bytes, allowed: set<AgentId>) {
    && (exists i | 0 <= i < |decisions| :: Decides(decisions[i], actionId, Approve, allowed))
    && !Vetoed(decisions, actionId, allowed)
  }

  predicate Vetoed(decisions: seq<SignedDecision>, actionId: Bytes, allowed: set<AgentId>) {
    exists i | 0 <= i < |decisions| :: Decides(decisions[i], actionId, Reject, allowed)
  }

  /** In the decisions' own fields: an approval of this action by someone allowed, and no
      rejection of it by anyone allowed. */
  lemma AuthorizedMeans(decisions: seq<SignedDecision>, actionId: Bytes, allowed: set<AgentId>)
    ensures Authorized(decisions, actionId, allowed) <==>
            && (exists d | d in decisions :: d.actionId == actionId && d.decider in allowed && d.verdict == Approve)
            && (forall d | d in decisions && d.actionId == actionId && d.decider in allowed :: d.verdict == Approve)
  {
    if d :| d in decisions && d.actionId == actionId && d.decider in allowed && d.verdict == Approve {
      var i :| 0 <= i < |decisions| && decisions[i] == d;
      assert Decides(decisions[i], actionId, Approve, allowed);
    }
    if d :| d in decisions && d.actionId == actionId && d.decider in allowed && d.verdict == Reject {
      var i :| 0 <= i < |decisions| && decisions[i] == d;
      assert Decides(decisions[i], actionId, Reject, allowed);
    }
  }

  /** One more decision counts only if it is on this action and by someone allowed; then an
      approval is enough unless someone allowed had rejected, and a rejection is final. */
  lemma OneMoreDecision(decisions: seq<SignedDecision>, d: SignedDecision, actionId: Bytes, allowed: set<AgentId>)
    ensures Authorized(decisions + [d], actionId, allowed) <==>
            if d.actionId != actionId || d.decider !in allowed then Authorized(decisions, actionId, allowed)
            else d.verdict == Approve
                 && forall o | o in decisions && o.actionId == actionId && o.decider in allowed :: o.verdict == Approve
  {
    AuthorizedMeans(decisions, actionId, allowed);
    AuthorizedMeans(decisions + [d], actionId, allowed);
  }

  /** With nobody allowed nothing is authorized. */
  lemma NobodyAllowedNothingAuthorized(decisions: seq<SignedDecision>, actionId: Bytes)
    ensures !Authorized(decisions, actionId, {})
  {
    AuthorizedMeans(decisions, actionId, {});
  }

  /** A veto stands whatever is recorded after it and whoever else may decide. */
  lemma VetoIsForever(decisions: seq<SignedDecision>, later: seq<SignedDecision>, actionId: Bytes,
                      allowed: set<AgentId>, wider: set<AgentId>)
    requires Vetoed(decisions, actionId, allowed) && allowed <= wider
    ensures Vetoed(decisions + later, actionId, wider) && !Authorized(decisions + later, actionId, wider)
  {
    var i :| 0 <= i < |decisions| && Decides(decisions[i], actionId, Reject, allowed);
    assert (decisions + later)[i] == decisions[i];
  }

  /** The decisions on one action, in order. */
  function DecisionsFor(decisions: seq<SignedDecision>, actionId: Bytes): (r: seq<SignedDecision>)
    ensures forall d :: d in r <==> d in decisions && d.actionId == actionId
  {
    if decisions == [] then []
    else
      assert decisions == [decisions[0]] + decisions[1..];
      (if decisions[0].actionId == actionId then [decisions[0]] else []) + DecisionsFor(decisions[1..], actionId)
  }

  /** The deciders on record for an action: the set the driver allows. */
  function Deciders(decisions: seq<SignedDecision>, actionId: Bytes): set<AgentId> {
    set d | d in DecisionsFor(decisions, actionId) :: d.decider
  }

  /** With everyone on record allowed, an action goes ahead exactly when someone approved
      it and nobody at all rejected it. */
  lemma OpenGateNeedsUnanimity(decisions: seq<SignedDecision>, actionId: Bytes)
    ensures Authorized(decisions, actionId, Deciders(decisions, actionId)) <==>
            && (exists i :: 0 <= i < |decisions| && decisions[i].actionId == actionId
                         && decisions[i].verdict == Approve)
            && (forall i :: 0 <= i < |decisions| && decisions[i].actionId == actionId
                         ==> decisions[i].verdict == Approve)
  {
    forall i | 0 <= i < |decisions| && decisions[i].actionId == actionId
      ensures Decides(decisions[i], actionId, decisions[i].verdict, Deciders(decisions, actionId))
    {
      assert decisions[i] in DecisionsFor(decisions, actionId);
    }
  }

  class ApprovalGate {
    var decisions: seq<SignedDecision>
    const scheme: Scheme

    constructor (scheme: Scheme)
      ensures decisions == [] && this.scheme == scheme && Valid()
    {
      decisions := [];
      this.scheme := scheme;
    }

    /** Nothing forged is ever on record. */
    ghost predicate Valid()
      reads this`decisions
    {
      forall i :: 0 <= i < |decisions| ==> DecisionVerified(decisions[i], scheme)
    }

    method Record(d: SignedDecision) returns (r: Result<()>)
      requires Valid()
      modifies this`decisions
      ensures Valid()
      ensures DecisionVerified(d, scheme) ==> r == Ok(()) && decisions == old(decisions) + [d]
      ensures !DecisionVerified(d, scheme) ==> r == Err(BadSignature) && decisions == old(decisions)
      ensures r.Ok? <==> scheme.valid(d.decider,
                           Compose(Ascii("agentbbs.approval.v1\n"),
                                   [d.actionId, if d.verdict == Approve then Ascii("approve") else Ascii("reject"),
                                    d.reason, Hex(d.decider.key), scheme.stamp(d.createdAt)]), d.signature)
    {
      if !DecisionVerified(d, scheme) {
        return Err(BadSignature);
      }
      decisions := decisions + [d];
      return Ok(());
    }

    /** Scan the relevant decisions; the first veto settles it. */
    method IsAuthorized(actionId: Bytes, allowed: seq<AgentId>) returns (approved: bool)
      ensures approved <==> Authorized(decisions, actionId, set a | a in allowed)
      ensures approved <==>
              && (exists d | d in decisions :: d.actionId == actionId && d.decider in allowed && d.verdict == Approve)
              && (forall d | d in decisions && d.actionId == actionId && d.decider in allowed :: d.verdict == Approve)
    {
      AuthorizedMeans(decisions, actionId, set a | a in allowed);
      var allowedSet := set a | a in allowed;
      approved := false;
      for i := 0 to |decisions|
        invariant !Vetoed(decisions[..i], actionId, allowedSet)
        invariant approved <==> exists k :: 0 <= k < i && Decides(decisions[k], actionId, Approve, allowedSet)
      {
        var d := decisions[i];
        assert decisions[..i + 1] == decisions[..i] + [d];
        if d.actionId == actionId && d.decider in allowedSet {
          match d.verdict
          case Reject =>
            assert Decides(decisions[i], actionId, Reject, allowedSet);
            return false;
          case Approve =>
            approved := true;
        }
      }
      assert decisions[..|decisions|] == decisions;
    }
  }
}
