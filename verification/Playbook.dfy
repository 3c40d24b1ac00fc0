/** Playbooks and the approval-gated walk through their steps. Text is bytes; whether a
    text is blank is a parameter. */
module Playbook {
  import opened Bytes
  import opened Crypto
  import opened Approval
  import opened Wrappers

  datatype StepKind =
    | AgentTask(agent: Bytes, instruction: Bytes)
    | HumanGate(summary: Bytes)
    | Tool(tool: Bytes)

  datatype PlaybookStep = PlaybookStep(id: Bytes, kind: StepKind)

  datatype PlaybookDef = PlaybookDef(playbookId: Bytes, name: Bytes, version: Bytes, trigger_: Bytes,
                                     steps: seq<PlaybookStep>)

  // ----- Validation -----

  predicate FieldsFilled(kind: StepKind, blank: Bytes -> bool) {
    match kind
    case AgentTask(agent, instruction) => !blank(agent) && !blank(instruction)
    case HumanGate(summary) => !blank(summary)
    case Tool(tool) => !blank(tool)
  }

  ghost predicate WellFormed(pb: PlaybookDef, blank: Bytes -> bool) {
    && !blank(pb.name) && !blank(pb.version) && pb.steps != []
    && (forall i :: 0 <= i < |pb.steps| ==> !blank(pb.steps[i].id) && FieldsFilled(pb.steps[i].kind, blank))
    && (forall i, j :: 0 <= i < j < |pb.steps| ==> pb.steps[i].id != pb.steps[j].id)
  }

  method Validate(pb: PlaybookDef, blank: Bytes -> bool) returns (r: Result<()>)
    ensures r == if WellFormed(pb, blank) then Ok(()) else Err(Malformed)
    ensures r.Ok? <==>
            && !blank(pb.name) && !blank(pb.version) && |pb.steps| > 0
            && (forall s | s in pb.steps ::
                  && !blank(s.id)
                  && (s.kind.AgentTask? ==> !blank(s.kind.agent) && !blank(s.kind.instruction))
                  && (s.kind.HumanGate? ==> !blank(s.kind.summary))
                  && (s.kind.Tool? ==> !blank(s.kind.tool)))
            && (forall i, j :: 0 <= i < j < |pb.steps| ==> pb.steps[i].id != pb.steps[j].id)
  {
    if blank(pb.name) || blank(pb.version) {
      return Err(Malformed);
    }
    if pb.steps == [] {
      return Err(Malformed);
    }
    var seen: set<Bytes> := {};
    for k := 0 to |pb.steps|
      invariant forall id :: id in seen <==> exists i :: 0 <= i < k && pb.steps[i].id == id
      invariant forall i :: 0 <= i < k ==> !blank(pb.steps[i].id) && FieldsFilled(pb.steps[i].kind, blank)
      invariant forall i, j :: 0 <= i < j < k ==> pb.steps[i].id != pb.steps[j].id
    {
      var s := pb.steps[k];
      if blank(s.id) || s.id in seen {
        return Err(Malformed);
      }
      seen := seen + {s.id};
      if !FieldsFilled(s.kind, blank) {
        return Err(Malformed);
      }
    }
    return Ok(());
  }

  // ----- Gates -----

  const GATE_PREFIX: Bytes := Ascii("playbook:")

  /** What a human signs to open the gate at step `stepId`. */
  function GateActionId(pb: PlaybookDef, stepId: Bytes): Bytes {
    GATE_PREFIX + pb.playbookId + [COLON] + stepId
  }

  predicate IsGate(pb: PlaybookDef, i: nat) {
    i < |pb.steps| && pb.steps[i].kind.HumanGate?
  }

  /** Within a well-formed playbook no two gates share an action id: signing one off signs
      off no other. */
  lemma GatesAreSignedSeparately(pb: PlaybookDef, blank: Bytes -> bool, i: nat, j: nat)
    requires WellFormed(pb, blank) && i < |pb.steps| && j < |pb.steps|
    requires GateActionId(pb, pb.steps[i].id) == GateActionId(pb, pb.steps[j].id)
    ensures i == j
  {
    var n := |GATE_PREFIX| + |pb.playbookId| + 1;
    assert pb.steps[i].id == GateActionId(pb, pb.steps[i].id)[n..];
    assert pb.steps[j].id == GateActionId(pb, pb.steps[j].id)[n..];
  }

  /** Nor do gates of different playbooks, as long as playbook ids hold no colon. */
  lemma PlaybooksAreSignedSeparately(pb: PlaybookDef, other: PlaybookDef, s: Bytes, t: Bytes)
    requires Free(COLON, pb.playbookId) && Free(COLON, other.playbookId)
    requires GateActionId(pb, s) == GateActionId(other, t)
    ensures pb.playbookId == other.playbookId && s == t
  {
    var n := |GATE_PREFIX|;
    assert GateActionId(pb, s)[n..] == pb.playbookId + [COLON] + s;
    assert GateActionId(other, t)[n..] == other.playbookId + [COLON] + t;
    SplitAtSeparator(COLON, pb.playbookId, s, other.playbookId, t);
  }

  // ----- Advancing -----

  datatype RunStatus = Running | AwaitingApproval | Completed | Failed

  /** Step `i` may be passed: it is no gate, or its gate is authorized. */
  predicate Passable(pb: PlaybookDef, i: nat, decisions: seq<SignedDecision>, allowed: set<AgentId>)
    requires i < |pb.steps|
  {
    IsGate(pb, i) ==> Authorized(decisions, GateActionId(pb, pb.steps[i].id), allowed)
  }

  datatype RunState = RunState(cursor: nat, status: RunStatus)

  predicate RunOk(pb: PlaybookDef, r: RunState) {
    r.cursor <= |pb.steps| && (r.status == Completed <==> r.cursor == |pb.steps|) && r.status != Failed
  }

  /** One `advance`: past a passable step, or parked at a gate. */
  function Advanced(pb: PlaybookDef, r: RunState, decisions: seq<SignedDecision>,
                    allowed: set<AgentId>): (next: RunState)
    ensures RunOk(pb, r) ==> RunOk(pb, next)
  {
    if r.status == Completed || r.status == Failed then r
    else if r.cursor < |pb.steps| && !Passable(pb, r.cursor, decisions, allowed) then r.(status := AwaitingApproval)
    else RunState(r.cursor + 1, if r.cursor + 1 >= |pb.steps| then Completed else Running)
  }

  class PlaybookRun {
    const playbook: PlaybookDef
    var cursor: nat
    var status: RunStatus

    function State(): RunState
      reads this
    {
      RunState(cursor, status)
    }

    predicate Valid()
      reads this
    {
      RunOk(playbook, State())
    }

    constructor (playbook: PlaybookDef)
      requires playbook.steps != []
      ensures this.playbook == playbook && State() == RunState(0, Running) && Valid()
    {
      this.playbook, cursor, status := playbook, 0, Running;
    }

    function Current(): Option<PlaybookStep>
      reads this
    {
      if cursor < |playbook.steps| then Some(playbook.steps[cursor]) else None
    }

    /** The action id of the current gate, if the current step is one. */
    function CurrentGate(): (r: Option<Bytes>)
      reads this
      ensures r.Some? <==> IsGate(playbook, cursor)
      ensures r.Some? ==> r.value == GateActionId(playbook, playbook.steps[cursor].id)
    {
      match Current()
      case Some(step) => if step.kind.HumanGate? then Some(GateActionId(playbook, step.id)) else None
      case None => None
    }

    method Advance(gate: ApprovalGate, allowed: seq<AgentId>) returns (s: RunStatus)
      requires Valid()
      modifies this`cursor, this`status
      ensures Valid() && s == status
      ensures State() == Advanced(playbook, old(State()), gate.decisions, set a | a in allowed)
      ensures old(cursor) == |playbook.steps| ==> cursor == old(cursor) && status == Completed
      ensures old(cursor) < |playbook.steps| && !playbook.steps[old(cursor)].kind.HumanGate? ==>
                cursor == old(cursor) + 1
      ensures old(cursor) < |playbook.steps| && playbook.steps[old(cursor)].kind.HumanGate? ==>
                var action := Ascii("playbook:") + playbook.playbookId + Ascii(":") + playbook.steps[old(cursor)].id;
                if && (exists d | d in gate.decisions ::
                         d.actionId == action && d.decider in allowed && d.verdict == Approve)
                   && (forall d | d in gate.decisions && d.actionId == action && d.decider in allowed ::
                         d.verdict == Approve)
                then cursor == old(cursor) + 1 else cursor == old(cursor) && status == AwaitingApproval
      ensures cursor == old(cursor) + 1 ==> status == if cursor == |playbook.steps| then Completed else Running
    {
      if status == Completed || status == Failed {
        return status;
      }
      var aid := CurrentGate();
      if aid.Some? {
        var authorized := gate.IsAuthorized(aid.value, allowed);
        if !authorized {
          status := AwaitingApproval;
          return status;
        }
      }
      cursor := cursor + 1;
      status := if cursor >= |playbook.steps| then Completed else Running;
      return status;
    }
  }

  method Start(playbook: PlaybookDef, blank: Bytes -> bool) returns (r: Result<PlaybookRun>)
    ensures r.Ok? <==> WellFormed(playbook, blank)
    ensures r.Err? ==> r.error == Malformed
    ensures r.Ok? ==> fresh(r.value) && r.value.Valid() && r.value.playbook == playbook
                      && r.value.State() == RunState(0, Running)
  {
    var valid := Validate(playbook, blank);
    match valid
    case Err(e) =>
      return Err(e);
    case Ok(_) =>
      var run := new PlaybookRun(playbook);
      return Ok(run);
  }

  // ----- Interleavings of decisions and advances -----

  datatype GateOp = Record(d: SignedDecision) | Advance(allowed: set<AgentId>)

  datatype GateState = GateState(decisions: seq<SignedDecision>, run: RunState)

  function GateStep(pb: PlaybookDef, s: GateState, op: GateOp, scheme: Scheme): GateState {
    match op
    case Record(d) => if DecisionVerified(d, scheme) then s.(decisions := s.decisions + [d]) else s
    case Advance(allowed) => s.(run := Advanced(pb, s.run, s.decisions, allowed))
  }

  function GateRun(pb: PlaybookDef, s: GateState, ops: seq<GateOp>, scheme: Scheme): GateState {
    if ops == [] then s
    else GateStep(pb, GateRun(pb, s, ops[..|ops| - 1], scheme), ops[|ops| - 1], scheme)
  }

  /** The `k`-th operation advanced the run past step `i`, whose gate, if it is one, was
      authorized at that moment by the deciders that call allowed. */
  ghost predicate PassedAt(pb: PlaybookDef, s: GateState, ops: seq<GateOp>, scheme: Scheme, i: nat, k: nat) {
    && k < |ops| && ops[k].Advance? && i < |pb.steps|
    && GateRun(pb, s, ops[..k], scheme).run.cursor == i
    && Passable(pb, i, GateRun(pb, s, ops[..k], scheme).decisions, ops[k].allowed)
  }

  /** In every interleaving the cursor only grows and decisions only accumulate. */
  lemma {:induction false} CursorOnlyGrows(pb: PlaybookDef, s: GateState, ops: seq<GateOp>, scheme: Scheme)
    requires RunOk(pb, s.run)
    ensures var t := GateRun(pb, s, ops, scheme);
            RunOk(pb, t.run) && s.run.cursor <= t.run.cursor && s.decisions <= t.decisions
  {
    if ops != [] {
      CursorOnlyGrows(pb, s, ops[..|ops| - 1], scheme);
    }
  }

  /** Every step the run got past was passed at one moment, by an advance that found it
      passable then. */
  lemma {:induction false} EveryGatePassedWasAuthorized(pb: PlaybookDef, s: GateState, ops: seq<GateOp>,
                                        scheme: Scheme, i: nat)
    requires RunOk(pb, s.run) && s.run.cursor <= i < GateRun(pb, s, ops, scheme).run.cursor
    ensures exists k: nat :: PassedAt(pb, s, ops, scheme, i, k)
  {
    var n := |ops| - 1;
    CursorOnlyGrows(pb, s, ops[..n], scheme);
    var t := GateRun(pb, s, ops[..n], scheme);
    if i < t.run.cursor {
      EveryGatePassedWasAuthorized(pb, s, ops[..n], scheme, i);
      var k: nat :| PassedAt(pb, s, ops[..n], scheme, i, k);
      assert ops[..n][..k] == ops[..k];
      assert PassedAt(pb, s, ops, scheme, i, k);
    } else {
      assert PassedAt(pb, s, ops, scheme, i, n);
    }
  }

  /** In the decisions' own fields: for each gate the run got past, at the advance that passed
      it somebody allowed had approved it and nobody allowed had rejected it. */
  lemma GatePassedWasApproved(pb: PlaybookDef, s: GateState, ops: seq<GateOp>, scheme: Scheme, i: nat)
    returns (k: nat)
    requires RunOk(pb, s.run) && s.run.cursor <= i < GateRun(pb, s, ops, scheme).run.cursor
    requires i < |pb.steps| && pb.steps[i].kind.HumanGate?
    ensures k < |ops| && ops[k].Advance?
    ensures GateRun(pb, s, ops[..k], scheme).run.cursor == i
    ensures var action := Ascii("playbook:") + pb.playbookId + Ascii(":") + pb.steps[i].id;
            var decisions := GateRun(pb, s, ops[..k], scheme).decisions;
            && (exists d | d in decisions ::
                  d.actionId == action && d.decider in ops[k].allowed && d.verdict == Approve)
            && (forall d | d in decisions && d.actionId == action && d.decider in ops[k].allowed ::
                  d.verdict == Approve)
  {
    EveryGatePassedWasAuthorized(pb, s, ops, scheme, i);
    k :| PassedAt(pb, s, ops, scheme, i, k);
    assert [COLON] == Ascii(":");
    AuthorizedMeans(GateRun(pb, s, ops[..k], scheme).decisions, GateActionId(pb, pb.steps[i].id), ops[k].allowed);
  }

  /** And each decision counted was signed: it was there before, or was recorded in the run
      with a signature over its fields. */
  lemma {:induction false} DecisionsWereRecorded(pb: PlaybookDef, s: GateState, ops: seq<GateOp>, scheme: Scheme,
                                                 d: SignedDecision)
    requires d in GateRun(pb, s, ops, scheme).decisions && d !in s.decisions
    ensures Record(d) in ops
    ensures scheme.valid(d.decider,
              Compose(Ascii("agentbbs.approval.v1\n"),
                      [d.actionId, if d.verdict == Approve then Ascii("approve") else Ascii("reject"),
                       d.reason, Hex(d.decider.key), scheme.stamp(d.createdAt)]), d.signature)
  {
    var n := |ops| - 1;
    if d in GateRun(pb, s, ops[..n], scheme).decisions {
      DecisionsWereRecorded(pb, s, ops[..n], scheme, d);
    }
  }

  lemma VetoedGateIsNotPassed(pb: PlaybookDef, s: GateState, ops: seq<GateOp>, scheme: Scheme,
                              i: nat, vetoers: set<AgentId>, k: nat)
    requires RunOk(pb, s.run) && IsGate(pb, i) && k < |ops|
    requires Vetoed(s.decisions, GateActionId(pb, pb.steps[i].id), vetoers)
    requires ops[k].Advance? ==> vetoers <= ops[k].allowed
    ensures !PassedAt(pb, s, ops, scheme, i, k)
  {
    if ops[k].Advance? {
      CursorOnlyGrows(pb, s, ops[..k], scheme);
      var now := GateRun(pb, s, ops[..k], scheme).decisions;
      var later := now[|s.decisions|..];
      assert now == s.decisions + later;
      VetoIsForever(s.decisions, later, GateActionId(pb, pb.steps[i].id), vetoers, ops[k].allowed);
    }
  }

  /** A veto on record by a decider every later advance allows keeps the run at or before
      that gate forever, whatever else is recorded. */
  lemma VetoBlocksTheGate(pb: PlaybookDef, s: GateState, ops: seq<GateOp>, scheme: Scheme, i: nat,
                          vetoers: set<AgentId>)
    requires RunOk(pb, s.run) && s.run.cursor <= i && IsGate(pb, i)
    requires Vetoed(s.decisions, GateActionId(pb, pb.steps[i].id), vetoers)
    requires forall k :: 0 <= k < |ops| && ops[k].Advance? ==> vetoers <= ops[k].allowed
    ensures GateRun(pb, s, ops, scheme).run.cursor <= i
  {
    forall k: nat | k < |ops| ensures !PassedAt(pb, s, ops, scheme, i, k) {
      VetoedGateIsNotPassed(pb, s, ops, scheme, i, vetoers, k);
    }
    if GateRun(pb, s, ops, scheme).run.cursor > i {
      EveryGatePassedWasAuthorized(pb, s, ops, scheme, i);
    }
  }
}
