/** Driving a playbook run to its next closed gate and posting its progress thread. */
module Autopilot {
  import opened Bytes
  import opened Crypto
  import opened Board
  import opened Approval
  import opened Playbook
  import opened Wrappers

  // ----- The driver -----

  /** What the driver takes for an open step: everyone on record for the gate may decide. */
  predicate Open(pb: PlaybookDef, i: nat, decisions: seq<SignedDecision>)
    requires i < |pb.steps|
  {
    IsGate(pb, i) ==>
      var aid := GateActionId(pb, pb.steps[i].id);
      Authorized(decisions, aid, Deciders(decisions, aid))
  }

  /** The first step at or after `c` that is not open, or the end. */
  function FirstBlocked(pb: PlaybookDef, c: nat, decisions: seq<SignedDecision>): (r: nat)
    requires c <= |pb.steps|
    ensures c <= r <= |pb.steps|
    ensures forall i :: c <= i < r ==> Open(pb, i, decisions)
    ensures r < |pb.steps| ==> IsGate(pb, r) && !Open(pb, r, decisions)
    decreases |pb.steps| - c
  {
    if c == |pb.steps| || !Open(pb, c, decisions) then c else FirstBlocked(pb, c + 1, decisions)
  }

  /** Where driving leaves a run. */
  function Driven(pb: PlaybookDef, r: RunState, decisions: seq<SignedDecision>): (next: RunState)
    requires RunOk(pb, r)
    ensures RunOk(pb, next) && next.status != Running
  {
    if r.status == Completed then r
    else
      var c := FirstBlocked(pb, r.cursor, decisions);
      RunState(c, if c == |pb.steps| then Completed else AwaitingApproval)
  }

  /** Driving a parked run again, with nothing newly decided, changes nothing. */
  lemma DrivingIsIdempotent(pb: PlaybookDef, r: RunState, decisions: seq<SignedDecision>)
    requires RunOk(pb, r)
    ensures Driven(pb, Driven(pb, r, decisions), decisions) == Driven(pb, r, decisions)
  {
  }

  /** In the decisions' own fields: a gate driven past had an approval and no rejection. */
  lemma DrivenPastGatesWereApproved(pb: PlaybookDef, r: RunState, decisions: seq<SignedDecision>, i: nat)
    requires RunOk(pb, r) && r.cursor <= i < Driven(pb, r, decisions).cursor && pb.steps[i].kind.HumanGate?
    ensures var action := Ascii("playbook:") + pb.playbookId + Ascii(":") + pb.steps[i].id;
            && (exists k :: 0 <= k < |decisions| && decisions[k].actionId == action && decisions[k].verdict == Approve)
            && (forall k :: 0 <= k < |decisions| && decisions[k].actionId == action ==> decisions[k].verdict == Approve)
  {
    assert Open(pb, i, decisions) && [COLON] == Ascii(":");
    OpenGateNeedsUnanimity(decisions, GateActionId(pb, pb.steps[i].id));
  }

  /** A driven run is over, or waits at a gate that nobody approved or somebody rejected. */
  lemma WhereDrivingStops(pb: PlaybookDef, r: RunState, decisions: seq<SignedDecision>)
    requires RunOk(pb, r)
    ensures var d := Driven(pb, r, decisions);
            && r.cursor <= d.cursor <= |pb.steps|
            && (d.status == Completed <==> d.cursor == |pb.steps|)
            && (d.cursor < |pb.steps| ==>
                  && d.status == AwaitingApproval && pb.steps[d.cursor].kind.HumanGate?
                  && var action := Ascii("playbook:") + pb.playbookId + Ascii(":") + pb.steps[d.cursor].id;
                     || (forall k :: 0 <= k < |decisions| && decisions[k].actionId == action
                                     ==> decisions[k].verdict == Reject)
                     || (exists k :: 0 <= k < |decisions| && decisions[k].actionId == action
                                     && decisions[k].verdict == Reject))
  {
    var c := Driven(pb, r, decisions).cursor;
    if c < |pb.steps| {
      assert IsGate(pb, c) && !Open(pb, c, decisions) && [COLON] == Ascii(":");
      OpenGateNeedsUnanimity(decisions, GateActionId(pb, pb.steps[c].id));
    }
  }

  function DeciderList(ds: seq<SignedDecision>): (r: seq<AgentId>)
    ensures |r| == |ds| && forall i :: 0 <= i < |ds| ==> r[i] == ds[i].decider
  {
    seq(|ds|, i requires 0 <= i < |ds| => ds[i].decider)
  }

  lemma DeciderListIsDeciders(decisions: seq<SignedDecision>, aid: Bytes)
    ensures (set a | a in DeciderList(DecisionsFor(decisions, aid))) == Deciders(decisions, aid)
  {
    var ds := DecisionsFor(decisions, aid);
    forall a | a in Deciders(decisions, aid) ensures a in DeciderList(ds) {
      var i :| 0 <= i < |ds| && ds[i].decider == a;
      assert DeciderList(ds)[i] == a;
    }
  }

  /** Advance until the run parks or completes. */
  method Drive(run: PlaybookRun, gate: ApprovalGate)
    requires run.Valid()
    modifies run
    ensures run.Valid()
    ensures run.State() == Driven(run.playbook, old(run.State()), gate.decisions)
  {
    ghost var goal := Driven(run.playbook, run.State(), gate.decisions);
    while true
      invariant run.Valid() && Driven(run.playbook, run.State(), gate.decisions) == goal
      decreases |run.playbook.steps| - run.cursor
    {
      var aid := run.CurrentGate();
      var allowed := if aid.Some? then DeciderList(DecisionsFor(gate.decisions, aid.value)) else [];
      if aid.Some? {
        DeciderListIsDeciders(gate.decisions, aid.value);
      }
      var s := run.Advance(gate, allowed);
      if s != Running {
        break;
      }
    }
  }

  // ----- The progress thread -----

  datatype Attempt = MilestonePost | StepPost(step: nat, parent: MessageId)

  /** The posts attempted for one run: milestone tries, only the last of which succeeded,
      then the steps from the first on, each once, threaded under that milestone. */
  ghost predicate IsThread(log: seq<Attempt>, outcomes: seq<Option<MessageId>>, tries: nat,
                           milestone: Option<MessageId>, posted: nat) {
    && |log| == |outcomes| == tries + posted
    && (forall i :: 0 <= i < tries ==> log[i] == MilestonePost)
    && (forall i :: 0 <= i < tries - 1 ==> outcomes[i] == None)
    && (tries > 0 ==> outcomes[tries - 1] == milestone)
    && (milestone.Some? ==> tries > 0)
    && (milestone.None? ==> posted == 0)
    && (forall j :: 0 <= j < posted ==> log[tries + j] == StepPost(j, milestone.value))
  }

  /** A thread attempts each of the first `posted` steps exactly once, in order. */
  lemma EachStepOnce(log: seq<Attempt>, outcomes: seq<Option<MessageId>>, tries: nat, milestone: Option<MessageId>,
                     posted: nat, s: nat)
    requires IsThread(log, outcomes, tries, milestone, posted)
    ensures s < posted <==> exists i :: 0 <= i < |log| && log[i].StepPost? && log[i].step == s
    ensures forall i, j :: 0 <= i < j < |log| && log[i].StepPost? && log[j].StepPost? ==> log[i].step < log[j].step
  {
    forall i | 0 <= i < |log| && log[i].StepPost? ensures i >= tries && log[i].step == i - tries {
      if i >= tries {
        assert log[tries + (i - tries)] == StepPost(i - tries, milestone.value);
      }
    }
    if s < posted {
      assert log[tries + s] == StepPost(s, milestone.value);
    }
  }

  class App {
    const gate: ApprovalGate
    const playbook: PlaybookDef
    const blank: Bytes -> bool
    /** What the board answers to each post in turn. */
    const board: nat -> Option<MessageId>
    var run: PlaybookRun?
    var runMilestone: Option<MessageId>
    var runStepsPosted: nat
    /** How many posts the board has seen. */
    var postCount: nat
    /** The posts attempted since the run started, and what came of them. */
    ghost var thread: seq<Attempt>
    ghost var outcomes: seq<Option<MessageId>>
    ghost var tries: nat

    ghost predicate Valid()
      reads this, run
    {
      && IsThread(thread, outcomes, tries, runMilestone, runStepsPosted)
      && (run == null ==> runStepsPosted == 0)
      && (run != null ==> run.Valid() && runStepsPosted <= run.cursor)
    }

    constructor (gate: ApprovalGate, playbook: PlaybookDef, blank: Bytes -> bool, board: nat -> Option<MessageId>)
      ensures Valid() && run == null && this.gate == gate && this.playbook == playbook
      ensures this.blank == blank && this.board == board
    {
      this.gate, this.playbook, this.blank, this.board := gate, playbook, blank, board;
      run, runMilestone, runStepsPosted, postCount := null, None, 0, 0;
      thread, outcomes, tries := [], [], 0;
    }

    /** Sign and post as the autopilot; the board may refuse. */
    method PostAutopilot(attempt: Attempt) returns (id: Option<MessageId>)
      modifies this`postCount, this`thread, this`outcomes
      ensures id == board(old(postCount)) && postCount == old(postCount) + 1
      ensures thread == old(thread) + [attempt] && outcomes == old(outcomes) + [id]
    {
      id := board(postCount);
      postCount := postCount + 1;
      thread, outcomes := thread + [attempt], outcomes + [id];
    }

    /** Post the milestone if none stands yet, then every completed step not posted yet. */
    method PostRunProgress(r: PlaybookRun)
      requires IsThread(thread, outcomes, tries, runMilestone, runStepsPosted) && runStepsPosted <= r.cursor
      modifies this`runMilestone, this`runStepsPosted, this`postCount, this`thread, this`outcomes, this`tries
      ensures IsThread(thread, outcomes, tries, runMilestone, runStepsPosted)
      ensures old(thread) <= thread && old(outcomes) <= outcomes
      ensures old(runMilestone).Some? ==> runMilestone == old(runMilestone)
      ensures runStepsPosted == if runMilestone.Some? then r.cursor else 0
    {
      if runMilestone.None? {
        runMilestone := PostAutopilot(MilestonePost);
        tries := tries + 1;
      }
      if runMilestone.None? {
        return;
      }
      var milestone := runMilestone.value;
      while runStepsPosted < r.cursor
        invariant IsThread(thread, outcomes, tries, runMilestone, runStepsPosted)
        invariant old(thread) <= thread && old(outcomes) <= outcomes
        invariant runMilestone == Some(milestone) && runStepsPosted <= r.cursor
      {
        var _ := PostAutopilot(StepPost(runStepsPosted, milestone));
        runStepsPosted := runStepsPosted + 1;
      }
    }

    /** Start a fresh run and a fresh thread; an ill-formed playbook starts nothing. */
    method RunPlaybook()
      requires Valid()
      modifies this
      ensures Valid()
      ensures !WellFormed(playbook, blank) ==> run == old(run) && thread == old(thread) && postCount == old(postCount)
      ensures WellFormed(playbook, blank) ==>
        && run != null && fresh(run) && run.playbook == playbook
        && run.State() == Driven(playbook, RunState(0, Running), gate.decisions)
        && runStepsPosted == if runMilestone.Some? then run.cursor else 0
    {
      var started := Start(playbook, blank);
      match started
      case Err(_) =>
        return;
      case Ok(r) =>
        runMilestone, runStepsPosted := None, 0;
        thread, outcomes, tries := [], [], 0;
        Drive(r, gate);
        PostRunProgress(r);
        run := r;
    }

    /** Re-check the gate and drive the active run on, extending its thread. */
    method AdvanceRun()
      requires Valid()
      modifies this, run
      ensures Valid() && run == old(run)
      ensures run == null ==> thread == old(thread) && postCount == old(postCount)
      ensures run != null ==>
        && run.State() == Driven(run.playbook, old(run.State()), gate.decisions)
        && old(thread) <= thread
        && runStepsPosted == if runMilestone.Some? then run.cursor else 0
    {
      if run == null {
        return;
      }
      Drive(run, gate);
      PostRunProgress(run);
    }
  }
}
