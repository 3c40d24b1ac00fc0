/** Author-only retract and edit: resolving a board's signed control messages. */
module ControlMessages {
  import opened Bytes
  import opened Crypto
  import opened Board
  import opened Wrappers

  const CTL: Bytes := Ascii("agentbbs/ctl:")
  const CTL_RETRACT: Bytes := Ascii("agentbbs/ctl:retract:")
  const CTL_EDIT: Bytes := Ascii("agentbbs/ctl:edit:")

  predicate IsControl(m: Message) {
    CTL <= m.body.subject
  }

  /** The id a retract names: its text, or failing that the rest of its subject. */
  function RetractTarget(m: Message): Option<MessageId> {
    if CTL_RETRACT <= m.body.subject
    then Some(if m.body.body == [] then m.body.subject[|CTL_RETRACT|..] else m.body.body)
    else None
  }

  function EditTarget(m: Message): Option<MessageId> {
    if CTL_RETRACT <= m.body.subject then None
    else if CTL_EDIT <= m.body.subject then Some(m.body.subject[|CTL_EDIT|..])
    else None
  }

  lemma TargetsAreControl(m: Message)
    ensures RetractTarget(m).Some? || EditTarget(m).Some? ==> IsControl(m)
  {
    assert CTL <= CTL_RETRACT && CTL <= CTL_EDIT;
  }

  /** A retract names what its text says, or what follows the prefix when it has no text. */
  lemma WhatARetractNames(m: Message, id: MessageId)
    ensures RetractTarget(m) == Some(id) <==>
            if m.body.body == [] then m.body.subject == Ascii("agentbbs/ctl:retract:") + id
            else Ascii("agentbbs/ctl:retract:") <= m.body.subject && m.body.body == id
  {
    var n := |CTL_RETRACT|;
    if CTL_RETRACT <= m.body.subject {
      assert m.body.subject == m.body.subject[..n] + m.body.subject[n..];
    }
    assert (CTL_RETRACT + id)[n..] == id;
  }

  /** An edit names what follows its prefix, whatever its text. */
  lemma WhatAnEditNames(m: Message, id: MessageId)
    ensures EditTarget(m) == Some(id) <==> m.body.subject == Ascii("agentbbs/ctl:edit:") + id
  {
    var n := |CTL_EDIT|;
    if CTL_EDIT <= m.body.subject {
      assert m.body.subject == m.body.subject[..n] + m.body.subject[n..];
    }
    if m.body.subject == CTL_EDIT + id {
      assert m.body.subject[n..] == id;
      assert m.body.subject[13] == CTL_EDIT[13] != CTL_RETRACT[13];
    }
  }

  // ----- The declarative view -----

  /** `k` is the last retract naming `id`. */
  ghost predicate LastRetractAt(msgs: seq<Message>, id: MessageId, k: nat) {
    && k < |msgs| && RetractTarget(msgs[k]) == Some(id)
    && (forall j :: k < j < |msgs| ==> RetractTarget(msgs[j]) != Some(id))
  }

  /** `k` is the newest edit naming `id`, the earliest in the list among equals. */
  ghost predicate WinningEditAt(msgs: seq<Message>, id: MessageId, k: nat) {
    && k < |msgs| && EditTarget(msgs[k]) == Some(id)
    && (forall j :: 0 <= j < |msgs| && EditTarget(msgs[j]) == Some(id)
                    ==> msgs[j].body.createdAt <= msgs[k].body.createdAt)
    && (forall j :: 0 <= j < k && EditTarget(msgs[j]) == Some(id)
                    ==> msgs[j].body.createdAt < msgs[k].body.createdAt)
  }

  /** Its own author's retract is the last one naming it. */
  ghost predicate RetractedByAuthor(msgs: seq<Message>, m: Message) {
    exists k: nat :: LastRetractAt(msgs, m.id, k) && msgs[k].body.author == m.body.author
  }

  ghost predicate EditedByAuthor(msgs: seq<Message>, m: Message) {
    exists k: nat :: WinningEditAt(msgs, m.id, k) && msgs[k].body.author == m.body.author
  }

  /** What is shown of `m`: the winning edit's text if that edit is its author's own. */
  ghost predicate ShownAs(msgs: seq<Message>, m: Message, s: Message) {
    if EditedByAuthor(msgs, m)
    then exists k: nat :: WinningEditAt(msgs, m.id, k) && s == m.(body := m.body.(body := msgs[k].body.body))
    else s == m
  }

  ghost predicate Survives(msgs: seq<Message>, m: Message) {
    !IsControl(m) && !RetractedByAuthor(msgs, m)
  }

  /** `at` lists, in order, the positions of the survivors, and `out` shows each. */
  ghost predicate IsView(msgs: seq<Message>, out: seq<Message>, at: seq<nat>) {
    IsViewUpTo(msgs, |msgs|, out, at)
  }

  /** The same for the first `n` messages. */
  ghost predicate IsViewUpTo(msgs: seq<Message>, n: nat, out: seq<Message>, at: seq<nat>) {
    && |at| == |out| && n <= |msgs|
    && (forall i, j :: 0 <= i < j < |at| ==> at[i] < at[j])
    && (forall i :: 0 <= i < |at| ==> at[i] < n && Survives(msgs, msgs[at[i]]) && ShownAs(msgs, msgs[at[i]], out[i]))
    && (forall k: nat :: k < n && Survives(msgs, msgs[k]) ==> k in at)
  }

  /** The ids of the survivors among the first `n` whose text is replaced. */
  ghost predicate EditedUpTo(msgs: seq<Message>, n: nat, edited: set<MessageId>)
    requires n <= |msgs|
  {
    forall id :: id in edited <==> ShownEdited(msgs, n, id)
  }

  ghost predicate ShownEdited(msgs: seq<Message>, n: nat, id: MessageId)
    requires n <= |msgs|
  {
    exists k: nat :: k < n && msgs[k].id == id && Survives(msgs, msgs[k]) && EditedByAuthor(msgs, msgs[k])
  }

  lemma ViewDrops(msgs: seq<Message>, n: nat, out: seq<Message>, at: seq<nat>, edited: set<MessageId>)
    requires n < |msgs| && IsViewUpTo(msgs, n, out, at) && EditedUpTo(msgs, n, edited)
    requires !Survives(msgs, msgs[n])
    ensures IsViewUpTo(msgs, n + 1, out, at) && EditedUpTo(msgs, n + 1, edited)
  {
    forall id ensures ShownEdited(msgs, n, id) <==> ShownEdited(msgs, n + 1, id) {
    }
  }

  lemma AppendedIsThere(at: seq<nat>, n: nat)
    ensures n in at + [n] && forall k :: k in at ==> k in at + [n]
  {
    assert (at + [n])[|at|] == n;
  }

  lemma ViewKeeps(msgs: seq<Message>, n: nat, out: seq<Message>, at: seq<nat>, s: Message)
    requires n < |msgs| && IsViewUpTo(msgs, n, out, at)
    requires Survives(msgs, msgs[n]) && ShownAs(msgs, msgs[n], s)
    ensures IsViewUpTo(msgs, n + 1, out + [s], at + [n])
  {
    AppendedIsThere(at, n);
  }

  lemma EditedStep(msgs: seq<Message>, n: nat, edited: set<MessageId>)
    requires n < |msgs| && EditedUpTo(msgs, n, edited) && Survives(msgs, msgs[n])
    ensures EditedUpTo(msgs, n + 1, if EditedByAuthor(msgs, msgs[n]) then edited + {msgs[n].id} else edited)
  {
    var next := if EditedByAuthor(msgs, msgs[n]) then edited + {msgs[n].id} else edited;
    forall id ensures id in next <==> ShownEdited(msgs, n + 1, id) {
      assert id in edited <==> ShownEdited(msgs, n, id);
    }
  }

  // ----- The tables the program fills -----

  type Retracts = map<MessageId, AgentId>

  datatype Edit = Edit(text: Bytes, author: AgentId, at: Time)

  type Edits = map<MessageId, Edit>

  ghost predicate RetractsOf(msgs: seq<Message>, retracted: Retracts) {
    && (forall id :: id in retracted ==>
        exists k: nat :: LastRetractAt(msgs, id, k) && msgs[k].body.author == retracted[id])
    && (forall k :: 0 <= k < |msgs| && RetractTarget(msgs[k]).Some? ==> RetractTarget(msgs[k]).value in retracted)
  }

  ghost predicate IsEdit(m: Message, e: Edit) {
    e == Edit(m.body.body, m.body.author, m.body.createdAt)
  }

  ghost predicate EditsOf(msgs: seq<Message>, edits: Edits) {
    && (forall id :: id in edits ==> exists k: nat :: WinningEditAt(msgs, id, k) && IsEdit(msgs[k], edits[id]))
    && (forall k :: 0 <= k < |msgs| && EditTarget(msgs[k]).Some? ==> EditTarget(msgs[k]).value in edits)
  }

  lemma RetractsStep(msgs: seq<Message>, m: Message, retracted: Retracts)
    requires RetractsOf(msgs, retracted)
    ensures RetractsOf(msgs + [m],
            if RetractTarget(m).Some? then retracted[RetractTarget(m).value := m.body.author] else retracted)
  {
    var t := RetractTarget(m);
    var next := if t.Some? then retracted[t.value := m.body.author] else retracted;
    var all := msgs + [m];
    forall id | id in next ensures exists k: nat :: LastRetractAt(all, id, k) && all[k].body.author == next[id] {
      if t == Some(id) {
        assert LastRetractAt(all, id, |msgs|);
      } else {
        var k: nat :| LastRetractAt(msgs, id, k) && msgs[k].body.author == retracted[id];
        assert LastRetractAt(all, id, k);
      }
    }
  }

  function EditsAfter(edits: Edits, m: Message): Edits {
    var t := EditTarget(m);
    if t.Some? && (t.value in edits ==> edits[t.value].at < m.body.createdAt)
    then edits[t.value := Edit(m.body.body, m.body.author, m.body.createdAt)]
    else edits
  }

  lemma WinnerKept(msgs: seq<Message>, m: Message, id: MessageId, k: nat)
    requires WinningEditAt(msgs, id, k)
    requires EditTarget(m) == Some(id) ==> m.body.createdAt <= msgs[k].body.createdAt
    ensures WinningEditAt(msgs + [m], id, k)
  {
  }

  lemma NewWinner(msgs: seq<Message>, m: Message, edits: Edits, id: MessageId)
    requires EditsOf(msgs, edits) && EditTarget(m) == Some(id)
    requires id in edits ==> edits[id].at < m.body.createdAt
    ensures WinningEditAt(msgs + [m], id, |msgs|)
  {
    if id in edits {
      var k: nat :| WinningEditAt(msgs, id, k) && IsEdit(msgs[k], edits[id]);
    }
  }

  lemma EditsStep(msgs: seq<Message>, m: Message, edits: Edits)
    requires EditsOf(msgs, edits)
    ensures EditsOf(msgs + [m], EditsAfter(edits, m))
  {
    var t, next, all := EditTarget(m), EditsAfter(edits, m), msgs + [m];
    forall id | id in next ensures exists k: nat :: WinningEditAt(all, id, k) && IsEdit(all[k], next[id]) {
      if t == Some(id) && (id in edits ==> edits[id].at < m.body.createdAt) {
        NewWinner(msgs, m, edits, id);
        assert IsEdit(all[|msgs|], next[id]);
      } else {
        var k: nat :| WinningEditAt(msgs, id, k) && IsEdit(msgs[k], edits[id]);
        WinnerKept(msgs, m, id, k);
        assert IsEdit(all[k], next[id]);
      }
    }
  }

  lemma RetractTableDecides(msgs: seq<Message>, retracted: Retracts, m: Message)
    requires RetractsOf(msgs, retracted)
    ensures RetractedByAuthor(msgs, m) <==> m.id in retracted && retracted[m.id] == m.body.author
  {
    if m.id in retracted {
      var k: nat :| LastRetractAt(msgs, m.id, k) && msgs[k].body.author == retracted[m.id];
      assert forall j: nat :: LastRetractAt(msgs, m.id, j) ==> j == k;
    }
  }

  lemma EditTableDecides(msgs: seq<Message>, edits: Edits, m: Message)
    requires EditsOf(msgs, edits)
    ensures EditedByAuthor(msgs, m) <==> m.id in edits && edits[m.id].author == m.body.author
    ensures ShownAs(msgs, m, if m.id in edits && edits[m.id].author == m.body.author
                             then m.(body := m.body.(body := edits[m.id].text)) else m)
  {
    if m.id in edits {
      var k: nat :| WinningEditAt(msgs, m.id, k) && IsEdit(msgs[k], edits[m.id]);
      assert forall j: nat :: WinningEditAt(msgs, m.id, j) ==> j == k;
    }
  }

  /** Whether the last message with this id verifies as it was fetched. */
  ghost predicate FlagsOf(msgs: seq<Message>, verified: map<MessageId, bool>, scheme: Scheme) {
    && (forall k :: 0 <= k < |msgs| ==> msgs[k].id in verified)
    && (forall id :: id in verified ==>
        exists k: nat :: LastWithId(msgs, id, k) && verified[id] == Verify(msgs[k], scheme))
  }

  ghost predicate LastWithId(msgs: seq<Message>, id: MessageId, k: nat) {
    k < |msgs| && msgs[k].id == id && forall j :: k < j < |msgs| ==> msgs[j].id != id
  }

  lemma LastKept(msgs: seq<Message>, m: Message, id: MessageId, k: nat)
    requires LastWithId(msgs, id, k) && id != m.id
    ensures LastWithId(msgs + [m], id, k) && (msgs + [m])[k] == msgs[k]
  {
  }

  lemma FlagsStep(msgs: seq<Message>, m: Message, verified: map<MessageId, bool>, scheme: Scheme)
    requires FlagsOf(msgs, verified, scheme)
    ensures FlagsOf(msgs + [m], verified[m.id := Verify(m, scheme)], scheme)
  {
    var next, all := verified[m.id := Verify(m, scheme)], msgs + [m];
    forall id | id in next ensures exists k: nat :: LastWithId(all, id, k) && next[id] == Verify(all[k], scheme) {
      if id == m.id {
        assert LastWithId(all, id, |msgs|) && all[|msgs|] == m;
      } else {
        var k: nat :| LastWithId(msgs, id, k) && verified[id] == Verify(msgs[k], scheme);
        LastKept(msgs, m, id, k);
      }
    }
  }

  /** The flags, from the messages as fetched. */
  method CollectFlags(msgs: seq<Message>, scheme: Scheme) returns (verified: map<MessageId, bool>)
    ensures FlagsOf(msgs, verified, scheme)
  {
    verified := map[];
    for i := 0 to |msgs|
      invariant FlagsOf(msgs[..i], verified, scheme)
    {
      FlagsStep(msgs[..i], msgs[i], verified, scheme);
      PrefixGrows(msgs, i);
      verified := verified[msgs[i].id := Verify(msgs[i], scheme)];
    }
    WholePrefix(msgs);
  }

  method CollectTables(msgs: seq<Message>) returns (retracted: Retracts, edits: Edits)
    ensures RetractsOf(msgs, retracted) && EditsOf(msgs, edits)
  {
    retracted, edits := map[], map[];
    for i := 0 to |msgs|
      invariant RetractsOf(msgs[..i], retracted) && EditsOf(msgs[..i], edits)
    {
      var m := msgs[i];
      RetractsStep(msgs[..i], m, retracted);
      EditsStep(msgs[..i], m, edits);
      PrefixGrows(msgs, i);
      if RetractTarget(m).Some? {
        retracted := retracted[RetractTarget(m).value := m.body.author];
      } else if EditTarget(m).Some? {
        var tid := EditTarget(m).value;
        var newer := if tid in edits then edits[tid].at < m.body.createdAt else true;
        if newer {
          edits := edits[tid := Edit(m.body.body, m.body.author, m.body.createdAt)];
        }
      }
    }
    WholePrefix(msgs);
  }

  /** What becomes of one message: dropped, or shown, with its own author's edit if it won. */
  method ResolveOne(msgs: seq<Message>, m: Message, retracted: Retracts, edits: Edits)
    returns (shown: Option<Message>, wasEdited: bool)
    requires RetractsOf(msgs, retracted) && EditsOf(msgs, edits)
    ensures shown.Some? <==> Survives(msgs, m)
    ensures shown.Some? ==> ShownAs(msgs, m, shown.value)
    ensures wasEdited <==> Survives(msgs, m) && EditedByAuthor(msgs, m)
  {
    RetractTableDecides(msgs, retracted, m);
    EditTableDecides(msgs, edits, m);
    if IsControl(m) {
      return None, false;
    }
    if m.id in retracted && retracted[m.id] == m.body.author {
      return None, false;
    }
    if m.id in edits && edits[m.id].author == m.body.author {
      return Some(m.(body := m.body.(body := edits[m.id].text))), true;
    }
    return Some(m), false;
  }

  lemma ViewStarts(msgs: seq<Message>)
    ensures IsViewUpTo(msgs, 0, [], []) && EditedUpTo(msgs, 0, {})
  {
    forall id ensures !ShownEdited(msgs, 0, id) {
    }
  }

  ghost function PlacesAfter(at: seq<nat>, n: nat, shown: Option<Message>): seq<nat> {
    if shown.Some? then at + [n] else at
  }

  /** One message resolved: the view and the edited ids reach one message further. */
  lemma ViewReachesOn(msgs: seq<Message>, n: nat, out: seq<Message>, at: seq<nat>, edited: set<MessageId>,
                      shown: Option<Message>, wasEdited: bool)
    requires n < |msgs| && IsViewUpTo(msgs, n, out, at) && EditedUpTo(msgs, n, edited)
    requires shown.Some? <==> Survives(msgs, msgs[n])
    requires shown.Some? ==> ShownAs(msgs, msgs[n], shown.value)
    requires wasEdited <==> Survives(msgs, msgs[n]) && EditedByAuthor(msgs, msgs[n])
    ensures IsViewUpTo(msgs, n + 1, if shown.Some? then out + [shown.value] else out, PlacesAfter(at, n, shown))
    ensures EditedUpTo(msgs, n + 1, if wasEdited then edited + {msgs[n].id} else edited)
  {
    if shown.None? {
      ViewDrops(msgs, n, out, at, edited);
    } else {
      ViewKeeps(msgs, n, out, at, shown.value);
      EditedStep(msgs, n, edited);
    }
  }

  /** Filter or substitute one message. */
  method ShowOne(msgs: seq<Message>, i: nat, retracted: Retracts, edits: Edits, out: seq<Message>,
                 edited: set<MessageId>, ghost at: seq<nat>)
    returns (out2: seq<Message>, edited2: set<MessageId>, ghost at2: seq<nat>)
    requires RetractsOf(msgs, retracted) && EditsOf(msgs, edits)
    requires i < |msgs| && IsViewUpTo(msgs, i, out, at) && EditedUpTo(msgs, i, edited)
    ensures IsViewUpTo(msgs, i + 1, out2, at2) && EditedUpTo(msgs, i + 1, edited2)
  {
    var shown, wasEdited := ResolveOne(msgs, msgs[i], retracted, edits);
    ViewReachesOn(msgs, i, out, at, edited, shown, wasEdited);
    out2 := if shown.Some? then out + [shown.value] else out;
    at2 := PlacesAfter(at, i, shown);
    edited2 := if wasEdited then edited + {msgs[i].id} else edited;
  }

  /** Filter and substitute; `edited` collects the ids whose text was replaced. */
  method ApplyControlMessages(msgs: seq<Message>, scheme: Scheme)
    returns (out: seq<Message>, verified: map<MessageId, bool>, edited: set<MessageId>, ghost at: seq<nat>)
    ensures IsView(msgs, out, at)
    ensures FlagsOf(msgs, verified, scheme)
    ensures EditedUpTo(msgs, |msgs|, edited)
  {
    verified := CollectFlags(msgs, scheme);
    var retracted, edits := CollectTables(msgs);
    out, edited, at := [], {}, [];
    ViewStarts(msgs);
    for i: nat := 0 to |msgs|
      invariant IsViewUpTo(msgs, i, out, at) && EditedUpTo(msgs, i, edited)
    {
      out, edited, at := ShowOne(msgs, i, retracted, edits, out, edited, at);
    }
  }

  // ----- What the view guarantees -----

  lemma NonEmptyHasMember(b: seq<nat>)
    ensures b != [] ==> exists k: nat :: k in b
  {
    if b != [] {
      assert b[0] in b;
    }
  }

  lemma {:induction false} IncreasingIsDetermined(a: seq<nat>, b: seq<nat>, n: nat)
    requires forall i, j :: 0 <= i < j < |a| ==> a[i] < a[j]
    requires forall i, j :: 0 <= i < j < |b| ==> b[i] < b[j]
    requires forall k: nat :: k in a <==> k in b
    requires forall i :: 0 <= i < |a| ==> a[i] < n
    ensures a == b
    decreases |a|
  {
    if a == [] {
      NonEmptyHasMember(b);
    } else {
      assert a[|a| - 1] in b;
      var x, y := a[|a| - 1], b[|b| - 1];
      assert y in a;
      var a', b' := a[..|a| - 1], b[..|b| - 1];
      assert a == a' + [x] && b == b' + [y];
      forall k: nat ensures k in a' <==> k in b' {
        assert k in a <==> k in a' || k == x;
        assert k in b <==> k in b' || k == y;
      }
      IncreasingIsDetermined(a', b', n);
    }
  }

  lemma ShownIsDetermined(msgs: seq<Message>, m: Message, s: Message, t: Message)
    requires ShownAs(msgs, m, s) && ShownAs(msgs, m, t)
    ensures s == t
  {
    forall j: nat, k: nat | WinningEditAt(msgs, m.id, j) && WinningEditAt(msgs, m.id, k) ensures j == k {
    }
  }

  /** The list alone decides the view. */
  lemma ViewIsDetermined(msgs: seq<Message>, out: seq<Message>, at: seq<nat>, out2: seq<Message>, at2: seq<nat>)
    requires IsView(msgs, out, at) && IsView(msgs, out2, at2)
    ensures out == out2 && at == at2
  {
    IncreasingIsDetermined(at, at2, |msgs|);
    forall i | 0 <= i < |out| ensures out[i] == out2[i] {
      ShownIsDetermined(msgs, msgs[at[i]], out[i], out2[i]);
    }
  }

  /** Survivors keep their order, and everything about them but the text. */
  lemma OnlyTextChanges(msgs: seq<Message>, out: seq<Message>, at: seq<nat>, i: nat)
    requires IsView(msgs, out, at) && i < |out|
    ensures out[i] == msgs[at[i]].(body := msgs[at[i]].body.(body := out[i].body.body))
  {
  }

  /** Applying the result to itself changes nothing: no control message is left. */
  lemma SecondApplicationChangesNothing(msgs: seq<Message>, out: seq<Message>, at: seq<nat>)
    requires IsView(msgs, out, at)
    ensures IsView(out, out, seq(|out|, i => i))
  {
    forall i | 0 <= i < |out| ensures !IsControl(out[i]) && RetractTarget(out[i]).None? && EditTarget(out[i]).None? {
      OnlyTextChanges(msgs, out, at, i);
      TargetsAreControl(out[i]);
    }
    var all := seq(|out|, i => i);
    forall k: nat | k < |out| ensures k in all {
      assert all[k] == k;
    }
  }

  /** Nobody else can hide a post: without a retract of its own author it survives. */
  lemma OthersCannotHide(msgs: seq<Message>, m: Message)
    requires !IsControl(m)
    requires forall k | 0 <= k < |msgs| && RetractTarget(msgs[k]) == Some(m.id) ::
               msgs[k].body.author != m.body.author
    ensures Survives(msgs, m)
  {
  }

  /** Nobody else can put words in a post: without an edit of its own author it is shown as is. */
  lemma OthersCannotReplace(msgs: seq<Message>, m: Message, s: Message)
    requires forall k :: 0 <= k < |msgs| && EditTarget(msgs[k]) == Some(m.id) ==> msgs[k].body.author != m.body.author
    requires ShownAs(msgs, m, s)
    ensures s == m
  {
  }

  /** No control message is ever shown. */
  lemma ControlIsNeverShown(msgs: seq<Message>, out: seq<Message>, at: seq<nat>, i: nat)
    requires IsView(msgs, out, at) && i < |out|
    ensures !(Ascii("agentbbs/ctl:") <= out[i].body.subject)
  {
    OnlyTextChanges(msgs, out, at, i);
  }

  /** Its author's retract, arriving last, hides a post. */
  lemma AuthorsRetractHides(msgs: seq<Message>, c: Message, m: Message, out: seq<Message>, at: seq<nat>, i: nat)
    requires IsView(msgs + [c], out, at) && i < |out|
    requires c.body.author == m.body.author
    requires || (c.body.subject == Ascii("agentbbs/ctl:retract:") + m.id && c.body.body == [])
             || (Ascii("agentbbs/ctl:retract:") <= c.body.subject && c.body.body == m.id && m.id != [])
    ensures (msgs + [c])[at[i]] != m
  {
    WhatARetractNames(c, m.id);
    AppendedRetractIsLast(msgs, c, m);
  }

  /** Its author's edit, newer than every edit of it so far, is what is shown of a post. */
  lemma AuthorsEditShows(msgs: seq<Message>, c: Message, m: Message, out: seq<Message>, at: seq<nat>, i: nat)
    requires IsView(msgs + [c], out, at) && i < |out| && (msgs + [c])[at[i]] == m
    requires c.body.author == m.body.author && c.body.subject == Ascii("agentbbs/ctl:edit:") + m.id
    requires forall o | o in msgs && o.body.subject == Ascii("agentbbs/ctl:edit:") + m.id ::
               o.body.createdAt < c.body.createdAt
    ensures out[i] == m.(body := m.body.(body := c.body.body))
  {
    var all := msgs + [c];
    WhatAnEditNames(c, m.id);
    forall j | 0 <= j < |msgs| && EditTarget(msgs[j]) == Some(m.id)
      ensures msgs[j].body.createdAt < c.body.createdAt
    {
      WhatAnEditNames(msgs[j], m.id);
    }
    assert all[|msgs|] == c && WinningEditAt(all, m.id, |msgs|);
    forall k: nat | WinningEditAt(all, m.id, k) ensures k == |msgs| {
    }
    assert EditedByAuthor(all, m);
  }

  lemma AppendedRetractIsLast(msgs: seq<Message>, c: Message, m: Message)
    requires RetractTarget(c) == Some(m.id)
    ensures RetractedByAuthor(msgs + [c], m) <==> c.body.author == m.body.author
  {
    var all := msgs + [c];
    assert LastRetractAt(all, m.id, |msgs|);
    assert RetractTarget(all[|msgs|]) == Some(m.id);
    forall k: nat | LastRetractAt(all, m.id, k) ensures k == |msgs| {
    }
  }

  /** Yet another's retract is not without effect: it takes the place of the author's own,
      and the post is shown again. It changes nothing exactly when the author's retract was
      not in force. */
  lemma ForeignRetractIsHarmlessExactlyWhenNotRetracted(msgs: seq<Message>, c: Message, m: Message)
    requires !IsControl(m) && RetractTarget(c) == Some(m.id) && c.body.author != m.body.author
    ensures Survives(msgs + [c], m)
    ensures (Survives(msgs + [c], m) <==> Survives(msgs, m)) <==> !RetractedByAuthor(msgs, m)
  {
    AppendedRetractIsLast(msgs, c, m);
  }

  /** `c` is newer than every edit naming `id` so far. */
  ghost predicate Outdates(msgs: seq<Message>, id: MessageId, c: Message) {
    forall k :: 0 <= k < |msgs| && EditTarget(msgs[k]) == Some(id) ==> msgs[k].body.createdAt < c.body.createdAt
  }

  /** Without a newer time the appended edit changes nothing. */
  lemma OlderEditIsIgnored(msgs: seq<Message>, c: Message, m: Message, s: Message)
    requires EditTarget(c) == Some(m.id) && !Outdates(msgs, m.id, c) && ShownAs(msgs, m, s)
    ensures ShownAs(msgs + [c], m, s)
  {
    var all := msgs + [c];
    var k := SomeWinner(msgs, m.id, |msgs|);
    WinnerKept(msgs, c, m.id, k);
    assert forall j: nat :: WinningEditAt(all, m.id, j) ==> j == k;
    assert forall j: nat :: WinningEditAt(msgs, m.id, j) ==> j == k;
    assert all[k] == msgs[k];
  }

  /** Where some edit names `id`, one of them wins. */
  lemma {:induction false} SomeWinner(msgs: seq<Message>, id: MessageId, n: nat) returns (k: nat)
    requires n <= |msgs| && exists j :: 0 <= j < n && EditTarget(msgs[j]) == Some(id)
    ensures WinningEditAt(msgs[..n], id, k)
    ensures n == |msgs| ==> WinningEditAt(msgs, id, k)
  {
    assert msgs[..n] == msgs[..n - 1] + [msgs[n - 1]];
    assert n == |msgs| ==> msgs[..n] == msgs;
    if exists j :: 0 <= j < n - 1 && EditTarget(msgs[j]) == Some(id) {
      k := SomeWinner(msgs, id, n - 1);
      if EditTarget(msgs[n - 1]) == Some(id) && msgs[k].body.createdAt < msgs[n - 1].body.createdAt {
        k := n - 1;
      }
    } else {
      k := n - 1;
    }
  }

  /** Another's edit leaves what is shown alone exactly when it is not newer than every edit
      in place, or the author's own was not in force or said the same. */
  lemma ForeignEditIsHarmlessExactlyWhen(msgs: seq<Message>, c: Message, m: Message, s: Message)
    requires EditTarget(c) == Some(m.id) && c.body.author != m.body.author && ShownAs(msgs, m, s)
    ensures ShownAs(msgs + [c], m, s) <==> !Outdates(msgs, m.id, c) || s == m
    ensures !EditedByAuthor(msgs, m) ==> s == m
  {
    if Outdates(msgs, m.id, c) {
      ForeignEditRevertsTheText(msgs, c, m);
      if ShownAs(msgs + [c], m, s) {
        ShownIsDetermined(msgs + [c], m, s, m);
      }
    } else {
      OlderEditIsIgnored(msgs, c, m, s);
    }
  }

  /** Likewise another's newer edit takes the place of the author's own, whose text is then
      no longer shown. */
  lemma ForeignEditRevertsTheText(msgs: seq<Message>, c: Message, m: Message)
    requires EditTarget(c) == Some(m.id) && c.body.author != m.body.author
    requires Outdates(msgs, m.id, c)
    ensures ShownAs(msgs + [c], m, m)
  {
    var all := msgs + [c];
    assert WinningEditAt(all, m.id, |msgs|);
    assert EditTarget(all[|msgs|]) == Some(m.id);
    forall k: nat | WinningEditAt(all, m.id, k) ensures k == |msgs| {
    }
  }
}
