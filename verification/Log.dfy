/** The grow-only message log every store refines: messages in first-insertion order,
    one per id. */
module Log {
  import opened Bytes
  import opened Board

  predicate Has(log: seq<Message>, id: MessageId) {
    exists i | 0 <= i < |log| :: log[i].id == id
  }

  predicate DistinctIds(log: seq<Message>) {
    forall i, j :: 0 <= i < j < |log| ==> log[i].id != log[j].id
  }

  /** Insert unless the id is already there. */
  function Put(log: seq<Message>, m: Message): (r: seq<Message>)
    ensures DistinctIds(log) ==> DistinctIds(r)
  {
    if Has(log, m.id) then log else log + [m]
  }

  function PutAll(log: seq<Message>, ms: seq<Message>): seq<Message>
    decreases |ms|
  {
    if ms == [] then log else PutAll(Put(log, ms[0]), ms[1..])
  }

  function OnBoard(log: seq<Message>, board: Bytes): seq<Message> {
    if log == [] then []
    else
      var m := log[|log| - 1];
      OnBoard(log[..|log| - 1], board) + if m.body.board == board then [m] else []
  }

  /** The newest `limit` messages of a board, oldest first. */
  function List(log: seq<Message>, board: Bytes, limit: nat): seq<Message> {
    var all := OnBoard(log, board);
    if limit >= |all| then all else all[|all| - limit..]
  }

  function Ids(ms: seq<Message>): (r: seq<MessageId>)
    ensures |r| == |ms| && forall i :: 0 <= i < |ms| ==> r[i] == ms[i].id
  {
    seq(|ms|, i requires 0 <= i < |ms| => ms[i].id)
  }

  lemma {:induction false} OnBoardHolds(log: seq<Message>, board: Bytes, m: Message)
    ensures m in OnBoard(log, board) <==> m in log && m.body.board == board
  {
    if log != [] {
      var n := |log| - 1;
      OnBoardHolds(log[..n], board, m);
      assert log == log[..n] + [log[n]];
    }
  }

  lemma OnBoardAppend(log: seq<Message>, m: Message, board: Bytes)
    ensures OnBoard(log + [m], board) == OnBoard(log, board) + if m.body.board == board then [m] else []
  {
    assert (log + [m])[..|log|] == log;
  }

  /** The places in the log of the messages of `ms`, in order. */
  ghost predicate Places(log: seq<Message>, ms: seq<Message>, at: seq<nat>) {
    && |at| == |ms|
    && (forall k :: 0 <= k < |at| ==> at[k] < |log| && log[at[k]] == ms[k])
    && (forall j, k :: 0 <= j < k < |at| ==> at[j] < at[k])
  }

  lemma {:induction false} BoardPlaces(log: seq<Message>, board: Bytes) returns (at: seq<nat>)
    ensures Places(log, OnBoard(log, board), at)
    ensures forall i: nat :: i in at <==> i < |log| && log[i].body.board == board
  {
    at := [];
    if log != [] {
      var n := |log| - 1;
      at := BoardPlaces(log[..n], board);
      if log[n].body.board == board {
        at := at + [n];
      }
    }
  }

  lemma PlacesOfSuffix(log: seq<Message>, ms: seq<Message>, at: seq<nat>, n: nat)
    requires Places(log, ms, at) && n <= |at|
    ensures Places(log, ms[n..], at[n..])
    ensures forall i: nat | i in at && i !in at[n..] :: NewerThan(at[n..], i)
  {
    assert forall k :: n <= k < |at| ==> at[n..][k - n] == at[k];
  }

  /** A listing is in log order, of that board only, no longer than the limit, and leaves a
      message of the board out only when it is full of newer ones. */
  lemma ListIsTheNewest(log: seq<Message>, board: Bytes, limit: nat) returns (at: seq<nat>)
    ensures Places(log, List(log, board, limit), at) && |at| <= limit
    ensures forall i: nat | i in at :: log[i].body.board == board
    ensures forall i: nat | i < |log| && log[i].body.board == board && i !in at :: |at| == limit && NewerThan(at, i)
  {
    var all := BoardPlaces(log, board);
    var n := if limit >= |all| then 0 else |all| - limit;
    PlacesOfSuffix(log, OnBoard(log, board), all, n);
    at := all[n..];
    assert n == 0 ==> at == all;
    assert List(log, board, limit) == OnBoard(log, board)[n..];
  }

  /** All of `at` come after `i`. */
  ghost predicate NewerThan(at: seq<nat>, i: nat) {
    forall k :: 0 <= k < |at| ==> i < at[k]
  }

  lemma {:induction false} OnBoardDistinct(log: seq<Message>, board: Bytes)
    requires DistinctIds(log)
    ensures DistinctIds(OnBoard(log, board))
  {
    if log != [] {
      var n := |log| - 1;
      OnBoardDistinct(log[..n], board);
      var head := OnBoard(log[..n], board);
      forall i | 0 <= i < |head| ensures head[i].id != log[n].id {
        OnBoardHolds(log[..n], board, head[i]);
        var k :| 0 <= k < n && log[k] == head[i];
      }
    }
  }

  // ----- What inserting keeps -----

  lemma PutHas(log: seq<Message>, m: Message, id: MessageId)
    ensures Has(Put(log, m), id) <==> Has(log, id) || m.id == id
  {
    if !Has(log, m.id) {
      var r := log + [m];
      assert r[|log|] == m;
      if Has(log, id) {
        var i :| 0 <= i < |log| && log[i].id == id;
        assert r[i].id == id;
      }
    }
  }

  lemma HasConcat(a: seq<Message>, b: seq<Message>, id: MessageId)
    ensures Has(a + b, id) <==> Has(a, id) || Has(b, id)
  {
    if Has(a, id) {
      var i :| 0 <= i < |a| && a[i].id == id;
      assert (a + b)[i].id == id;
    }
    if Has(b, id) {
      var i :| 0 <= i < |b| && b[i].id == id;
      assert (a + b)[|a| + i].id == id;
    }
  }

  lemma HasFirst(ms: seq<Message>, id: MessageId)
    requires ms != []
    ensures Has(ms, id) <==> ms[0].id == id || Has(ms[1..], id)
  {
    assert ms == [ms[0]] + ms[1..];
    HasConcat([ms[0]], ms[1..], id);
    assert [ms[0]][0] == ms[0];
  }

  lemma {:induction false} PutAllHas(log: seq<Message>, ms: seq<Message>, id: MessageId)
    ensures Has(PutAll(log, ms), id) <==> Has(log, id) || Has(ms, id)
    decreases |ms|
  {
    if ms == [] {
      assert !Has(ms, id) && PutAll(log, ms) == log;
    } else {
      PutAllHas(Put(log, ms[0]), ms[1..], id);
      PutHas(log, ms[0], id);
      HasFirst(ms, id);
    }
  }

  lemma PutAppends(log: seq<Message>, m: Message)
    ensures log <= Put(log, m) && forall x :: x in Put(log, m) ==> x in log || x == m
  {
  }

  lemma {:induction false} PutAllAppends(log: seq<Message>, ms: seq<Message>)
    ensures log <= PutAll(log, ms)
    ensures DistinctIds(log) ==> DistinctIds(PutAll(log, ms))
    ensures forall m :: m in PutAll(log, ms) ==> m in log || m in ms
    decreases |ms|
  {
    if ms != [] {
      PutAppends(log, ms[0]);
      PutAllAppends(Put(log, ms[0]), ms[1..]);
      assert ms == [ms[0]] + ms[1..];
    }
  }

  lemma {:induction false} PutAllConcat(log: seq<Message>, ms: seq<Message>, ns: seq<Message>)
    ensures PutAll(log, ms + ns) == PutAll(PutAll(log, ms), ns)
    decreases |ms|
  {
    if ms == [] {
      assert ms + ns == ns;
    } else {
      assert (ms + ns)[1..] == ms[1..] + ns && (ms + ns)[0] == ms[0];
      PutAllConcat(Put(log, ms[0]), ms[1..], ns);
    }
  }

  lemma PutAllStep(log: seq<Message>, ms: seq<Message>, i: nat)
    requires i < |ms|
    ensures PutAll(log, ms[..i + 1]) == Put(PutAll(log, ms[..i]), ms[i])
  {
    assert ms[..i + 1] == ms[..i] + [ms[i]];
    PutAllConcat(log, ms[..i], [ms[i]]);
    assert [ms[i]][1..] == [];
  }

  /** `ms[i]` is the first in the list, and in the log, with its id. */
  predicate FirstSeen(log: seq<Message>, ms: seq<Message>, i: nat)
    requires i < |ms|
  {
    !Has(log, ms[i].id) && !Has(ms[..i], ms[i].id)
  }

  /** The log keeps the first insertion of every id, and nothing else. */
  lemma {:induction false} FirstInsertionWins(log: seq<Message>, ms: seq<Message>, i: nat)
    requires i < |ms| && FirstSeen(log, ms, i)
    ensures ms[i] in PutAll(log, ms)
    decreases |ms|
  {
    if i == 0 {
      PutAllAppends(Put(log, ms[0]), ms[1..]);
      assert ms[0] in Put(log, ms[0]);
    } else {
      assert ms[..i] == [ms[0]] + ms[1..][..i - 1];
      HasConcat([ms[0]], ms[1..][..i - 1], ms[i].id);
      assert [ms[0]][0] == ms[0];
      PutHas(log, ms[0], ms[i].id);
      FirstInsertionWins(Put(log, ms[0]), ms[1..], i - 1);
    }
  }

  /** Every listed id is held afterwards. */
  lemma ListedIdIsHeld(log: seq<Message>, ms: seq<Message>, m: Message)
    requires m in ms
    ensures exists n | n in PutAll(log, ms) :: n.id == m.id
  {
    PutAllHas(log, ms, m.id);
    HasMember(ms, m.id);
    HasMember(PutAll(log, ms), m.id);
  }

  /** Of an id that is new, the first message listed under it is the one stored. */
  lemma FirstListedIsKept(log: seq<Message>, ms: seq<Message>, i: nat)
    requires i < |ms|
    requires forall n | n in log :: n.id != ms[i].id
    requires forall j | 0 <= j < i :: ms[j].id != ms[i].id
    ensures ms[i] in PutAll(log, ms)
  {
    FirstInsertionWins(log, ms, i);
  }

  /** Anything gained was listed, under an id that was new. */
  lemma GainedWasListed(log: seq<Message>, ms: seq<Message>, n: Message)
    requires n in PutAll(log, ms) && n !in log
    ensures n in ms && forall o | o in log :: o.id != n.id
  {
    StoredIsFresh(log, ms, n);
    HasMember(log, n.id);
  }

  // ----- Order and repetition -----

  /** Two logs hold the same ids, each with the same body. */
  ghost predicate SameView(a: seq<Message>, b: seq<Message>) {
    && (forall id :: Has(a, id) <==> Has(b, id))
    && (forall i, j :: 0 <= i < |a| && 0 <= j < |b| && a[i].id == b[j].id ==> a[i].body == b[j].body)
  }

  ghost predicate SameMessages(ms: seq<Message>, ns: seq<Message>) {
    forall m :: m in ms <==> m in ns
  }

  lemma HasMember(ms: seq<Message>, id: MessageId)
    ensures Has(ms, id) <==> exists m :: m in ms && m.id == id
  {
  }

  /** The messages of `ms` whose id is new to the log agree wherever their ids do. */
  ghost predicate FreshAgree(log: seq<Message>, ms: seq<Message>) {
    forall i, j :: 0 <= i < |ms| && 0 <= j < |ms| && ms[i].id == ms[j].id && !Has(log, ms[i].id)
                   ==> ms[i].body == ms[j].body
  }

  lemma {:induction false} StoredIsFresh(log: seq<Message>, ms: seq<Message>, m: Message)
    requires m in PutAll(log, ms) && m !in log
    ensures m in ms && !Has(log, m.id)
    decreases |ms|
  {
    assert ms != [];
    assert ms == [ms[0]] + ms[1..];
    if m !in Put(log, ms[0]) {
      StoredIsFresh(Put(log, ms[0]), ms[1..], m);
      PutHas(log, ms[0], m.id);
    }
  }

  lemma FirstSeenLater(log: seq<Message>, ms: seq<Message>, j: nat)
    requires ms != [] && j < |ms[1..]| && FirstSeen(Put(log, ms[0]), ms[1..], j)
    ensures FirstSeen(log, ms, j + 1) && ms[j + 1] == ms[1..][j]
  {
    var id := ms[j + 1].id;
    PutHas(log, ms[0], id);
    HasFirst(ms[..j + 1], id);
    assert ms[..j + 1][1..] == ms[1..][..j];
  }

  /** A stored message that was not there before is the first in the list with its id. */
  lemma {:induction false} StoredLeads(log: seq<Message>, ms: seq<Message>, m: Message) returns (i: nat)
    requires m in PutAll(log, ms) && m !in log
    ensures i < |ms| && ms[i] == m && FirstSeen(log, ms, i)
    decreases |ms|
  {
    assert ms != [];
    PutAppends(log, ms[0]);
    if m in Put(log, ms[0]) {
      i := 0;
    } else {
      var j := StoredLeads(Put(log, ms[0]), ms[1..], m);
      FirstSeenLater(log, ms, j);
      i := j + 1;
    }
  }

  /** An id the log already has keeps the log's message. */
  lemma OldIdsKeepTheirMessage(log: seq<Message>, ms: seq<Message>, m: Message)
    requires DistinctIds(log) && m in PutAll(log, ms) && Has(log, m.id)
    ensures m in log
  {
    if m !in log {
      StoredIsFresh(log, ms, m);
    }
  }

  lemma SameViewWhenFreshAgree(log: seq<Message>, ms: seq<Message>, ns: seq<Message>)
    requires DistinctIds(log) && FreshAgree(log, ms) && SameMessages(ms, ns)
    ensures SameView(PutAll(log, ms), PutAll(log, ns))
  {
    var a, b := PutAll(log, ms), PutAll(log, ns);
    forall id ensures Has(a, id) <==> Has(b, id) {
      PutAllHas(log, ms, id);
      PutAllHas(log, ns, id);
      HasMember(ms, id);
      HasMember(ns, id);
    }
    forall i, j | 0 <= i < |a| && 0 <= j < |b| && a[i].id == b[j].id ensures a[i].body == b[j].body {
      if Has(log, a[i].id) {
        OldIdsKeepTheirMessage(log, ms, a[i]);
        OldIdsKeepTheirMessage(log, ns, b[j]);
      } else {
        StoredIsFresh(log, ms, a[i]);
        StoredIsFresh(log, ns, b[j]);
        var x :| 0 <= x < |ms| && ms[x] == a[i];
        var y :| 0 <= y < |ms| && ms[y] == b[j];
      }
    }
  }

  /** Listing `ms[i]` first makes it the stored message. */
  lemma LeaderIsStored(log: seq<Message>, ms: seq<Message>, i: nat) returns (ns: seq<Message>)
    requires i < |ms| && !Has(log, ms[i].id)
    ensures SameMessages(ms, ns) && ms[i] in PutAll(log, ns)
  {
    ns := [ms[i]] + ms;
    assert FirstSeen(log, ns, 0);
    FirstInsertionWins(log, ns, 0);
  }

  /** The order and repetition of insertions leave no trace in ids and bodies exactly when
      messages that share an id the store has not seen share their body. */
  lemma OrderIsIrrelevantExactlyWhenFreshAgree(log: seq<Message>, ms: seq<Message>)
    requires DistinctIds(log)
    ensures FreshAgree(log, ms) <==>
            forall ns | SameMessages(ms, ns) :: SameView(PutAll(log, ms), PutAll(log, ns))
  {
    if FreshAgree(log, ms) {
      forall ns | SameMessages(ms, ns) ensures SameView(PutAll(log, ms), PutAll(log, ns)) {
        SameViewWhenFreshAgree(log, ms, ns);
      }
    } else {
      var i, j :| 0 <= i < |ms| && 0 <= j < |ms| && ms[i].id == ms[j].id && !Has(log, ms[i].id)
                  && ms[i].body != ms[j].body;
      var first := LeaderIsStored(log, ms, i);
      var second := LeaderIsStored(log, ms, j);
      PutAllHas(log, ms, ms[i].id);
      assert !(SameView(PutAll(log, ms), PutAll(log, first)) && SameView(PutAll(log, ms), PutAll(log, second)));
    }
  }
}
