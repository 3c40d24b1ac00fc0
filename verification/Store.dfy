/** The in-memory and the durable store, both refinements of one message log. */
module Store {
  import opened Bytes
  import opened Board
  import opened Log
  import opened Wrappers

  type Index = map<Bytes, seq<MessageId>>

  /** The ids a board's index lists; a board never written to has none. */
  function IdsOf(index: Index, board: Bytes): seq<MessageId> {
    if board in index then index[board] else []
  }

  /** The message table holds the log, and nothing else. */
  ghost predicate Holds(log: seq<Message>, messages: map<MessageId, Message>) {
    && DistinctIds(log) && |messages| == |log|
    && (forall i :: 0 <= i < |log| ==> log[i].id in messages && messages[log[i].id] == log[i])
    && (forall id :: id in messages ==> Has(log, id))
  }

  /** Each board's index lists its part of the log, in order. */
  ghost predicate Lists(log: seq<Message>, index: Index) {
    forall board :: IdsOf(index, board) == Ids(OnBoard(log, board))
  }

  /** The tables and the log say the same. */
  ghost predicate Agrees(log: seq<Message>, messages: map<MessageId, Message>, index: Index) {
    Holds(log, messages) && Lists(log, index)
  }

  lemma HoldsAfterPut(log: seq<Message>, messages: map<MessageId, Message>, m: Message)
    requires Holds(log, messages) && m.id !in messages
    ensures Put(log, m) == log + [m]
    ensures Holds(log + [m], messages[m.id := m])
  {
    assert !Has(log, m.id);
    forall id | id in messages[m.id := m] ensures Has(log + [m], id) {
      PutHas(log, m, id);
    }
  }

  lemma ListsAfterPut(log: seq<Message>, index: Index, m: Message)
    requires Lists(log, index)
    ensures Lists(log + [m], index[m.body.board := IdsOf(index, m.body.board) + [m.id]])
  {
    forall board ensures IdsOf(index[m.body.board := IdsOf(index, m.body.board) + [m.id]], board)
                         == Ids(OnBoard(log + [m], board))
    {
      OnBoardAppend(log, m, board);
    }
  }

  lemma AgreesAfterPut(log: seq<Message>, messages: map<MessageId, Message>, index: Index, m: Message)
    requires Agrees(log, messages, index) && m.id !in messages
    ensures Put(log, m) == log + [m]
    ensures Agrees(log + [m], messages[m.id := m], index[m.body.board := IdsOf(index, m.body.board) + [m.id]])
  {
    HoldsAfterPut(log, messages, m);
    ListsAfterPut(log, index, m);
  }

  /** `id` is listed once in all the indexes: once on `board`, nowhere on any other. */
  ghost predicate ListedOnce(index: Index, board: Bytes, id: MessageId) {
    && (exists k :: 0 <= k < |IdsOf(index, board)| && IdsOf(index, board)[k] == id)
    && (forall j, k :: 0 <= j < k < |IdsOf(index, board)| ==> IdsOf(index, board)[j] != IdsOf(index, board)[k])
    && (forall other :: other != board ==> id !in IdsOf(index, other))
  }

  /** Index agreement: every stored message is listed once, and only on its own board. */
  lemma EveryMessageIsListedOnce(log: seq<Message>, messages: map<MessageId, Message>, index: Index, id: MessageId)
    requires Agrees(log, messages, index) && id in messages
    ensures ListedOnce(index, messages[id].body.board, id)
  {
    var i :| 0 <= i < |log| && log[i].id == id;
    var board := log[i].body.board;
    OnBoardHolds(log, board, log[i]);
    OnBoardDistinct(log, board);
    var k :| 0 <= k < |OnBoard(log, board)| && OnBoard(log, board)[k] == log[i];
    assert IdsOf(index, board)[k] == id;
    forall other | other != board ensures id !in IdsOf(index, other) {
      if id in IdsOf(index, other) {
        var j :| 0 <= j < |OnBoard(log, other)| && OnBoard(log, other)[j].id == id;
        OnBoardHolds(log, other, OnBoard(log, other)[j]);
      }
    }
  }

  /** Looking up the listed ids from `start` on yields the window itself: none is missing. */
  lemma LookupFindsAll(log: seq<Message>, messages: map<MessageId, Message>, index: Index, board: Bytes, k: nat)
    requires Agrees(log, messages, index) && k < |IdsOf(index, board)|
    ensures IdsOf(index, board)[k] in messages
    ensures messages[IdsOf(index, board)[k]] == OnBoard(log, board)[k]
  {
    OnBoardHolds(log, board, OnBoard(log, board)[k]);
  }

  lemma WindowIsList(log: seq<Message>, board: Bytes, limit: nat, start: nat)
    requires start == if |OnBoard(log, board)| >= limit then |OnBoard(log, board)| - limit else 0
    ensures OnBoard(log, board)[start..|OnBoard(log, board)|] == List(log, board, limit)
  {
  }

  lemma WindowGrows(all: seq<Message>, start: nat, k: nat)
    requires start <= k < |all|
    ensures all[start..k + 1] == all[start..k] + [all[k]]
  {
  }

  class MemoryStore {
    var boards: map<Bytes, BoardInfo>
    var byBoard: Index
    var messages: map<MessageId, Message>
    /** Every message ever accepted, oldest first. */
    ghost var log: seq<Message>

    ghost predicate Valid()
      reads this
    {
      Agrees(log, messages, byBoard)
    }

    constructor ()
      ensures Valid() && log == [] && boards == map[]
    {
      boards, byBoard, messages, log := map[], map[], map[], [];
    }

    method PutBoard(b: BoardInfo)
      modifies this`boards
      ensures boards == old(boards)[b.slug := b]
    {
      boards := boards[b.slug := b];
    }

    /** Idempotent on the id: a repeat, whatever it carries, changes nothing. */
    method PutMessage(m: Message)
      requires Valid()
      modifies this`byBoard, this`messages, this`log
      ensures Valid() && log == Put(old(log), m)
    {
      if m.id in messages {
        return;
      }
      AgreesAfterPut(log, messages, byBoard, m);
      messages := messages[m.id := m];
      byBoard := byBoard[m.body.board := IdsOf(byBoard, m.body.board) + [m.id]];
      log := log + [m];
    }

    /** One by one, in order. */
    method PutMessages(ms: seq<Message>)
      requires Valid()
      modifies this`byBoard, this`messages, this`log
      ensures Valid() && log == PutAll(old(log), ms)
    {
      for i := 0 to |ms|
        invariant Valid() && log == PutAll(old(log), ms[..i])
      {
        PutAllStep(old(log), ms, i);
        PutMessage(ms[i]);
      }
      WholePrefix(ms);
    }

    method GetMessage(id: MessageId) returns (r: Option<Message>)
      requires Valid()
      ensures r.Some? ==> r.value in log && r.value.id == id
      ensures r.None? ==> !Has(log, id)
    {
      r := if id in messages then Some(messages[id]) else None;
      if r.Some? {
        ghost var i :| 0 <= i < |log| && log[i].id == id;
      }
    }

    /** The ids of the newest window, each looked up; absent ones would be skipped. */
    method ListMessages(board: Bytes, limit: nat) returns (out: seq<Message>)
      requires Valid()
      ensures out == List(log, board, limit)
    {
      var ids := IdsOf(byBoard, board);
      var start := if |ids| >= limit then |ids| - limit else 0;
      ghost var all := OnBoard(log, board);
      assert ids == Ids(all);
      out := [];
      for k := start to |ids|
        invariant out == all[start..k]
      {
        LookupFindsAll(log, messages, byBoard, board, k);
        WindowGrows(all, start, k);
        if ids[k] in messages {
          out := out + [messages[ids[k]]];
        }
      }
      WindowIsList(log, board, limit, start);
    }

    method MessageCount() returns (n: nat)
      requires Valid()
      ensures n == |log|
    {
      n := |messages|;
    }
  }

  // ----- The durable store -----

  /** The JSON codec of the tables' values. */
  datatype Codec = Codec(
    encMessage: Message -> Bytes,
    decMessage: Bytes -> Option<Message>,
    encIds: seq<MessageId> -> Bytes,
    decIds: Bytes -> Option<seq<MessageId>>
  ) {
    /** What is written is what is read back. */
    ghost predicate RoundTrips() {
      && (forall m :: decMessage(encMessage(m)) == Some(m))
      && (forall ids :: decIds(encIds(ids)) == Some(ids))
    }
  }

  /** Both tables hold encodings of agreeing contents. */
  ghost predicate Stored(codec: Codec, log: seq<Message>, messageTable: map<MessageId, Bytes>,
                         indexTable: map<Bytes, Bytes>,
                         messages: map<MessageId, Message>, index: Index) {
    && Agrees(log, messages, index)
    && messageTable.Keys == messages.Keys && indexTable.Keys == index.Keys
    && (forall id :: id in messages ==> messageTable[id] == codec.encMessage(messages[id]))
    && (forall b :: b in index ==> indexTable[b] == codec.encIds(index[b]))
  }

  /** Writing both tables keeps them encodings of what they stand for. */
  lemma StoredAfterPut(codec: Codec, log: seq<Message>, messageTable: map<MessageId, Bytes>,
                       indexTable: map<Bytes, Bytes>, messages: map<MessageId, Message>, index: Index,
                       m: Message, ids: seq<MessageId>)
    requires Stored(codec, log, messageTable, indexTable, messages, index) && m.id !in messages
    requires ids == IdsOf(index, m.body.board) + [m.id]
    ensures Put(log, m) == log + [m]
    ensures Stored(codec, log + [m], messageTable[m.id := codec.encMessage(m)],
                   indexTable[m.body.board := codec.encIds(ids)],
                   messages[m.id := m], index[m.body.board := ids])
  {
    AgreesAfterPut(log, messages, index, m);
  }

  class RedbStore {
    var messageTable: map<MessageId, Bytes>
    var indexTable: map<Bytes, Bytes>
    const codec: Codec
    ghost var log: seq<Message>
    ghost var messages: map<MessageId, Message>
    ghost var index: Index

    ghost predicate Valid()
      reads this
    {
      codec.RoundTrips() && Stored(codec, log, messageTable, indexTable, messages, index)
    }

    constructor (codec: Codec)
      requires codec.RoundTrips()
      ensures Valid() && log == [] && this.codec == codec
    {
      messageTable, indexTable := map[], map[];
      this.codec := codec;
      log, messages, index := [], map[], map[];
    }

    /** One transaction: both tables change, or neither does. */
    method PutMessage(m: Message) returns (r: Result<()>)
      requires Valid()
      modifies this
      ensures Valid() && r == Ok(()) && log == Put(old(log), m)
    {
      if m.id in messageTable {
        return Ok(());
      }
      var mt := messageTable[m.id := codec.encMessage(m)];
      var ids: seq<MessageId> := [];
      if m.body.board in indexTable {
        var stored := codec.decIds(indexTable[m.body.board]);
        if stored.None? {
          return Err(BadJson);
        }
        ids := stored.value;
      }
      ids := ids + [m.id];
      var it := indexTable[m.body.board := codec.encIds(ids)];
      assert ids == IdsOf(index, m.body.board) + [m.id];
      StoredAfterPut(codec, log, messageTable, indexTable, messages, index, m, ids);
      messageTable, indexTable := mt, it;
      messages, index, log := messages[m.id := m], index[m.body.board := ids], log + [m];
      return Ok(());
    }

    method GetMessage(id: MessageId) returns (r: Result<Option<Message>>)
      requires Valid()
      ensures r == Ok(if id in messages then Some(messages[id]) else None)
      ensures r.value.Some? ==> r.value.value in log && r.value.value.id == id
      ensures r.value.None? ==> !Has(log, id)
    {
      if id !in messageTable {
        return Ok(None);
      }
      var m := codec.decMessage(messageTable[id]);
      if m.None? {
        return Err(BadJson);
      }
      ghost var i :| 0 <= i < |log| && log[i].id == id;
      return Ok(m);
    }

    method ReadIndex(board: Bytes) returns (r: Result<seq<MessageId>>)
      requires Valid()
      ensures r == Ok(IdsOf(index, board))
    {
      if board !in indexTable {
        return Ok([]);
      }
      var ids := codec.decIds(indexTable[board]);
      return if ids.Some? then Ok(ids.value) else Err(BadJson);
    }

    /** The message behind the `k`-th entry of a board's index. */
    method LookUp(board: Bytes, id: MessageId, ghost k: nat) returns (r: Result<Option<Message>>)
      requires Valid() && k < |IdsOf(index, board)| && IdsOf(index, board)[k] == id
      ensures r == Ok(Some(OnBoard(log, board)[k]))
    {
      LookupFindsAll(log, messages, index, board, k);
      r := GetMessage(id);
    }

    /** The messages behind a board's index entries, from `start` on. */
    method Gather(board: Bytes, ids: seq<MessageId>, start: nat) returns (r: Result<seq<Message>>)
      requires Valid() && ids == IdsOf(index, board) && start <= |ids|
      ensures |ids| == |OnBoard(log, board)|
      ensures r == Ok(OnBoard(log, board)[start..])
    {
      ghost var all := OnBoard(log, board);
      assert ids == Ids(all);
      var out: seq<Message> := [];
      for k := start to |ids|
        invariant out == all[start..k]
      {
        WindowGrows(all, start, k);
        var m := LookUp(board, ids[k], k);
        match m
        case Err(e) =>
          return Err(e);
        case Ok(None) =>
        case Ok(Some(found)) =>
          out := out + [found];
      }
      assert all[start..|ids|] == all[start..];
      return Ok(out);
    }

    method ListMessages(board: Bytes, limit: nat) returns (r: Result<seq<Message>>)
      requires Valid()
      ensures r == Ok(List(log, board, limit))
    {
      var read := ReadIndex(board);
      match read
      case Err(e) =>
        return Err(e);
      case Ok(ids) =>
        var start := if |ids| >= limit then |ids| - limit else 0;
        r := Gather(board, ids, start);
    }

    method MessageCount() returns (n: nat)
      requires Valid()
      ensures n == |log|
    {
      n := |messageTable|;
      assert |messageTable.Keys| == |messages.Keys|;
    }
  }

  method Feed(mem: MemoryStore, redb: RedbStore, ms: seq<Message>)
    requires mem.Valid() && redb.Valid() && mem.log == redb.log
    modifies mem, redb
    ensures mem.Valid() && redb.Valid() && mem.log == redb.log == PutAll(old(mem.log), ms)
  {
    ghost var before := mem.log;
    for i := 0 to |ms|
      invariant mem.Valid() && redb.Valid()
      invariant mem.log == redb.log == PutAll(before, ms[..i])
    {
      PutAllStep(before, ms, i);
      mem.PutMessage(ms[i]);
      var _ := redb.PutMessage(ms[i]);
    }
    WholePrefix(ms);
  }

  /** Fed the same messages, the two stores answer alike. */
  method BothStoresAgree(mem: MemoryStore, redb: RedbStore, ms: seq<Message>, board: Bytes, limit: nat)
    returns (a: seq<Message>, b: Result<seq<Message>>)
    requires mem.Valid() && redb.Valid() && mem.log == redb.log
    modifies mem, redb
    ensures b == Ok(a) && a == List(PutAll(old(mem.log), ms), board, limit)
  {
    Feed(mem, redb, ms);
    a := mem.ListMessages(board, limit);
    b := redb.ListMessages(board, limit);
  }
}
