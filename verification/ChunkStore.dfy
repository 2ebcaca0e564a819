/** Storing, updating and deleting memories, with their chunks kept in step. */
module ChunkStore {
  import opened Chunker
  import opened FixedSplit
  import opened Ids
  import opened Normalization
  import opened Text
  import opened Wrappers

  type Hash(==, !new)

  const MIN_CONTENT := 10
  const VALID_STATUSES := ["active", "invalidated", "archived"]

  datatype Memory = Memory(content: string, hash: Hash, status: string)

  /** The chunks table is unique on the memory and the index. */
  datatype Key = Key(memory: Id, index: nat)

  datatype State = State(memories: map<Id, Memory>, chunks: map<Key, Chunk>)

  // ----- the chunks table

  predicate HasChunks(chunks: map<Key, Chunk>, id: Id) {
    exists k :: k in chunks && k.memory == id
  }

  function Without(chunks: map<Key, Chunk>, id: Id): map<Key, Chunk> {
    map k | k in chunks && k.memory != id :: chunks[k]
  }

  function Rows(id: Id, cs: seq<Chunk>): (rows: map<Key, Chunk>)
    ensures forall k :: k in rows <==> k.memory == id && k.index < |cs|
    ensures forall k :: k in rows ==> rows[k] == cs[k.index]
  {
    map i | 0 <= i < |cs| :: Key(id, i) := cs[i]
  }

  function Hysteresis(chunks: map<Key, Chunk>, id: Id, content: string): map<Key, Chunk> {
    if HasChunks(chunks, id) then
      if |content| < HYSTERESIS_LOW then Without(chunks, id)
      else Without(chunks, id) + Rows(id, Chunks(content, true))
    else if |content| > CHUNK_THRESHOLD then chunks + Rows(id, Chunks(content, false))
    else chunks
  }

  // ----- the operations

  /** Some memory other than `self` has this hash. */
  predicate Taken(memories: map<Id, Memory>, hash: Hash, self: Option<Id>) {
    exists i :: i in memories && memories[i].hash == hash && Some(i) != self
  }

  datatype Op =
    | Store(content: string, newId: Id)
    | Update(id: Id, newContent: Option<string>, status: Option<string>)
    | Delete(id: Id)

  function StoreNext(s: State, sha: string -> Hash, content: string, newId: Id): State {
    var text := Normalize(content);
    if |text| < MIN_CONTENT || Taken(s.memories, sha(text), None) then s
    else State(s.memories[newId := Memory(text, sha(text), "active")], s.chunks + Rows(newId, Chunks(text, false)))
  }

  /** The content after an update; an empty text stands for no change. */
  function ContentAfter(row: Memory, content: Option<string>): string {
    if content.Some? && content.value != "" then Normalize(content.value) else row.content
  }

  function UpdateNext(s: State, sha: string -> Hash, id: Id, content: Option<string>, status: Option<string>): State {
    if id !in s.memories || (status.Some? && status.value !in VALID_STATUSES) then s
    else
      var row := s.memories[id];
      var text := ContentAfter(row, content);
      if Taken(s.memories, sha(text), Some(id)) then s
      else
        State(s.memories[id := Memory(text, sha(text), if status.Some? then status.value else row.status)],
              if content.Some? then Hysteresis(s.chunks, id, text) else s.chunks)
  }

  function DeleteNext(s: State, id: Id): State {
    if id !in s.memories then s else State(s.memories - {id}, Without(s.chunks, id))
  }

  function Next(s: State, sha: string -> Hash, op: Op): State {
    match op
    case Store(content, newId) => StoreNext(s, sha, content, newId)
    case Update(id, content, status) => UpdateNext(s, sha, id, content, status)
    case Delete(id) => DeleteNext(s, id)
  }

  // ----- the invariant

  /** The memory is chunked into exactly the forced split of its content, or not at all, as its length allows. */
  ghost predicate ChunkedRight(chunks: map<Key, Chunk>, id: Id, content: string) {
    if HasChunks(chunks, id) then |content| >= HYSTERESIS_LOW && ChunkedInto(chunks, id, Chunks(content, true))
    else |content| <= CHUNK_THRESHOLD
  }

  ghost predicate ChunkedInto(chunks: map<Key, Chunk>, id: Id, cs: seq<Chunk>) {
    forall i: nat :: (Key(id, i) in chunks <==> i < |cs|) && (i < |cs| ==> chunks[Key(id, i)] == cs[i])
  }

  ghost predicate MemoryRight(s: State, sha: string -> Hash, id: Id)
    requires id in s.memories
  {
    var m := s.memories[id];
    Normal(m.content) && m.hash == sha(m.content) && ChunkedRight(s.chunks, id, m.content)
  }

  ghost predicate Inv(s: State, sha: string -> Hash) {
    && (forall id :: id in s.memories ==> MemoryRight(s, sha, id))
    && (forall k :: k in s.chunks ==> k.memory in s.memories)
    && (forall i, j :: i in s.memories && j in s.memories && s.memories[i].hash == s.memories[j].hash ==> i == j)
  }

  /** Other memories' chunks stay as they are. */
  ghost predicate SameElsewhere(a: map<Key, Chunk>, b: map<Key, Chunk>, id: Id) {
    forall k: Key :: k.memory != id ==> (k in a <==> k in b) && (k in a ==> a[k] == b[k])
  }

  lemma ElsewhereRight(a: map<Key, Chunk>, b: map<Key, Chunk>, id: Id, other: Id, content: string)
    requires SameElsewhere(a, b, id) && other != id && ChunkedRight(a, other, content)
    ensures ChunkedRight(b, other, content)
  {
    if HasChunks(a, other) {
      var k :| k in a && k.memory == other;
      assert k in b;
    }
    if HasChunks(b, other) {
      var k :| k in b && k.memory == other;
      assert k in a;
    }
    forall i: nat | ChunkedInto(a, other, Chunks(content, true))
      ensures (Key(other, i) in b <==> i < |Chunks(content, true)|)
          && (i < |Chunks(content, true)| ==> b[Key(other, i)] == Chunks(content, true)[i])
    {
      assert Key(other, i).memory != id;
    }
  }

  /** New rows for a memory that has none. */
  lemma RowsAdded(chunks: map<Key, Chunk>, id: Id, cs: seq<Chunk>)
    requires !HasChunks(chunks, id)
    ensures var after := chunks + Rows(id, cs);
      ChunkedInto(after, id, cs) && SameElsewhere(chunks, after, id) && (HasChunks(after, id) <==> cs != [])
  {
    var after := chunks + Rows(id, cs);
    forall i: nat ensures (Key(id, i) in after <==> i < |cs|) && (i < |cs| ==> after[Key(id, i)] == cs[i]) {
      assert Key(id, i).memory == id;
    }
    if cs != [] {
      assert Key(id, 0) in after;
    }
  }

  /**
    After an update the memory is chunked if and only if it is longer than 2000, or was chunked and has at least 1500.
   */
  lemma HysteresisExact(chunks: map<Key, Chunk>, id: Id, content: string)
    requires Normal(content)
    ensures var after := Hysteresis(chunks, id, content);
      && (HasChunks(after, id)
          <==> |content| > 2000 || (HasChunks(chunks, id) && |content| >= 1500))
      && (HasChunks(after, id) ==> ChunkedInto(after, id, Chunks(content, true)))
      && ChunkedRight(after, id, content) && SameElsewhere(chunks, after, id)
  {
    NormalNotBlank(content);
    var bare := Without(chunks, id);
    if |content| >= HYSTERESIS_LOW {
      ChunksLoseNothing(content, true);
    }
    RowsAdded(bare, id, Chunks(content, true));
    if !HasChunks(chunks, id) {
      RowsAdded(chunks, id, Chunks(content, false));
    }
  }

  // ----- every operation keeps the invariant

  lemma StoreKeepsInv(s: State, sha: string -> Hash, content: string, newId: Id)
    requires Inv(s, sha) && newId !in s.memories
    ensures Inv(StoreNext(s, sha, content, newId), sha)
  {
    var text := Normalize(content);
    NormalizeIsNormal(content);
    var s' := StoreNext(s, sha, content, newId);
    if s' != s {
      RowsAdded(s.chunks, newId, Chunks(text, false));
      if |text| > CHUNK_THRESHOLD {
        NormalNotBlank(text);
        ChunksLoseNothing(text, true);
        assert Chunks(text, true) == Chunks(text, false);
      }
      OthersStayRight(s, s', sha, newId);
    }
  }

  ghost predicate Unchanged(s: State, s': State, id: Id) {
    id in s.memories && id in s'.memories && s'.memories[id] == s.memories[id]
  }

  lemma OthersStayRight(s: State, s': State, sha: string -> Hash, id: Id)
    requires Inv(s, sha) && SameElsewhere(s.chunks, s'.chunks, id)
    ensures forall other :: other != id && Unchanged(s, s', other) ==> MemoryRight(s', sha, other)
  {
    forall other | other != id && Unchanged(s, s', other)
      ensures MemoryRight(s', sha, other)
    {
      assert MemoryRight(s, sha, other);
      ElsewhereRight(s.chunks, s'.chunks, id, other, s.memories[other].content);
    }
  }

  lemma UpdateKeepsInv(s: State, sha: string -> Hash, id: Id, content: Option<string>, status: Option<string>)
    requires Inv(s, sha)
    ensures Inv(UpdateNext(s, sha, id, content, status), sha)
  {
    var s' := UpdateNext(s, sha, id, content, status);
    if id in s.memories && s' != s {
      var row := s.memories[id];
      var text := ContentAfter(row, content);
      assert MemoryRight(s, sha, id);
      if content.Some? {
        NormalizeIsNormal(content.value);
        HysteresisExact(s.chunks, id, text);
      }
      assert MemoryRight(s', sha, id);
      OthersStayRight(s, s', sha, id);
      UpdateKeepsUnique(s, s', sha, id, text);
      forall k | k in s'.chunks ensures k.memory in s'.memories {
        assert k.memory != id ==> k in s.chunks;
      }
    }
  }

  lemma UpdateKeepsUnique(s: State, s': State, sha: string -> Hash, id: Id, text: string)
    requires Inv(s, sha) && id in s.memories && !Taken(s.memories, sha(text), Some(id))
    requires s'.memories.Keys == s.memories.Keys && s'.memories[id].hash == sha(text)
    requires forall k :: k in s.memories && k != id ==> s'.memories[k] == s.memories[k]
    ensures forall i, j :: i in s'.memories && j in s'.memories && s'.memories[i].hash == s'.memories[j].hash ==> i == j
  {
  }

  lemma DeleteKeepsInv(s: State, sha: string -> Hash, id: Id)
    requires Inv(s, sha)
    ensures Inv(DeleteNext(s, id), sha)
  {
    var s' := DeleteNext(s, id);
    if id in s.memories {
      OthersStayRight(s, s', sha, id);
    }
  }

  /** A run: uuid4 gives every stored memory an id that is not in use. */
  ghost predicate IsRun(s: State, sha: string -> Hash, ops: seq<Op>)
    decreases |ops|
  {
    ops == [] || ((ops[0].Store? ==> ops[0].newId !in s.memories) && IsRun(Next(s, sha, ops[0]), sha, ops[1..]))
  }

  function Run(s: State, sha: string -> Hash, ops: seq<Op>): State
    decreases |ops|
  {
    if ops == [] then s else Run(Next(s, sha, ops[0]), sha, ops[1..])
  }

  /**
    Over every run of store, update and delete: a chunked memory has at least 1500 characters, one longer than
    2000 is chunked, the chunks are the forced split of the content with consecutive indices, and hashes are unique.
   */
  lemma {:induction false} RunsKeepInv(s: State, sha: string -> Hash, ops: seq<Op>)
    requires Inv(s, sha) && IsRun(s, sha, ops)
    ensures Inv(Run(s, sha, ops), sha)
    decreases |ops|
  {
    if ops != [] {
      match ops[0] {
        case Store(content, newId) => StoreKeepsInv(s, sha, content, newId);
        case Update(id, content, status) => UpdateKeepsInv(s, sha, id, content, status);
        case Delete(id) => DeleteKeepsInv(s, sha, id);
      }
      RunsKeepInv(Next(s, sha, ops[0]), sha, ops[1..]);
    }
  }

  /** No two memories have the same content, and what was read from the store is refused when stored again. */
  lemma StoredOnce(s: State, sha: string -> Hash, id: Id, newId: Id)
    requires Inv(s, sha) && id in s.memories && newId !in s.memories
    ensures forall other :: other in s.memories && s.memories[other].content == s.memories[id].content ==> other == id
    ensures StoreNext(s, sha, s.memories[id].content, newId) == s
  {
    assert MemoryRight(s, sha, id);
    NormalStays(s.memories[id].content);
    forall other | other in s.memories && s.memories[other].content == s.memories[id].content ensures other == id {
      assert MemoryRight(s, sha, other);
    }
  }

  // ----- what an operation leaves

  /** An update is accepted if the memory exists, the status is a known one, and no other memory has the new text. */
  ghost predicate Accepted(s: State, sha: string -> Hash, id: Id, content: Option<string>, status: Option<string>) {
    && id in s.memories
    && (status == None || status == Some("active") || status == Some("invalidated") || status == Some("archived"))
    && forall other :: other in s.memories && other != id ==>
         s.memories[other].hash != sha(ContentAfter(s.memories[id], content))
  }

  /** Then the memory has the status and the text given, or those it had, and its hash is that of its text. */
  lemma UpdateLeaves(s: State, sha: string -> Hash, id: Id, content: Option<string>, status: Option<string>)
    ensures !Accepted(s, sha, id, content, status) ==> UpdateNext(s, sha, id, content, status) == s
    ensures Accepted(s, sha, id, content, status) ==>
      var old', new' := s.memories[id], UpdateNext(s, sha, id, content, status).memories;
      && new'.Keys == s.memories.Keys
      && (forall other :: other in s.memories && other != id ==> new'[other] == s.memories[other])
      && new'[id].status == (if status.Some? then status.value else old'.status)
      && new'[id].content == (if content.Some? && content.value != "" then Normalize(content.value) else old'.content)
      && new'[id].hash == sha(new'[id].content)
  {
  }

  /** Its chunks are looked at if a text was given, be it the empty one; if not they stay, as all others always do. */
  lemma UpdateLeavesChunks(s: State, sha: string -> Hash, id: Id, content: Option<string>, status: Option<string>)
    requires Inv(s, sha) && Accepted(s, sha, id, content, status)
    ensures var text, after := ContentAfter(s.memories[id], content), UpdateNext(s, sha, id, content, status).chunks;
      && SameElsewhere(s.chunks, after, id)
      && (content.None? ==> after == s.chunks)
      && (content.Some? ==>
            (HasChunks(after, id) <==> |text| > 2000 || (HasChunks(s.chunks, id) && |text| >= 1500)))
      && (content.Some? && HasChunks(after, id) ==> ChunkedInto(after, id, Chunks(text, true)))
  {
    assert MemoryRight(s, sha, id);
    if content.Some? {
      NormalizeIsNormal(content.value);
      HysteresisExact(s.chunks, id, ContentAfter(s.memories[id], content));
    }
  }

  /** A deleted memory and its chunks are gone, and nothing else is. */
  lemma DeleteLeaves(s: State, id: Id)
    requires forall k :: k in s.chunks ==> k.memory in s.memories
    ensures var s' := DeleteNext(s, id);
      && id !in s'.memories && !HasChunks(s'.chunks, id) && SameElsewhere(s.chunks, s'.chunks, id)
      && forall other :: other != id ==>
           (other in s'.memories <==> other in s.memories)
           && (other in s.memories ==> s'.memories[other] == s.memories[other])
  {
  }

  /** A text of at least ten characters that no memory has is stored as it is normalised, active, under the new id. */
  lemma StoreLeaves(s: State, sha: string -> Hash, content: string, newId: Id)
    ensures var text := Normalize(content); var new' := StoreNext(s, sha, content, newId).memories;
      if |text| >= 10 && forall other :: other in s.memories ==> s.memories[other].hash != sha(text)
      then && new' == s.memories[newId := Memory(text, sha(text), "active")]
           && StoreNext(s, sha, content, newId).chunks == s.chunks + Rows(newId, Chunks(text, false))
      else StoreNext(s, sha, content, newId) == s
  {
  }

  // ----- the ten characters that storing asks for

  ghost predicate AllLong(s: State) {
    forall id :: id in s.memories ==> |s.memories[id].content| >= MIN_CONTENT
  }

  /** An update that is accepted and brings a text, not an empty one, that normalises to fewer than ten characters. */
  predicate Shortens(s: State, sha: string -> Hash, op: Op) {
    && op.Update? && op.id in s.memories && (op.status.Some? ==> op.status.value in VALID_STATUSES)
    && op.newContent.Some? && op.newContent.value != "" && |Normalize(op.newContent.value)| < MIN_CONTENT
    && !Taken(s.memories, sha(Normalize(op.newContent.value)), Some(op.id))
  }

  lemma StaysLongIff(s: State, sha: string -> Hash, op: Op)
    requires AllLong(s)
    ensures AllLong(Next(s, sha, op)) <==> !Shortens(s, sha, op)
  {
    if Shortens(s, sha, op) {
      assert op.id in Next(s, sha, op).memories;
    }
  }

  /** In every state of the run all memories have at least ten characters. */
  ghost predicate AlwaysLong(s: State, sha: string -> Hash, ops: seq<Op>)
    decreases |ops|
  {
    AllLong(s) && (ops != [] ==> AlwaysLong(Next(s, sha, ops[0]), sha, ops[1..]))
  }

  ghost predicate NeverShortened(s: State, sha: string -> Hash, ops: seq<Op>)
    decreases |ops|
  {
    ops != [] ==> !Shortens(s, sha, ops[0]) && NeverShortened(Next(s, sha, ops[0]), sha, ops[1..])
  }

  /** What storing asks for holds throughout a run if and only if no update of it is accepted that brings less. */
  lemma {:induction false} AlwaysLongIff(s: State, sha: string -> Hash, ops: seq<Op>)
    requires AllLong(s)
    ensures AlwaysLong(s, sha, ops) <==> NeverShortened(s, sha, ops)
    decreases |ops|
  {
    if ops != [] {
      StaysLongIff(s, sha, ops[0]);
      if AllLong(Next(s, sha, ops[0])) {
        AlwaysLongIff(Next(s, sha, ops[0]), sha, ops[1..]);
      }
    }
  }

  lemma PlainIsNormal(t: string)
    requires forall k :: 0 <= k < |t| ==> !IsSpace(t[k])
    ensures Normalize(t) == t
  {
    NormalStays(t);
  }

  lemma StoredFirst(s: State, sha: string -> Hash, text: string, id: Id)
    requires s.memories == map[] && Normalize(text) == text && |text| >= MIN_CONTENT
    ensures StoreNext(s, sha, text, id).memories == map[id := Memory(text, sha(text), "active")]
  {
  }

  lemma UpdatedAlone(s: State, sha: string -> Hash, id: Id, row: Memory, text: string)
    requires s.memories == map[id := row] && Normalize(text) == text != ""
    ensures UpdateNext(s, sha, id, Some(text), None).memories == map[id := Memory(text, sha(text), row.status)]
  {
    assert !Taken(s.memories, sha(text), Some(id));
  }

  lemma RunOfTwo(s: State, sha: string -> Hash, first: Op, second: Op, mid: State)
    requires mid == Next(s, sha, first) && second.Update?
    ensures Run(s, sha, [first, second]) == Next(mid, sha, second)
    ensures IsRun(s, sha, [first, second]) <==> (first.Store? ==> first.newId !in s.memories)
  {
    var ops := [first, second];
    assert ops[1..] == [second] && [second][1..] == [];
    assert Run(Next(mid, sha, second), sha, []) == Next(mid, sha, second);
    assert Run(mid, sha, [second]) == Next(mid, sha, second);
    assert IsRun(Next(mid, sha, second), sha, []);
    assert IsRun(mid, sha, [second]);
  }

  lemma StoredThenUpdated(sha: string -> Hash, id: Id, text: string, text': string) returns (ops: seq<Op>)
    requires Normalize(text) == text && |text| >= MIN_CONTENT && Normalize(text') == text' != ""
    ensures ops == [Store(text, id), Update(id, Some(text'), None)] && IsRun(State(map[], map[]), sha, ops)
    ensures Run(State(map[], map[]), sha, ops).memories == map[id := Memory(text', sha(text'), "active")]
  {
    var start, first, second := State(map[], map[]), Store(text, id), Update(id, Some(text'), None);
    var mid := Next(start, sha, first);
    StoredFirst(start, sha, text, id);
    UpdatedAlone(mid, sha, id, Memory(text, sha(text), "active"), text');
    RunOfTwo(start, sha, first, second, mid);
    ops := [first, second];
  }

  /** Ten characters, or more, are stored, and then updated to one. */
  lemma OneCharacterLeft(sha: string -> Hash, id: Id, text: string, c: char) returns (ops: seq<Op>)
    requires |text| >= MIN_CONTENT && !IsSpace(c) && forall k :: 0 <= k < |text| ==> !IsSpace(text[k])
    ensures ops == [Store(text, id), Update(id, Some([c]), None)] && IsRun(State(map[], map[]), sha, ops)
    ensures Run(State(map[], map[]), sha, ops).memories == map[id := Memory([c], sha([c]), "active")]
  {
    PlainIsNormal(text);
    PlainIsNormal([c]);
    ops := StoredThenUpdated(sha, id, text, [c]);
  }

  lemma OneMoreRow(chunks: map<Key, Chunk>, id: Id, pieces: seq<Chunk>, k: nat)
    requires k < |pieces|
    ensures chunks + Rows(id, pieces[..k + 1]) == (chunks + Rows(id, pieces[..k]))[Key(id, k) := pieces[k]]
  {
    var a, b := Rows(id, pieces[..k]), Rows(id, pieces[..k + 1]);
    forall key: Key ensures key in b <==> key in a || key == Key(id, k) {
    }
  }

  // ----- the store

  datatype Outcome = Stored | Updated | Deleted | TooShort | Duplicate(existing: Id) | NotFound | InvalidStatus

  class Store {
    var memories: map<Id, Memory>
    var chunks: map<Key, Chunk>
    const sha: string -> Hash

    ghost function Value(): State
      reads this
    {
      State(memories, chunks)
    }

    constructor (sha: string -> Hash)
      ensures this.sha == sha && Value() == State(map[], map[]) && Inv(Value(), sha)
    {
      this.sha := sha;
      memories, chunks := map[], map[];
    }

    method StoreMemory(content: string, newId: Id) returns (outcome: Outcome)
      requires newId !in memories
      modifies this
      ensures Value() == StoreNext(old(Value()), sha, content, newId)
      ensures outcome == TooShort <==> |Normalize(content)| < MIN_CONTENT
      ensures outcome.Duplicate?
          ==> outcome.existing in old(memories) && old(memories)[outcome.existing].hash == sha(Normalize(content))
      ensures outcome == Stored || outcome == TooShort || outcome.Duplicate?
      ensures outcome == Stored <==> newId in memories
      ensures Inv(old(Value()), sha) ==> Inv(Value(), sha)
    {
      if Inv(Value(), sha) {
        StoreKeepsInv(Value(), sha, content, newId);
      }
      var text := Normalize(content);
      if |text| < MIN_CONTENT {
        return TooShort;
      }
      var hash := sha(text);
      if existing :| existing in memories && memories[existing].hash == hash {
        assert Taken(memories, hash, None);
        return Duplicate(existing);
      }
      memories := memories[newId := Memory(text, hash, "active")];
      ChunkAndEmbed(newId, text, false);
      return Stored;
    }

    /** Splits the content and inserts the chunks under consecutive indices. */
    method ChunkAndEmbed(id: Id, content: string, force: bool)
      modifies this`chunks
      ensures chunks == old(chunks) + Rows(id, Chunks(content, force))
    {
      var pieces := Split(content, force);
      InsertChunks(id, pieces);
    }

    method InsertChunks(id: Id, pieces: seq<Chunk>)
      modifies this`chunks
      ensures chunks == old(chunks) + Rows(id, pieces)
    {
      for k := 0 to |pieces|
        invariant chunks == old(chunks) + Rows(id, pieces[..k])
      {
        OneMoreRow(old(chunks), id, pieces, k);
        chunks := chunks[Key(id, k) := pieces[k]];
      }
      assert pieces[..|pieces|] == pieces;
    }

    method UpdateMemory(id: Id, content: Option<string>, status: Option<string>) returns (outcome: Outcome)
      modifies this
      ensures Value() == UpdateNext(old(Value()), sha, id, content, status)
      ensures outcome == NotFound <==> id !in old(memories)
      ensures outcome == InvalidStatus <==> id in old(memories) && status.Some? && status.value !in VALID_STATUSES
      ensures outcome.Duplicate? ==>
        outcome.existing != id && outcome.existing in old(memories) && memories == old(memories)
      ensures outcome == NotFound || outcome == InvalidStatus || outcome.Duplicate? || outcome == Updated
      ensures outcome == Updated
          ==> id in memories && memories[id].hash == sha(ContentAfter(old(memories)[id], content))
      ensures Inv(old(Value()), sha) ==> Inv(Value(), sha)
    {
      if Inv(Value(), sha) {
        UpdateKeepsInv(Value(), sha, id, content, status);
      }
      if id !in memories {
        return NotFound;
      }
      if status.Some? && status.value !in VALID_STATUSES {
        return InvalidStatus;
      }
      var row := memories[id];
      var text := if content.Some? && content.value != "" then Normalize(content.value) else row.content;
      var hash := sha(text);
      if existing :| existing in memories && memories[existing].hash == hash && existing != id {
        assert Taken(memories, hash, Some(id));
        return Duplicate(existing);
      }
      memories := memories[id := Memory(text, hash, if status.Some? then status.value else row.status)];
      if content.Some? {
        UpdateChunks(id, text);
      }
      return Updated;
    }

    /** Chunks on growth, unchunks on shrinkage, and chunks again in place in between. */
    method UpdateChunks(id: Id, content: string)
      modifies this`chunks
      ensures chunks == Hysteresis(old(chunks), id, content)
    {
      var chunked := HasChunks(chunks, id);
      if chunked && |content| < HYSTERESIS_LOW {
        chunks := Without(chunks, id);
        return;
      }
      if chunked {
        chunks := Without(chunks, id);
        ChunkAndEmbed(id, content, true);
        return;
      }
      if !chunked && |content| > CHUNK_THRESHOLD {
        ChunkAndEmbed(id, content, false);
      }
    }

    /** Deleting a memory deletes its chunks with it. */
    method DeleteMemory(id: Id) returns (outcome: Outcome)
      modifies this
      ensures Value() == DeleteNext(old(Value()), id)
      ensures outcome == if id in old(memories) then Deleted else NotFound
      ensures Inv(old(Value()), sha) ==> Inv(Value(), sha)
    {
      if Inv(Value(), sha) {
        DeleteKeepsInv(Value(), sha, id);
      }
      if id !in memories {
        return NotFound;
      }
      memories := memories - {id};
      chunks := Without(chunks, id);
      return Deleted;
    }
  }
}
