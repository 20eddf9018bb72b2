// The block states known for block entities: a map that is never evicted, an
// index of its positions by chunk, and the bounded cache behind it.
module BlockTracking {
  import opened Widths
  import opened JavaChunks
  import opened RecentStates

  datatype Tracker = Tracker(cache: seq<Entry>, states: map<BlockPos, Int32>, chunks: map<ChunkPos, set<BlockPos>>)

  const UNKNOWN_STATE: Int32 := -1

  predicate ValidState(state: Int32) {
    0 <= state < BLOCK_STATE_COUNT
  }

  function ClearChunk(t: Tracker, c: ChunkPos): Tracker {
    if c in t.chunks then t.(states := t.states - t.chunks[c], chunks := t.chunks[c := {}]) else t
  }

  function LoadEntity(t: Tracker, chunk: Chunk, minSection: int, entity: BlockEntity): Tracker
    requires chunk.pos in t.chunks
  {
    match EntityPosition(chunk.pos, entity)
    case None => t
    case Some(p) =>
      var state := StateAt(chunk, p, minSection);
      Tracker(if state.Some? then Put(t.cache, p, state.value) else t.cache,
              t.states[p := if state.Some? then state.value else UNKNOWN_STATE],
              t.chunks[chunk.pos := t.chunks[chunk.pos] + {p}])
  }

  function LoadEntities(t: Tracker, chunk: Chunk, minSection: int, n: nat): (r: Tracker)
    requires chunk.pos in t.chunks && n <= |chunk.entities|
    ensures chunk.pos in r.chunks
  {
    if n == 0 then t
    else LoadEntity(LoadEntities(t, chunk, minSection, n - 1), chunk, minSection, chunk.entities[n - 1])
  }

  function StartChunk(t: Tracker, c: ChunkPos): Tracker {
    var cleared := ClearChunk(t, c);
    cleared.(chunks := cleared.chunks[c := {}])
  }

  function LoadChunk(t: Tracker, chunk: Chunk, minSection: int): Tracker {
    LoadEntities(StartChunk(t, chunk.pos), chunk, minSection, |chunk.entities|)
  }

  function RememberPosition(t: Tracker, p: BlockPos): Tracker {
    var (state, cache) := Get(t.cache, p);
    var c := ChunkForBlock(p);
    Tracker(cache,
            if p !in t.states || state.Some? then
              t.states[p := if state.Some? then state.value else UNKNOWN_STATE]
            else t.states,
            t.chunks[c := (if c in t.chunks then t.chunks[c] else {}) + {p}])
  }

  function ChangeState(t: Tracker, p: BlockPos, state: Int32): Tracker {
    t.(cache := Put(t.cache, p, state),
       states := if p in t.states then t.states[p := if ValidState(state) then state else UNKNOWN_STATE] else t.states)
  }

  function CachedState(t: Tracker, p: BlockPos): (Option<Int32>, Tracker) {
    if p in t.states && t.states[p] >= 0 then (Some(t.states[p]), t)
    else
      var (state, cache) := Get(t.cache, p);
      (if state.Some? && state.value >= 0 then state else None, t.(cache := cache))
  }

  function ForgetChunk(t: Tracker, c: ChunkPos): Tracker {
    var cleared := ClearChunk(t, c);
    cleared.(cache := OutsideChunk(cleared.cache, c))
  }

  // ----- runs --------------------------------------------------------------

  datatype Event =
    | Load(chunk: Chunk, minSection: int)
    | EntityUpdate(pos: BlockPos)
    | Change(pos: BlockPos, state: Int32)
    | Query(pos: BlockPos)
    | Forget(chunkPos: ChunkPos)

  // Decoded block entities lie inside their chunk's columns.
  predicate WellFormed(event: Event) {
    event.Load? ==> forall e | e in event.chunk.entities :: 0 <= e.x < 16 && 0 <= e.z < 16
  }

  function Step(t: Tracker, event: Event): Tracker {
    match event
    case Load(chunk, minSection) => LoadChunk(t, chunk, minSection)
    case EntityUpdate(p) => RememberPosition(t, p)
    case Change(p, state) => ChangeState(t, p, state)
    case Query(p) => CachedState(t, p).1
    case Forget(c) => ForgetChunk(t, c)
  }

  function Run(t: Tracker, events: seq<Event>): Tracker
    decreases |events|
  {
    if events == [] then t else Run(Step(t, events[0]), events[1..])
  }

  // The state most recently recorded for each position since its chunk was
  // last forgotten, without any bound.
  type Record = map<BlockPos, Int32>

  function RecordEntities(last: Record, chunk: Chunk, minSection: int, n: nat): Record
    requires n <= |chunk.entities|
  {
    if n == 0 then last
    else
      var before := RecordEntities(last, chunk, minSection, n - 1);
      match EntityPosition(chunk.pos, chunk.entities[n - 1])
      case None => before
      case Some(p) =>
        match StateAt(chunk, p, minSection)
        case None => before
        case Some(state) => before[p := state]
  }

  function RecordStep(last: Record, event: Event): Record {
    match event
    case Load(chunk, minSection) => RecordEntities(last, chunk, minSection, |chunk.entities|)
    case Change(p, state) => last[p := state]
    case Forget(c) => map p | p in last && ChunkForBlock(p) != c :: last[p]
    case EntityUpdate(_) => last
    case Query(_) => last
  }

  function RecordRun(last: Record, events: seq<Event>): Record
    decreases |events|
  {
    if events == [] then last else RecordRun(RecordStep(last, events[0]), events[1..])
  }

  const EMPTY := Tracker([], map[], map[])

  // ----- what every event keeps --------------------------------------------

  // The index and the map hold the same positions, each under its own chunk.
  ghost predicate Indexed(t: Tracker) {
    && (forall p :: p in t.states <==> ChunkForBlock(p) in t.chunks && p in t.chunks[ChunkForBlock(p)])
    && (forall c, p | c in t.chunks && p in t.chunks[c] :: ChunkForBlock(p) == c)
  }

  // What the cache and the map know is what was recorded last.
  ghost predicate Agrees(t: Tracker, last: Record) {
    && NoRepeats(t.cache)
    && (forall e | e in t.cache :: e.pos in last && last[e.pos] == e.state)
    && (forall p | p in t.states && t.states[p] >= 0 :: p in last && last[p] == t.states[p])
  }

  ghost predicate Consistent(t: Tracker, last: Record) {
    Indexed(t) && Agrees(t, last)
  }

  lemma PutAgrees(cache: seq<Entry>, last: Record, p: BlockPos, state: Int32)
    requires NoRepeats(cache) && forall e | e in cache :: e.pos in last && last[e.pos] == e.state
    ensures NoRepeats(Put(cache, p, state))
    ensures forall e | e in Put(cache, p, state) :: e == Entry(p, state) || (e in cache && e.pos != p)
  {
    TouchNoRepeats(cache, p, state);
    assert forall e | e in Put(cache, p, state) :: e in Touch(cache, p, state);
  }

  lemma GetAgrees(cache: seq<Entry>, p: BlockPos)
    requires NoRepeats(cache)
    ensures var (state, after) := Get(cache, p);
            && NoRepeats(after) && (forall e | e in after :: e in cache)
            && (state.Some? ==> Entry(p, state.value) in cache)
  {
    StateOfMember(cache, p);
    if StateOf(cache, p).Some? { TouchNoRepeats(cache, p, StateOf(cache, p).value); }
  }

  lemma LoadEntityConsistent(t: Tracker, last: Record, chunk: Chunk, minSection: int, entity: BlockEntity)
    requires Consistent(t, last) && chunk.pos in t.chunks && 0 <= entity.x < 16 && 0 <= entity.z < 16
    ensures var p := EntityPosition(chunk.pos, entity);
            Consistent(LoadEntity(t, chunk, minSection, entity),
                       if p.Some? && StateAt(chunk, p.value, minSection).Some?
                       then last[p.value := StateAt(chunk, p.value, minSection).value] else last)
  {
    EntityInItsChunk(chunk.pos, entity);
    hide StateAt, EntityPosition, ChunkForBlock;
    var p := EntityPosition(chunk.pos, entity);
    if p.Some? {
      TrackConsistent(t, last, p.value, StateAt(chunk, p.value, minSection));
    }
  }

  // Tracking a position with the state found for it, if any.
  lemma TrackConsistent(t: Tracker, last: Record, p: BlockPos, state: Option<Int32>)
    requires Consistent(t, last) && ChunkForBlock(p) in t.chunks
    ensures Consistent(Tracker(if state.Some? then Put(t.cache, p, state.value) else t.cache,
                               t.states[p := if state.Some? then state.value else UNKNOWN_STATE],
                               t.chunks[ChunkForBlock(p) := t.chunks[ChunkForBlock(p)] + {p}]),
                       if state.Some? then last[p := state.value] else last)
  {
    hide ChunkForBlock, Put;
    if state.Some? { PutAgrees(t.cache, last, p, state.value); }
  }

  lemma {:induction false} LoadEntitiesConsistent(t: Tracker, last: Record, chunk: Chunk, minSection: int, n: nat)
    requires Consistent(t, last) && chunk.pos in t.chunks && n <= |chunk.entities|
    requires forall e | e in chunk.entities :: 0 <= e.x < 16 && 0 <= e.z < 16
    ensures Consistent(LoadEntities(t, chunk, minSection, n), RecordEntities(last, chunk, minSection, n))
  {
    if n > 0 {
      hide LoadEntity, StateAt, EntityPosition, Consistent;
      LoadEntitiesConsistent(t, last, chunk, minSection, n - 1);
      assert chunk.entities[n - 1] in chunk.entities;
      LoadEntityConsistent(LoadEntities(t, chunk, minSection, n - 1), RecordEntities(last, chunk, minSection, n - 1),
                           chunk, minSection, chunk.entities[n - 1]);
    }
  }

  lemma ClearChunkConsistent(t: Tracker, last: Record, c: ChunkPos)
    requires Consistent(t, last)
    ensures Consistent(ClearChunk(t, c), last) && Consistent(StartChunk(t, c), last)
    ensures forall p | ChunkForBlock(p) == c :: p !in ClearChunk(t, c).states
  {
    hide ChunkForBlock;
  }

  lemma RememberConsistent(t: Tracker, last: Record, p: BlockPos)
    requires Consistent(t, last)
    ensures Consistent(RememberPosition(t, p), last)
  {
    GetAgrees(t.cache, p);
    hide ChunkForBlock, Get;
  }

  lemma ChangeConsistent(t: Tracker, last: Record, p: BlockPos, state: Int32)
    requires Consistent(t, last)
    ensures Consistent(ChangeState(t, p, state), last[p := state])
  {
    PutAgrees(t.cache, last, p, state);
    hide ChunkForBlock, Put;
  }

  lemma ForgetConsistent(t: Tracker, last: Record, c: ChunkPos)
    requires Consistent(t, last)
    ensures Consistent(ForgetChunk(t, c), RecordStep(last, Forget(c)))
  {
    ClearChunkConsistent(t, last, c);
    OutsideMembers(t.cache, c);
    hide ChunkForBlock, OutsideChunk;
  }

  lemma StepConsistent(t: Tracker, last: Record, event: Event)
    requires Consistent(t, last) && WellFormed(event)
    ensures Consistent(Step(t, event), RecordStep(last, event))
  {
    match event
    case Load(chunk, minSection) =>
      ClearChunkConsistent(t, last, chunk.pos);
      LoadEntitiesConsistent(StartChunk(t, chunk.pos), last, chunk, minSection, |chunk.entities|);
    case EntityUpdate(p) => RememberConsistent(t, last, p);
    case Change(p, state) => ChangeConsistent(t, last, p, state);
    case Query(p) => GetAgrees(t.cache, p);
    case Forget(c) => ForgetConsistent(t, last, c);
  }

  lemma {:induction false} RunConsistent(t: Tracker, last: Record, events: seq<Event>)
    requires Consistent(t, last) && forall e | e in events :: WellFormed(e)
    ensures Consistent(Run(t, events), RecordRun(last, events))
    decreases |events|
  {
    if events != [] {
      assert events[0] in events;
      StepConsistent(t, last, events[0]);
      RunConsistent(Step(t, events[0]), RecordStep(last, events[0]), events[1..]);
    }
  }

  // ----- the main results --------------------------------------------------

  // In every reachable state a position is in the map exactly when it is in the
  // index under its own chunk, and the index holds nothing else.
  lemma IndexAlwaysConsistent(events: seq<Event>)
    requires forall e | e in events :: WellFormed(e)
    ensures Indexed(Run(EMPTY, events))
  {
    RunConsistent(EMPTY, map[], events);
  }

  // After every run, a lookup that answers gives the state recorded last since
  // the chunk was forgotten; for a position with nothing recorded since then
  // there is no answer.
  lemma LookupIsLastRecorded(events: seq<Event>, p: BlockPos)
    requires forall e | e in events :: WellFormed(e)
    ensures var answer := CachedState(Run(EMPTY, events), p).0;
            var last := RecordRun(map[], events);
            answer.Some? ==> p in last && last[p] == answer.value
  {
    RunConsistent(EMPTY, map[], events);
    GetAgrees(Run(EMPTY, events).cache, p);
  }

  // Events that cannot take away the valid state of a tracked position.
  predicate Spares(event: Event, p: BlockPos) {
    match event
    case Load(chunk, _) => chunk.pos != ChunkForBlock(p)
    case Change(q, state) => q == p ==> ValidState(state)
    case Forget(c) => c != ChunkForBlock(p)
    case EntityUpdate(_) => true
    case Query(_) => true
  }

  lemma {:induction false} LoadElsewhere(t: Tracker, chunk: Chunk, minSection: int, n: nat, p: BlockPos)
    requires chunk.pos in t.chunks && n <= |chunk.entities| && chunk.pos != ChunkForBlock(p)
    requires forall e | e in chunk.entities :: 0 <= e.x < 16 && 0 <= e.z < 16
    ensures var r := LoadEntities(t, chunk, minSection, n);
            (p in r.states <==> p in t.states) && (p in t.states ==> r.states[p] == t.states[p])
  {
    if n > 0 {
      LoadElsewhere(t, chunk, minSection, n - 1, p);
      var entity := chunk.entities[n - 1];
      assert entity in chunk.entities;
      EntityInItsChunk(chunk.pos, entity);
      hide EntityPosition, StateAt, ChunkForBlock, Put;
    }
  }

  lemma TrackedStateStays(t: Tracker, last: Record, event: Event, p: BlockPos)
    requires Consistent(t, last) && WellFormed(event) && Spares(event, p)
    requires p in t.states && t.states[p] >= 0
    ensures p in Step(t, event).states && Step(t, event).states[p] >= 0
  {
    match event
    case Load(chunk, minSection) =>
      assert p in StartChunk(t, chunk.pos).states && StartChunk(t, chunk.pos).states[p] == t.states[p];
      LoadElsewhere(StartChunk(t, chunk.pos), chunk, minSection, |chunk.entities|, p);
    case EntityUpdate(q) => GetAgrees(t.cache, q);
    case Change(_, _) =>
    case Query(_) =>
    case Forget(_) =>
  }

  // A tracked position keeps answering with its latest state, however many
  // other positions push it out of the cache, until its chunk is loaded again
  // or forgotten, or an invalid state is set there.
  lemma {:induction false} TrackedAnswersDespiteEviction(t: Tracker, last: Record, events: seq<Event>, p: BlockPos)
    requires Consistent(t, last) && forall e | e in events :: WellFormed(e) && Spares(e, p)
    requires p in t.states && t.states[p] >= 0
    ensures var after := RecordRun(last, events);
            p in after && CachedState(Run(t, events), p).0 == Some(after[p])
    decreases |events|
  {
    if events != [] {
      assert events[0] in events;
      StepConsistent(t, last, events[0]);
      TrackedStateStays(t, last, events[0], p);
      TrackedAnswersDespiteEviction(Step(t, events[0]), RecordStep(last, events[0]), events[1..], p);
    }
  }

  // Right after a chunk is forgotten, and for as long as nothing new is
  // recorded for it, no lookup in that chunk succeeds.
  lemma ForgottenChunkHasNoAnswers(events: seq<Event>, c: ChunkPos, later: seq<Event>, p: BlockPos)
    requires forall e | e in events + [Forget(c)] + later :: WellFormed(e)
    requires ChunkForBlock(p) == c
    requires forall e | e in later :: !Records(e, p)
    ensures CachedState(Run(EMPTY, events + [Forget(c)] + later), p).0.None?
  {
    var all := events + [Forget(c)] + later;
    LookupIsLastRecorded(all, p);
    RecordRunConcat(map[], events + [Forget(c)], later);
    RecordRunConcat(map[], events, [Forget(c)]);
    var last := RecordRun(map[], events);
    assert [Forget(c)][1..] == [];
    assert RecordRun(last, [Forget(c)]) == RecordStep(last, Forget(c));
    NothingRecorded(RecordStep(last, Forget(c)), later, p);
  }

  // Whether an event records a state for the position.
  predicate Records(event: Event, p: BlockPos) {
    match event
    case Load(chunk, minSection) =>
      exists i | 0 <= i < |chunk.entities| :: EntityPosition(chunk.pos, chunk.entities[i]) == Some(p)
    case Change(q, _) => q == p
    case _ => false
  }

  lemma {:induction false} RecordRunConcat(last: Record, a: seq<Event>, b: seq<Event>)
    ensures RecordRun(last, a + b) == RecordRun(RecordRun(last, a), b)
    decreases |a|
  {
    if a == [] {
      assert a + b == b;
    } else {
      assert (a + b)[1..] == a[1..] + b;
      RecordRunConcat(RecordStep(last, a[0]), a[1..], b);
    }
  }

  lemma {:induction false} NoEntityRecorded(last: Record, chunk: Chunk, minSection: int, n: nat, p: BlockPos)
    requires n <= |chunk.entities| && p !in last
    requires forall i | 0 <= i < |chunk.entities| :: EntityPosition(chunk.pos, chunk.entities[i]) != Some(p)
    ensures p !in RecordEntities(last, chunk, minSection, n)
  {
    if n > 0 {
      hide StateAt, EntityPosition;
      NoEntityRecorded(last, chunk, minSection, n - 1, p);
    }
  }

  lemma {:induction false} NothingRecorded(last: Record, events: seq<Event>, p: BlockPos)
    requires p !in last && forall e | e in events :: !Records(e, p)
    ensures p !in RecordRun(last, events)
    decreases |events|
  {
    if events != [] {
      assert events[0] in events;
      if events[0].Load? {
        NoEntityRecorded(last, events[0].chunk, events[0].minSection, |events[0].chunk.entities|, p);
      }
      NothingRecorded(RecordStep(last, events[0]), events[1..], p);
    }
  }
}
