// The answer of a lookup as a function of the events before it.
module LookupHistory {
  import opened Widths
  import opened JavaChunks
  import opened RecentStates
  import opened BlockTracking
  import opened Evictions

  // ----- what the events say about a position ----------------------------------

  // The load brings a block entity at the position.
  predicate Brings(chunk: Chunk, n: nat, p: BlockPos)
    requires n <= |chunk.entities|
  {
    exists i | 0 <= i < n :: EntityPosition(chunk.pos, chunk.entities[i]) == Some(p)
  }

  // A block entity was loaded or updated at p since its chunk was cleared.
  predicate TrackedBy(events: seq<Event>, p: BlockPos)
    decreases |events|, 0
  {
    events != []
    && var earlier := events[..|events| - 1];
       match events[|events| - 1]
       case Load(chunk, _) =>
         if chunk.pos == ChunkForBlock(p) then Brings(chunk, |chunk.entities|, p) else TrackedBy(earlier, p)
       case EntityUpdate(q) => q == p || TrackedBy(earlier, p)
       case Forget(c) => c != ChunkForBlock(p) && TrackedBy(earlier, p)
       case Change(_, _) => TrackedBy(earlier, p)
       case Query(_) => TrackedBy(earlier, p)
  }

  // The state recorded last for p has not been pushed out of the cache.
  predicate CachedBy(events: seq<Event>, p: BlockPos)
    decreases |events|, 2
  {
    p in RecordRun(map[], events) && !Overtaken(OpsOf(events), p)
  }

  // A valid state is known for the block entity at p: the load of its chunk
  // brought one, an update found one in the cache, or a valid change was made
  // while it was tracked, and nothing has taken it away since.
  predicate KnownBy(events: seq<Event>, p: BlockPos)
    decreases |events|, 0
  {
    events != []
    && var earlier := events[..|events| - 1];
       match events[|events| - 1]
       case Load(chunk, minSection) =>
         if chunk.pos == ChunkForBlock(p) then
           Brings(chunk, |chunk.entities|, p) && StateAt(chunk, p, minSection).Some?
         else KnownBy(earlier, p)
       case EntityUpdate(q) =>
         if q == p && CachedBy(earlier, p) then RecordRun(map[], earlier)[p] >= 0 else KnownBy(earlier, p)
       case Change(q, state) =>
         if q == p then TrackedBy(earlier, p) && 0 <= state < 27866 else KnownBy(earlier, p)
       case Forget(c) => c != ChunkForBlock(p) && KnownBy(earlier, p)
       case Query(_) => KnownBy(earlier, p)
  }

  // The cache operations that the events perform.
  function OpsOf(events: seq<Event>): seq<CacheOp>
    decreases |events|, 1
  {
    if events == [] then []
    else
      var earlier := events[..|events| - 1];
      OpsOf(earlier)
      + match events[|events| - 1]
        case Load(chunk, minSection) => LoadOps(chunk, minSection, |chunk.entities|)
        case EntityUpdate(p) => [GetOp(p)]
        case Change(p, state) => [PutOp(p, state)]
        case Query(p) => if KnownBy(earlier, p) then [] else [GetOp(p)]
        case Forget(c) => [RemoveChunkOp(c)]
  }

  // ----- runs, one event at a time -------------------------------------------

  lemma {:induction false} RunConcat(t: Tracker, a: seq<Event>, b: seq<Event>)
    ensures Run(t, a + b) == Run(Run(t, a), b)
    ensures RunOps(t, a + b) == RunOps(t, a) + RunOps(Run(t, a), b)
    decreases |a|
  {
    hide Step, EventOps;
    if a == [] {
      assert a + b == b;
    } else {
      assert (a + b)[1..] == a[1..] + b;
      RunConcat(Step(t, a[0]), a[1..], b);
    }
  }

  lemma LastEvent(earlier: seq<Event>, event: Event)
    ensures Run(EMPTY, earlier + [event]) == Step(Run(EMPTY, earlier), event)
    ensures RunOps(EMPTY, earlier + [event]) == RunOps(EMPTY, earlier) + EventOps(Run(EMPTY, earlier), event)
    ensures RecordRun(map[], earlier + [event]) == RecordStep(RecordRun(map[], earlier), event)
  {
    hide Step, EventOps, RecordStep;
    RunConcat(EMPTY, earlier, [event]);
    RecordRunConcat(map[], earlier, [event]);
    assert [event][1..] == [];
    OneEvent(Run(EMPTY, earlier), event);
    OneRecord(RecordRun(map[], earlier), event);
  }

  lemma OneEvent(t: Tracker, event: Event)
    ensures Run(t, [event]) == Step(t, event) && RunOps(t, [event]) == EventOps(t, event)
  {
    hide Step, EventOps;
    assert [event][1..] == [];
  }

  lemma OneRecord(last: Record, event: Event)
    ensures RecordRun(last, [event]) == RecordStep(last, event)
  {
    hide RecordStep;
    assert [event][1..] == [];
  }

  // ----- what each event does to a position ------------------------------------

  // Loading a chunk tracks the positions of its block entities and no others.
  lemma {:induction false} LoadTracks(t: Tracker, chunk: Chunk, minSection: int, n: nat, p: BlockPos)
    requires chunk.pos in t.chunks && n <= |chunk.entities| && p !in t.states
    ensures var states := LoadEntities(t, chunk, minSection, n).states;
            && (p in states <==> Brings(chunk, n, p))
            && (p in states ==>
                  states[p] == match StateAt(chunk, p, minSection) case None => UNKNOWN_STATE case Some(state) => state)
  {
    if n > 0 {
      hide StateAt, EntityPosition, Put;
      LoadTracks(t, chunk, minSection, n - 1, p);
    }
  }

  lemma LoadExact(t: Tracker, last: Record, chunk: Chunk, minSection: int, p: BlockPos)
    requires Consistent(t, last) && WellFormed(Load(chunk, minSection))
    ensures var after := LoadChunk(t, chunk, minSection);
            if chunk.pos == ChunkForBlock(p) then
              && (p in after.states <==> Brings(chunk, |chunk.entities|, p))
              && (Known(after, p) <==> Brings(chunk, |chunk.entities|, p) && StateAt(chunk, p, minSection).Some?)
            else (p in after.states <==> p in t.states) && (Known(after, p) <==> Known(t, p))
  {
    ClearChunkConsistent(t, last, chunk.pos);
    var start := StartChunk(t, chunk.pos);
    if chunk.pos == ChunkForBlock(p) {
      assert p !in start.states;
      StateIsValid(chunk, p, minSection);
      hide LoadEntities, StateAt, Brings, ChunkForBlock, ClearChunk;
      LoadTracks(start, chunk, minSection, |chunk.entities|, p);
    } else {
      StartElsewhere(t, last, chunk.pos, p);
      hide LoadEntities, ChunkForBlock;
      LoadElsewhere(start, chunk, minSection, |chunk.entities|, p);
    }
  }

  // ----- where a load tracks its block entities --------------------------------

  // A load brings a block entity to a position of its chunk if and only if one
  // has the position's column and height.
  lemma BringsExact(chunk: Chunk, n: nat, p: BlockPos)
    requires n <= |chunk.entities| && chunk.pos == ChunkPos(p.x / 16, p.z / 16)
    requires forall e | e in chunk.entities :: 0 <= e.x < 16 && 0 <= e.z < 16
    ensures Brings(chunk, n, p)
            <==> exists i | 0 <= i < n ::
                   chunk.entities[i].x == p.x % 16 && chunk.entities[i].y == p.y && chunk.entities[i].z == p.z % 16
  {
    forall i | 0 <= i < n
      ensures EntityPosition(chunk.pos, chunk.entities[i]) == Some(p)
              <==> chunk.entities[i].x == p.x % 16 && chunk.entities[i].y == p.y && chunk.entities[i].z == p.z % 16
    {
      assert chunk.entities[i] in chunk.entities;
      EntityPositionExact(chunk.pos, chunk.entities[i]);
      ColumnExact(chunk.pos.x, chunk.entities[i].x, p.x);
      ColumnExact(chunk.pos.z, chunk.entities[i].z, p.z);
    }
    hide EntityPosition;
  }

  lemma ColumnExact(chunkX: int, local: int, x: int)
    requires chunkX == x / 16
    ensures 16 * chunkX + local == x <==> local == x % 16
  {}

  // After a load, a position of its chunk is tracked if and only if a block
  // entity has its column and height, with the state of the block there or as
  // unknown.
  lemma LoadedExactly(t: Tracker, last: Record, chunk: Chunk, minSection: int, p: BlockPos)
    requires Consistent(t, last) && WellFormed(Load(chunk, minSection)) && chunk.pos == ChunkPos(p.x / 16, p.z / 16)
    ensures var states := LoadChunk(t, chunk, minSection).states;
            && (p in states
                <==> exists i | 0 <= i < |chunk.entities| ::
                       chunk.entities[i].x == p.x % 16 && chunk.entities[i].y == p.y && chunk.entities[i].z == p.z % 16)
            && (p in states ==>
                  states[p] == match StateAt(chunk, p, minSection) case None => -1 case Some(state) => state)
  {
    ChunkForBlockExact(p);
    BringsExact(chunk, |chunk.entities|, p);
    ClearChunkConsistent(t, last, chunk.pos);
    var start := StartChunk(t, chunk.pos);
    assert p !in start.states;
    hide LoadEntities, StateAt, Brings, ChunkForBlock, ClearChunk;
    LoadTracks(start, chunk, minSection, |chunk.entities|, p);
  }

  // Every block entity whose world coordinates fit into 32 bits is tracked
  // there; the others are the ones that a load drops.
  lemma FittingEntityIsTracked(t: Tracker, last: Record, chunk: Chunk, minSection: int, i: nat)
    requires Consistent(t, last) && WellFormed(Load(chunk, minSection)) && i < |chunk.entities|
    ensures var e := chunk.entities[i];
            var x, z := 16 * chunk.pos.x + e.x, 16 * chunk.pos.z + e.z;
            var fits := -0x8000_0000 <= x < 0x8000_0000 && -0x8000_0000 <= e.y < 0x8000_0000
                        && -0x8000_0000 <= z < 0x8000_0000;
            && (fits ==> BlockPos(x, e.y, z) in LoadChunk(t, chunk, minSection).states)
            && (!fits ==> EntityPosition(chunk.pos, e).None?)
  {
    var e := chunk.entities[i];
    assert e in chunk.entities;
    EntityPositionExact(chunk.pos, e);
    if EntityPosition(chunk.pos, e).Some? {
      var p := EntityPosition(chunk.pos, e).value;
      EntityInItsChunk(chunk.pos, e);
      ChunkForBlockExact(p);
      hide EntityPosition, ChunkForBlock, LoadChunk;
      LoadedExactly(t, last, chunk, minSection, p);
      ColumnExact(chunk.pos.x, e.x, p.x);
      ColumnExact(chunk.pos.z, e.z, p.z);
    }
  }

  lemma StateIsValid(chunk: Chunk, p: BlockPos, minSection: int)
    ensures StateAt(chunk, p, minSection).Some? ==> StateAt(chunk, p, minSection).value >= 0
  {}

  lemma StartElsewhere(t: Tracker, last: Record, c: ChunkPos, p: BlockPos)
    requires Consistent(t, last) && c != ChunkForBlock(p)
    ensures var start := StartChunk(t, c);
            (p in start.states <==> p in t.states) && (p in t.states ==> start.states[p] == t.states[p])
    ensures (p in ClearChunk(t, c).states <==> p in t.states)
            && (p in t.states ==> ClearChunk(t, c).states[p] == t.states[p])
  {
    hide ChunkForBlock;
  }

  // What the events before an event say, of the state they lead to.
  ghost predicate Tells(events: seq<Event>, t: Tracker, p: BlockPos) {
    (TrackedBy(events, p) <==> p in t.states) && (KnownBy(events, p) <==> Known(t, p))
  }

  lemma EventTells(earlier: seq<Event>, t: Tracker, event: Event, p: BlockPos)
    requires t == Run(EMPTY, earlier) && Consistent(t, RecordRun(map[], earlier)) && WellFormed(event)
    requires Tells(earlier, t, p) && OpsOf(earlier) == RunOps(EMPTY, earlier)
    ensures Tells(earlier + [event], Step(t, event), p)
  {
    hide Tells, Run, RecordRun, RunOps, OpsOf, Consistent, WellFormed, Step;
    match event
    case Load(_, _) => LoadTells(earlier, t, event, p);
    case EntityUpdate(_) => UpdateTells(earlier, t, event, p);
    case Change(_, _) => ChangeTells(earlier, t, event, p);
    case Query(_) => ChangeTells(earlier, t, event, p);
    case Forget(_) => ForgetTells(earlier, t, event, p);
  }

  lemma LoadTells(earlier: seq<Event>, t: Tracker, event: Event, p: BlockPos)
    requires event.Load? && Consistent(t, RecordRun(map[], earlier)) && WellFormed(event) && Tells(earlier, t, p)
    ensures Tells(earlier + [event], Step(t, event), p)
  {
    hide StateAt, LoadChunk, ChunkForBlock, RecordRun, Brings, Known, Consistent;
    var events := earlier + [event];
    assert events[..|events| - 1] == earlier && events[|events| - 1] == event;
    LoadExact(t, RecordRun(map[], earlier), event.chunk, event.minSection, p);
  }

  lemma UpdateTells(earlier: seq<Event>, t: Tracker, event: Event, p: BlockPos)
    requires event.EntityUpdate? && t == Run(EMPTY, earlier) && Tells(earlier, t, p)
    requires OpsOf(earlier) == RunOps(EMPTY, earlier)
    ensures Tells(earlier + [event], Step(t, event), p)
  {
    hide Overtaken, Run, RecordRun, RunOps, OpsOf, RememberPosition, Known;
    var events := earlier + [event];
    assert events[..|events| - 1] == earlier && events[|events| - 1] == event;
    CacheExact(earlier, p);
    UpdateExact(t, event.pos, p);
    assert CachedBy(earlier, p) <==> StateOf(t.cache, p).Some?;
  }

  // Changes, and lookups, which change nothing here.
  lemma ChangeTells(earlier: seq<Event>, t: Tracker, event: Event, p: BlockPos)
    requires (event.Change? || event.Query?) && Tells(earlier, t, p)
    ensures Tells(earlier + [event], Step(t, event), p)
  {
    hide ChangeState, CachedState, Known, RecordRun;
    var events := earlier + [event];
    assert events[..|events| - 1] == earlier && events[|events| - 1] == event;
    match event
    case Change(q, state) => ChangeExact(t, q, state, p);
    case Query(q) => QueryExact(t, q, p);
  }

  lemma ChangeExact(t: Tracker, q: BlockPos, state: Int32, p: BlockPos)
    ensures var after := ChangeState(t, q, state);
            && (p in after.states <==> p in t.states)
            && (Known(after, p) <==> if q == p then p in t.states && 0 <= state < 27866 else Known(t, p))
  {
    hide Put;
  }

  lemma QueryExact(t: Tracker, q: BlockPos, p: BlockPos)
    ensures var after := CachedState(t, q).1;
            (p in after.states <==> p in t.states) && (Known(after, p) <==> Known(t, p))
  {
    hide Get;
  }

  lemma ForgetTells(earlier: seq<Event>, t: Tracker, event: Event, p: BlockPos)
    requires event.Forget? && Consistent(t, RecordRun(map[], earlier)) && Tells(earlier, t, p)
    ensures Tells(earlier + [event], Step(t, event), p)
  {
    hide ChunkForBlock, RecordRun, OutsideChunk, Consistent, ClearChunk;
    var events, last := earlier + [event], RecordRun(map[], earlier);
    assert events[..|events| - 1] == earlier && events[|events| - 1] == event;
    ClearChunkConsistent(t, last, event.chunkPos);
    if event.chunkPos != ChunkForBlock(p) { StartElsewhere(t, last, event.chunkPos, p); }
  }

  lemma UpdateExact(t: Tracker, q: BlockPos, p: BlockPos)
    ensures var after := RememberPosition(t, q);
            && (p in after.states <==> q == p || p in t.states)
            && (Known(after, p) <==>
                  if q == p && StateOf(t.cache, p).Some? then StateOf(t.cache, p).value >= 0 else Known(t, p))
  {
    hide Touch, ChunkForBlock, StateOf;
  }

  // ----- the main results ----------------------------------------------------

  // After every run, what the events say of a position is what the tracker
  // holds, and the cache operations are those that the events perform.
  lemma {:induction false} HistoryExact(events: seq<Event>)
    requires forall e | e in events :: WellFormed(e)
    ensures forall p :: Tells(events, Run(EMPTY, events), p)
    ensures OpsOf(events) == RunOps(EMPTY, events)
    decreases |events|
  {
    if events != [] {
      hide Tells, WellFormed, Run, RunOps, Step;
      var earlier, event := events[..|events| - 1], events[|events| - 1];
      assert events == earlier + [event];
      HistoryExact(earlier);
      LastEvent(earlier, event);
      RunConsistent(EMPTY, map[], earlier);
      forall p ensures Tells(events, Run(EMPTY, events), p) {
        assert event in events;
        EventTells(earlier, Run(EMPTY, earlier), event, p);
      }
      OpsTold(earlier, event);
    }
  }

  lemma OpsTold(earlier: seq<Event>, event: Event)
    requires forall p :: Tells(earlier, Run(EMPTY, earlier), p)
    requires OpsOf(earlier) == RunOps(EMPTY, earlier)
    ensures OpsOf(earlier + [event]) == RunOps(EMPTY, earlier) + EventOps(Run(EMPTY, earlier), event)
  {
    hide Run, RunOps, TrackedBy, KnownBy, Known;
    var events := earlier + [event];
    assert events[..|events| - 1] == earlier && events[|events| - 1] == event;
    if event.Query? { assert Tells(earlier, Run(EMPTY, earlier), event.pos); }
  }

  // A lookup after any run answers if and only if the state recorded last is
  // valid, and is known for a block entity there or was not pushed out of the
  // cache. All of it is said of the events alone.
  lemma LookupFromHistory(events: seq<Event>, p: BlockPos)
    requires forall e | e in events :: WellFormed(e)
    ensures var last := RecordRun(map[], events);
            CachedState(Run(EMPTY, events), p).0
            == if p in last && last[p] >= 0 && (KnownBy(events, p) || CachedBy(events, p)) then Some(last[p]) else None
  {
    hide Overtaken, OpsOf, RunOps, Run, RecordRun, KnownBy, TrackedBy, Known, CachedState;
    HistoryExact(events);
    LookupExact(events, p);
    assert Tells(events, Run(EMPTY, events), p);
  }
}
