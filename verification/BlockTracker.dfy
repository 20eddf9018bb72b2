// The block-entity part of a translated session, updated in place.
module BlockTrackerClass {
  import opened Widths
  import opened JavaChunks
  import opened RecentStates
  import opened StateCache
  import opened BlockTracking

  class BlockTracker {
    const blockStates: BlockStateCache
    var blockEntityStates: map<BlockPos, Int32>
    var blockEntityChunks: map<ChunkPos, set<BlockPos>>

    ghost predicate Valid()
      reads this, blockStates
    {
      blockStates.Valid()
    }

    ghost function State(): Tracker
      reads this, blockStates, blockStates.order
    {
      Tracker(blockStates.View(), blockEntityStates, blockEntityChunks)
    }

    constructor ()
      ensures Valid() && fresh(blockStates) && blockStates.order == []
      ensures State() == EMPTY
    {
      blockStates := new BlockStateCache();
      blockEntityStates := map[];
      blockEntityChunks := map[];
    }

    method ClearBlockEntityChunk(chunkPosition: ChunkPos)
      modifies this
      ensures State() == ClearChunk(old(State()), chunkPosition)
    {
      if chunkPosition !in blockEntityChunks { return; }
      var positions := blockEntityChunks[chunkPosition];
      ghost var before := blockEntityStates;
      var todo := positions;
      while todo != {}
        invariant todo <= positions
        invariant blockEntityStates == before - (positions - todo)
        invariant blockEntityChunks == old(blockEntityChunks)
        decreases |todo|
      {
        ghost var member := SomeMember(todo);
        var position :| position in todo;
        todo := todo - {position};
        blockEntityStates := blockEntityStates - {position};
      }
      blockEntityChunks := blockEntityChunks - {chunkPosition};
      blockEntityChunks := blockEntityChunks[chunkPosition := {}];
      assert blockEntityChunks == old(blockEntityChunks)[chunkPosition := {}];
    }

    method RecordEntity(chunk: Chunk, minSection: int, entity: BlockEntity)
      requires Valid() && chunk.pos in blockEntityChunks
      modifies this, blockStates, blockStates.Elements()
      ensures Valid() && chunk.pos in blockEntityChunks
      ensures State() == LoadEntity(old(State()), chunk, minSection, entity)
      ensures fresh(blockStates.Elements() - old(blockStates.Elements()))
    {
      hide StateAt, EntityPosition, Put;
      var position := EntityPosition(chunk.pos, entity);
      if position.None? { return; }
      var state := StateAt(chunk, position.value, minSection);
      blockEntityStates := blockEntityStates[position.value := if state.Some? then state.value else UNKNOWN_STATE];
      if state.Some? {
        blockStates.Put(position.value, state.value);
      }
      blockEntityChunks := blockEntityChunks[chunk.pos := blockEntityChunks[chunk.pos] + {position.value}];
    }

    method RememberChunkBlockEntityStates(chunk: Chunk, minSection: int)
      requires Valid()
      modifies this, blockStates, blockStates.Elements()
      ensures Valid()
      ensures State() == LoadChunk(old(State()), chunk, minSection)
      ensures fresh(blockStates.Elements() - old(blockStates.Elements()))
    {
      hide LoadEntity;
      ClearBlockEntityChunk(chunk.pos);
      blockEntityChunks := blockEntityChunks[chunk.pos := {}];
      ghost var start := State();
      for i := 0 to |chunk.entities|
        invariant Valid() && chunk.pos in blockEntityChunks
        invariant State() == LoadEntities(start, chunk, minSection, i)
        invariant fresh(blockStates.Elements() - old(blockStates.Elements()))
      {
        RecordEntity(chunk, minSection, chunk.entities[i]);
      }
    }

    method RememberBlockEntityPosition(position: BlockPos)
      requires Valid()
      modifies this, blockStates
      ensures Valid()
      ensures State() == RememberPosition(old(State()), position)
      ensures blockStates.Elements() <= old(blockStates.Elements())
    {
      hide Get, ChunkForBlock;
      var state := blockStates.Get(position);
      if position !in blockEntityStates || state.Some? {
        blockEntityStates := blockEntityStates[position := if state.Some? then state.value else UNKNOWN_STATE];
      }
      var chunkPosition := ChunkForBlock(position);
      if chunkPosition !in blockEntityChunks {
        blockEntityChunks := blockEntityChunks[chunkPosition := {}];
      }
      blockEntityChunks := blockEntityChunks[chunkPosition := blockEntityChunks[chunkPosition] + {position}];
    }

    method RememberBlockStateChange(position: BlockPos, stateID: Int32)
      requires Valid()
      modifies this, blockStates, blockStates.Elements()
      ensures Valid()
      ensures State() == ChangeState(old(State()), position, stateID)
      ensures fresh(blockStates.Elements() - old(blockStates.Elements()))
    {
      blockStates.Put(position, stateID);
      if position in blockEntityStates {
        if 0 <= stateID < BLOCK_STATE_COUNT {
          blockEntityStates := blockEntityStates[position := stateID];
        } else {
          blockEntityStates := blockEntityStates[position := UNKNOWN_STATE];
        }
      }
    }

    method CachedBlockEntityState(position: BlockPos) returns (state: Option<Int32>)
      requires Valid()
      modifies blockStates
      ensures Valid()
      ensures (state, State()) == CachedState(old(State()), position)
      ensures blockStates.Elements() <= old(blockStates.Elements())
    {
      if position in blockEntityStates && blockEntityStates[position] >= 0 {
        return Some(blockEntityStates[position]);
      }
      state := blockStates.Get(position);
      if state.Some? && state.value < 0 { state := None; }
    }

    method ForgetBlockEntityChunk(chunkPosition: ChunkPos)
      requires Valid()
      modifies this, blockStates
      ensures Valid()
      ensures State() == ForgetChunk(old(State()), chunkPosition)
      ensures blockStates.Elements() <= old(blockStates.Elements())
    {
      ClearBlockEntityChunk(chunkPosition);
      blockStates.RemoveChunk(chunkPosition);
    }
  }
}
