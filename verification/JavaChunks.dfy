// Decoded Java chunks and the block state stored at a world position.
module JavaChunks {
  import opened Widths

  const SECTION_SIZE := 4096
  const BIOME_SECTION_SIZE := 64
  const MAX_SECTIONS := 32
  const BLOCK_STATE_COUNT := 27866

  datatype BlockPos = BlockPos(x: Int32, y: Int32, z: Int32)

  datatype ChunkPos = ChunkPos(x: Int32, z: Int32)

  // The count is the server's; blocks are in Java's YZX order. A section may
  // come without blocks or biomes.
  datatype Section = Section(blockCount: Int16, blocks: seq<Int32>, biomes: seq<Int32>)

  // A block entity's chunk-local column, its height, and what it is: its type
  // and NBT data, opaque here.
  datatype BlockEntity = BlockEntity(x: int, y: int, z: int, content: nat)

  datatype Chunk = Chunk(pos: ChunkPos, sections: seq<Section>, entities: seq<BlockEntity>)

  // ----- floor arithmetic on truncating operators ----------------------------

  function TruncDiv(a: int, b: int): int
    requires b > 0
  {
    if a >= 0 then a / b else -(-a / b)
  }

  function TruncMod(a: int, b: int): int
    requires b > 0
  {
    a - TruncDiv(a, b) * b
  }

  function FloorDiv16(value: Int32): (r: int)
    ensures r == value / 16
    ensures 16 * r <= value < 16 * r + 16
  {
    var quotient := TruncDiv(value, 16);
    if value < 0 && TruncMod(value, 16) != 0 then quotient - 1 else quotient
  }

  function FloorMod16(value: Int32): (r: int)
    ensures r == value % 16
    ensures 0 <= r < 16
  {
    var modulo := TruncMod(value, 16);
    if modulo < 0 then modulo + 16 else modulo
  }

  function ChunkForBlock(p: BlockPos): ChunkPos {
    ChunkPos(FloorDiv16(p.x), FloorDiv16(p.z))
  }

  // ----- block orders ------------------------------------------------------

  function YzxIndex(x: nat, y: nat, z: nat): (i: nat)
    requires x < 16 && y < 16 && z < 16
    ensures i < SECTION_SIZE
  {
    256 * y + 16 * z + x
  }

  function XzyIndex(x: nat, y: nat, z: nat): (i: nat)
    requires x < 16 && y < 16 && z < 16
    ensures i < SECTION_SIZE
  {
    256 * x + 16 * z + y
  }

  // OR-ing three four-bit fields, as the indices are computed.
  function OrThree(high: nat, middle: nat, low: nat): nat {
    BitOr(BitOr(high * 0x100, middle * 0x10), low)
  }

  lemma OrThreeIsSum(high: nat, middle: nat, low: nat)
    requires middle < 16 && low < 16
    ensures OrThree(high, middle, low) == 256 * high + 16 * middle + low
  {
    hide BitOr, Pow2;
    Pow2Values();
    OrCommutes(high * 0x100, middle * 0x10);
    OrOfDisjoint(middle * 0x10, high, 8);
    OrCommutes(high * 0x100 + middle * 0x10, low);
    OrOfDisjoint(low, high * 0x10 + middle, 4);
    assert (high * 0x10 + middle) * 0x10 == high * 0x100 + middle * 0x10;
  }

  // ----- the state at a position -------------------------------------------

  function StateAt(chunk: Chunk, p: BlockPos, minSection: int): Option<Int32> {
    var localX := p.x - chunk.pos.x * 16;
    var localZ := p.z - chunk.pos.z * 16;
    if localX < 0 || localX >= 16 || localZ < 0 || localZ >= 16 then None
    else
      var sectionIndex := FloorDiv16(p.y) - minSection;
      if sectionIndex < 0 || sectionIndex >= |chunk.sections| then None
      else
        var blocks := chunk.sections[sectionIndex].blocks;
        if |blocks| != SECTION_SIZE then None
        else
          OrThreeIsSum(FloorMod16(p.y), localZ, localX);
          var state := blocks[OrThree(FloorMod16(p.y), localZ, localX)];
          if state < 0 || state >= BLOCK_STATE_COUNT then None else Some(state)
  }

  // The world position of a block entity, if it fits the coordinates' width.
  function EntityPosition(chunk: ChunkPos, entity: BlockEntity): Option<BlockPos> {
    var x, z := chunk.x * 16 + entity.x, chunk.z * 16 + entity.z;
    if IsInt32(x) && IsInt32(entity.y) && IsInt32(z) then Some(BlockPos(x, entity.y, z)) else None
  }

  predicate IsInt32(n: int) {
    -0x8000_0000 <= n < 0x8000_0000
  }

  // A block entity lies in the chunk it came with.
  lemma EntityInItsChunk(chunk: ChunkPos, entity: BlockEntity)
    requires 0 <= entity.x < 16 && 0 <= entity.z < 16
    ensures EntityPosition(chunk, entity).Some? ==> ChunkForBlock(EntityPosition(chunk, entity).value) == chunk
  {}

  // ----- what the lookups mean -----------------------------------------------

  // A lookup gives the block at the position's own coordinates in the section
  // around it, if the chunk is the position's, the section has blocks and the
  // state is one of Java's 27866.
  lemma StateAtExact(chunk: Chunk, p: BlockPos, minSection: int)
    ensures var k := p.y / 16 - minSection;
            StateAt(chunk, p, minSection)
            == if p.x / 16 != chunk.pos.x || p.z / 16 != chunk.pos.z || k < 0 || k >= |chunk.sections|
                  || |chunk.sections[k].blocks| != 4096
               then None
               else
                 var state := chunk.sections[k].blocks[256 * (p.y % 16) + 16 * (p.z % 16) + p.x % 16];
                 if 0 <= state < 27866 then Some(state) else None
  {
    var localX, localZ := p.x - chunk.pos.x * 16, p.z - chunk.pos.z * 16;
    LocalColumn(p.x, chunk.pos.x);
    LocalColumn(p.z, chunk.pos.z);
    if 0 <= localX < 16 && 0 <= localZ < 16 {
      OrThreeIsSum(FloorMod16(p.y), localZ, localX);
    }
    hide OrThree;
  }

  // The chunk of a position, at negative coordinates too.
  lemma ChunkForBlockExact(p: BlockPos)
    ensures ChunkForBlock(p) == ChunkPos(p.x / 16, p.z / 16)
  {}

  lemma LocalColumn(x: int, chunkX: int)
    ensures 0 <= x - chunkX * 16 < 16 <==> x / 16 == chunkX
    ensures x / 16 == chunkX ==> x - chunkX * 16 == x % 16
  {}

  // A block entity is at its local column in the chunk and at its own height;
  // it has no position exactly when a coordinate does not fit into 32 bits.
  lemma EntityPositionExact(chunk: ChunkPos, entity: BlockEntity)
    ensures var x, y, z := 16 * chunk.x + entity.x, entity.y, 16 * chunk.z + entity.z;
            var fits := -0x8000_0000 <= x <= 0x7fff_ffff && -0x8000_0000 <= y <= 0x7fff_ffff
                        && -0x8000_0000 <= z <= 0x7fff_ffff;
            EntityPosition(chunk, entity) == if fits then Some(BlockPos(x, y, z)) else None
  {}
}
