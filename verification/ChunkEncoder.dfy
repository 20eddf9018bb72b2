// The Bedrock chunk payload: sub-chunks in XZY order, one biome storage per
// sub-chunk, the border marker and the block entities.
module ChunkEncoder {
  import opened Widths
  import opened VarInts
  import opened PalettedStorage
  import opened JavaChunks

  // ----- section contents --------------------------------------------------

  // The runtime ID of a Java state; states outside the table are shown as air.
  function BlockImage(table: seq<UInt32>, state: Int32): UInt32
    requires |table| > 0
  {
    if 0 <= state < |table| then table[state] else table[0]
  }

  function BiomeImage(table: seq<UInt32>, biome: Int32): UInt32 {
    if 0 <= biome < |table| then table[biome] else 0
  }

  // The Java index of the block at a Bedrock index.
  function YzxOfXzy(i: nat): (j: nat)
    requires i < SECTION_SIZE
    ensures j < SECTION_SIZE
  {
    YzxIndex(i / 256, i % 16, i / 16 % 16)
  }

  function SectionValues(table: seq<UInt32>, section: Section): (r: seq<UInt32>)
    requires |table| > 0
    ensures |r| == SECTION_SIZE
  {
    if |section.blocks| == SECTION_SIZE then
      seq(SECTION_SIZE, i requires 0 <= i < SECTION_SIZE => BlockImage(table, section.blocks[YzxOfXzy(i)]))
    else Constant(table[0], SECTION_SIZE)
  }

  // The Java biome cell of the block at a Bedrock index.
  function CellOfXzy(i: nat): (j: nat)
    requires i < SECTION_SIZE
    ensures j < BIOME_SECTION_SIZE
  {
    CellIndex(i / 256 / 4, i % 16 / 4, i / 16 % 16 / 4)
  }

  function CellIndex(x: nat, y: nat, z: nat): (j: nat)
    requires x < 4 && y < 4 && z < 4
    ensures j < BIOME_SECTION_SIZE
  {
    16 * y + 4 * z + x
  }

  // The last of `count` entries that is written to a cell; entries past the
  // 64th start over with the first cell.
  function LastForCell(cell: nat, count: nat): (i: nat)
    requires cell < BIOME_SECTION_SIZE && cell < count
    ensures i < count && i % BIOME_SECTION_SIZE == cell && count <= i + BIOME_SECTION_SIZE
  {
    cell + BIOME_SECTION_SIZE * ((count - 1 - cell) / BIOME_SECTION_SIZE)
  }

  function CellBiome(biomeTable: seq<UInt32>, biomes: seq<Int32>, cell: nat): UInt32
    requires cell < BIOME_SECTION_SIZE
  {
    if cell < |biomes| then BiomeImage(biomeTable, biomes[LastForCell(cell, |biomes|)]) else 0
  }

  lemma CellBiomeOfFullList(biomeTable: seq<UInt32>, biomes: seq<Int32>, cell: nat)
    requires |biomes| == BIOME_SECTION_SIZE && cell < BIOME_SECTION_SIZE
    ensures CellBiome(biomeTable, biomes, cell) == BiomeImage(biomeTable, biomes[cell])
  {}

  // One more entry changes its own cell only.
  lemma CellBiomeStep(biomeTable: seq<UInt32>, biomes: seq<Int32>, i: nat, cell: nat)
    requires i < |biomes| && cell < BIOME_SECTION_SIZE
    ensures CellBiome(biomeTable, biomes[..i + 1], cell)
            == if cell == i % BIOME_SECTION_SIZE then BiomeImage(biomeTable, biomes[i])
               else CellBiome(biomeTable, biomes[..i], cell)
  {
    hide BiomeImage;
    if cell <= i { LastForCellStep(cell, i); }
  }

  lemma LastForCellStep(cell: nat, i: nat)
    requires cell < BIOME_SECTION_SIZE && cell <= i
    ensures cell == i % BIOME_SECTION_SIZE ==> LastForCell(cell, i + 1) == i
    ensures cell != i % BIOME_SECTION_SIZE ==> cell < i && LastForCell(cell, i + 1) == LastForCell(cell, i)
  {}

  function ExpandedBiomes(biomeTable: seq<UInt32>, biomes: seq<Int32>): (r: seq<UInt32>)
    ensures |r| == SECTION_SIZE
  {
    seq(SECTION_SIZE, i requires 0 <= i < SECTION_SIZE => CellBiome(biomeTable, biomes, CellOfXzy(i)))
  }

  // The blocks at local coordinates.
  lemma SectionValuesAt(table: seq<UInt32>, section: Section, x: nat, y: nat, z: nat)
    requires |table| > 0 && x < 16 && y < 16 && z < 16
    ensures SectionValues(table, section)[XzyIndex(x, y, z)]
            == if |section.blocks| == SECTION_SIZE then BlockImage(table, section.blocks[YzxIndex(x, y, z)])
               else table[0]
  {
    SplitXzy(x, y, z);
  }

  // The Java biome cell around a block.
  function CellAround(x: nat, y: nat, z: nat): (j: nat)
    requires x < 16 && y < 16 && z < 16
    ensures j < BIOME_SECTION_SIZE
  {
    CellIndex(x / 4, y / 4, z / 4)
  }

  // Every entry of the expanded storage holds the biome of the 4x4x4 Java cell
  // around it.
  lemma ExpandedBiomesAt(biomeTable: seq<UInt32>, biomes: seq<Int32>, x: nat, y: nat, z: nat)
    requires x < 16 && y < 16 && z < 16
    ensures ExpandedBiomes(biomeTable, biomes)[XzyIndex(x, y, z)]
            == CellBiome(biomeTable, biomes, CellAround(x, y, z))
  {
    hide CellBiome, CellOfXzy, CellAround, XzyIndex;
    CellOfXyz(x, y, z);
  }

  lemma CellOfXyz(x: nat, y: nat, z: nat)
    requires x < 16 && y < 16 && z < 16
    ensures CellOfXzy(XzyIndex(x, y, z)) == CellAround(x, y, z)
  {
    SplitXzy(x, y, z);
    hide XzyIndex;
  }

  lemma CellParts(cell: nat, x: nat, y: nat, z: nat)
    requires x < 4 && y < 4 && z < 4
    ensures CellIndex(x, y, z) == cell % BIOME_SECTION_SIZE
            <==> x == cell % 4 && y == cell / 16 % 4 && z == cell / 4 % 4
  {
    var q, low := cell / 64, cell % 64;
    assert 0 <= low < 64 && cell == 64 * q + low;
    DivModUnique(cell, 16, 4 * q + low / 16, low % 16);
    DivModUnique(4 * q + low / 16, 4, q, low / 16);
    DivModUnique(cell, 4, 16 * q + low / 4, low % 4);
    DivModUnique(16 * q + low / 4, 4, 4 * q + low / 16, low / 4 % 4);
    SmallCellParts(low, x, y, z);
  }

  lemma SmallCellParts(cell: nat, x: nat, y: nat, z: nat)
    requires cell < BIOME_SECTION_SIZE && x < 4 && y < 4 && z < 4
    ensures CellIndex(x, y, z) == cell <==> x == cell % 4 && y == cell / 16 && z == cell / 4 % 4
  {}

  // The three base-16 digits of a block index.
  lemma HexDigits(n: nat, high: nat, middle: nat, low: nat)
    requires n == 256 * high + 16 * middle + low && high < 16 && middle < 16 && low < 16
    ensures n / 256 == high && n / 16 % 16 == middle && n % 16 == low && n / 256 % 16 == high
  {
    DivModUnique(n, 256, high, 16 * middle + low);
    DivModUnique(n, 16, 16 * high + middle, low);
    DivModUnique(16 * high + middle, 16, high, middle);
    DivModUnique(high, 16, 0, high);
  }

  lemma SplitXzy(x: nat, y: nat, z: nat)
    requires x < 16 && y < 16 && z < 16
    ensures var i := XzyIndex(x, y, z); i / 256 == x && i % 16 == y && i / 16 % 16 == z
  {
    HexDigits(256 * x + 16 * z + y, x, z, y);
  }

  // ----- the expansion loops -----------------------------------------------

  method ExpandJavaBiomes(values: seq<Int32>, biomeTable: seq<UInt32>) returns (expanded: array<UInt32>)
    ensures fresh(expanded) && expanded[..] == ExpandedBiomes(biomeTable, values)
  {
    hide XzyIndex, CellIndex, CellOfXzy, CellBiome;
    expanded := new UInt32[SECTION_SIZE](_ => 0);
    NoBiomeYet(biomeTable);
    for i := 0 to |values|
      invariant expanded.Length == SECTION_SIZE && fresh(expanded)
      invariant forall x, y, z | 0 <= x < 16 && 0 <= y < 16 && 0 <= z < 16 ::
                  expanded[XzyIndex(x, y, z)] == CellBiome(biomeTable, values[..i], CellAround(x, y, z))
    {
      var bedrockID: UInt32 := 0;
      if 0 <= values[i] < |biomeTable| {
        bedrockID := biomeTable[values[i]];
      }
      var x, y, z := i % 4, i / 16 % 4, i / 4 % 4;
      forall bx, by', bz | 0 <= bx < 16 && 0 <= by' < 16 && 0 <= bz < 16
        ensures CellBiome(biomeTable, values[..i + 1], CellAround(bx, by', bz))
                == if bx / 4 == x && by' / 4 == y && bz / 4 == z then bedrockID
                   else CellBiome(biomeTable, values[..i], CellAround(bx, by', bz))
      {
        CellParts(i, bx / 4, by' / 4, bz / 4);
        CellBiomeStep(biomeTable, values, i, CellAround(bx, by', bz));
      }
      FillCell(expanded, x, y, z, bedrockID);
    }
    assert values[..|values|] == values;
    forall k | 0 <= k < SECTION_SIZE ensures expanded[k] == ExpandedBiomes(biomeTable, values)[k] {
      JoinXzy(k);
      CellOfXyz(k / 256, k % 16, k / 16 % 16);
    }
  }

  lemma NoBiomeYet(biomeTable: seq<UInt32>)
    ensures forall cell: nat | cell < BIOME_SECTION_SIZE :: CellBiome(biomeTable, [], cell) == 0
  {}

  lemma JoinXzy(k: nat)
    requires k < SECTION_SIZE
    ensures k == XzyIndex(k / 256, k % 16, k / 16 % 16)
  {}

  method FillCell(expanded: array<UInt32>, x: nat, y: nat, z: nat, id: UInt32)
    requires expanded.Length == SECTION_SIZE && x < 4 && y < 4 && z < 4
    modifies expanded
    ensures forall bx, by', bz | 0 <= bx < 16 && 0 <= by' < 16 && 0 <= bz < 16 ::
              expanded[XzyIndex(bx, by', bz)]
              == if bx / 4 == x && by' / 4 == y && bz / 4 == z then id else old(expanded[XzyIndex(bx, by', bz)])
  {
    for blockX := 4 * x to 4 * x + 4
      invariant forall bx, by', bz | 0 <= bx < 16 && 0 <= by' < 16 && 0 <= bz < 16 ::
        expanded[XzyIndex(bx, by', bz)]
        == if bx / 4 == x && bx < blockX && by' / 4 == y && bz / 4 == z then id
           else old(expanded[XzyIndex(bx, by', bz)])
    {
      for blockZ := 4 * z to 4 * z + 4
        invariant forall bx, by', bz | 0 <= bx < 16 && 0 <= by' < 16 && 0 <= bz < 16 ::
          expanded[XzyIndex(bx, by', bz)]
          == if bx / 4 == x && (bx < blockX || (bx == blockX && bz < blockZ)) && by' / 4 == y && bz / 4 == z
             then id else old(expanded[XzyIndex(bx, by', bz)])
      {
        for blockY := 4 * y to 4 * y + 4
          invariant forall bx, by', bz | 0 <= bx < 16 && 0 <= by' < 16 && 0 <= bz < 16 ::
            expanded[XzyIndex(bx, by', bz)]
            == if bx / 4 == x && by' / 4 == y && bz / 4 == z
                  && (bx < blockX || (bx == blockX && (bz < blockZ || (bz == blockZ && by' < blockY))))
               then id else old(expanded[XzyIndex(bx, by', bz)])
        {
          OrThreeIsSum(blockX, blockZ, blockY);
          expanded[OrThree(blockX, blockZ, blockY)] := id;
          assert OrThree(blockX, blockZ, blockY) == XzyIndex(blockX, blockY, blockZ);
        }
      }
    }
  }

  // ----- the payload -------------------------------------------------------

  const SUB_CHUNK_VERSION: UInt8 := 9

  predicate AllAir(values: seq<UInt32>, air: UInt32) {
    forall i | 0 <= i < |values| :: values[i] == air
  }

  function SubChunkBytes(values: seq<UInt32>, index: UInt8, air: UInt32): Bytes {
    if AllAir(values, air) then [SUB_CHUNK_VERSION, 0, index]
    else [SUB_CHUNK_VERSION, 1, index] + StorageBytes(values)
  }

  const NO_SECTION := Section(0, [], [])

  function SectionOf(chunk: Chunk, k: nat): Section {
    if k < |chunk.sections| then chunk.sections[k] else NO_SECTION
  }

  // The biome values of a section; one zero stands for a missing storage.
  function BiomeValues(biomeTable: seq<UInt32>, section: Section): seq<UInt32> {
    if |section.biomes| == BIOME_SECTION_SIZE then ExpandedBiomes(biomeTable, section.biomes) else [0]
  }

  function SubChunksFrom(chunk: Chunk, k: nat, n: nat, minSection: int, table: seq<UInt32>): Bytes
    requires k <= n && |table| > 0
    requires -0x80 <= minSection + k && minSection + n <= 0x80
    decreases n - k
  {
    if k == n then []
    else
      SubChunkBytes(SectionValues(table, SectionOf(chunk, k)), ToUInt8(minSection + k), table[0])
      + SubChunksFrom(chunk, k + 1, n, minSection, table)
  }

  function BiomesFrom(chunk: Chunk, k: nat, n: nat, biomeTable: seq<UInt32>): Bytes
    requires k <= n
    decreases n - k
  {
    if k == n then []
    else StorageBytes(BiomeValues(biomeTable, SectionOf(chunk, k))) + BiomesFrom(chunk, k + 1, n, biomeTable)
  }

  predicate Encodable(chunk: Chunk, sectionCount: int, minSection: int) {
    && 0 < sectionCount <= MAX_SECTIONS
    && -0x80 <= minSection && minSection + sectionCount - 1 <= 0x7f
    && |chunk.sections| <= MAX_SECTIONS
    && forall k | 0 <= k < sectionCount :: SectionSizesFit(SectionOf(chunk, k))
  }

  predicate SectionSizesFit(section: Section) {
    && (|section.blocks| == 0 || |section.blocks| == SECTION_SIZE)
    && (|section.biomes| == 0 || |section.biomes| == BIOME_SECTION_SIZE)
  }

  // `entities` are the encoded block entities.
  function ChunkBytes(chunk: Chunk, sectionCount: nat, minSection: int, table: seq<UInt32>, biomeTable: seq<UInt32>,
                      entities: Bytes): Bytes
    requires Encodable(chunk, sectionCount, minSection) && |table| > 0
  {
    SubChunksFrom(chunk, 0, sectionCount, minSection, table)
    + (BiomesFrom(chunk, 0, sectionCount, biomeTable) + ([0] + entities))
  }

  // ----- the writers, step by step -----------------------------------------

  method WriteBedrockSection(out: ByteBuffer, values: seq<UInt32>, subChunkIndex: UInt8, air: UInt32)
    modifies out
    ensures out.data == old(out.data) + SubChunkBytes(values, subChunkIndex, air)
  {
    hide StorageBytes;
    out.WriteByte(SUB_CHUNK_VERSION);
    if AllAir(values, air) {
      out.WriteByte(0);
      out.WriteByte(subChunkIndex);
      return;
    }
    out.WriteByte(1);
    out.WriteByte(subChunkIndex);
    WriteBedrockStorage(out, values);
  }

  method ReorderBlocks(blocks: seq<Int32>, table: seq<UInt32>) returns (values: array<UInt32>)
    requires |table| > 0 && |blocks| in {0, SECTION_SIZE}
    ensures fresh(values) && values[..] == SectionValues(table, Section(0, blocks, []))
  {
    hide YzxOfXzy, XzyOfYzx, OrThree;
    var air := table[0];
    values := new UInt32[SECTION_SIZE](_ => air);
    for yzx := 0 to |blocks|
      invariant values.Length == SECTION_SIZE && fresh(values)
      invariant forall i | 0 <= i < SECTION_SIZE ::
        values[i] == if YzxOfXzy(i) < yzx then BlockImage(table, blocks[YzxOfXzy(i)]) else air
    {
      var runtimeID := air;
      if 0 <= blocks[yzx] < |table| {
        runtimeID := table[blocks[yzx]];
      }
      var x, y, z := yzx % 16, yzx / 256 % 16, yzx / 16 % 16;
      TargetIndex(yzx);
      forall i | 0 <= i < SECTION_SIZE ensures YzxOfXzy(i) == yzx <==> i == XzyOfYzx(yzx) {
        OnlyIndexOf(i, yzx);
      }
      values[OrThree(x, z, y)] := runtimeID;
    }
  }

  lemma TargetIndex(yzx: nat)
    requires yzx < SECTION_SIZE
    ensures OrThree(yzx % 16, yzx / 16 % 16, yzx / 256 % 16) == XzyOfYzx(yzx) < SECTION_SIZE
  {
    OrThreeIsSum(yzx % 16, yzx / 16 % 16, yzx / 256 % 16);
    hide OrThree;
  }

  // The Bedrock index that the block at a Java index is moved to.
  function XzyOfYzx(yzx: nat): nat {
    256 * (yzx % 16) + 16 * (yzx / 16 % 16) + yzx / 256 % 16
  }

  lemma OnlyIndexOf(i: nat, yzx: nat)
    requires i < SECTION_SIZE && yzx < SECTION_SIZE
    ensures YzxOfXzy(i) == yzx <==> i == XzyOfYzx(yzx)
  {
    JoinHex(i);
    JoinHex(yzx);
    HexSwap(i / 256, i / 16 % 16, i % 16, yzx / 256, yzx / 16 % 16, yzx % 16);
    DivModUnique(yzx / 256, 16, 0, yzx / 256);
  }

  lemma JoinHex(n: nat)
    requires n < SECTION_SIZE
    ensures n == 256 * (n / 256) + 16 * (n / 16 % 16) + n % 16
    ensures 0 <= n / 256 < 16 && 0 <= n / 16 % 16 < 16 && 0 <= n % 16 < 16
  {}

  lemma HexSwap(a: nat, b: nat, c: nat, d: nat, e: nat, f: nat)
    requires a < 16 && b < 16 && c < 16 && d < 16 && e < 16 && f < 16
    ensures 256 * c + 16 * b + a == 256 * d + 16 * e + f <==> 256 * a + 16 * b + c == 256 * f + 16 * e + d
  {
    HexDigits(256 * c + 16 * b + a, c, b, a);
    HexDigits(256 * d + 16 * e + f, d, e, f);
    HexDigits(256 * a + 16 * b + c, a, b, c);
    HexDigits(256 * f + 16 * e + d, f, e, d);
  }

  method WriteSubChunks(out: ByteBuffer, chunk: Chunk, n: nat, minSection: int, table: seq<UInt32>) returns (ok: bool)
    requires |table| > 0 && -0x80 <= minSection && minSection + n <= 0x80
    modifies out
    ensures ok <==> forall k | 0 <= k < n :: SectionSizesFit(SectionOf(chunk, k))
    ensures ok ==> out.data == old(out.data) + SubChunksFrom(chunk, 0, n, minSection, table)
  {
    hide SubChunkBytes, SectionValues;
    for k := 0 to n
      invariant forall j | 0 <= j < k :: SectionSizesFit(SectionOf(chunk, j))
      invariant out.data + SubChunksFrom(chunk, k, n, minSection, table)
                == old(out.data) + SubChunksFrom(chunk, 0, n, minSection, table)
    {
      var source := SectionOf(chunk, k);
      if !SectionSizesFit(source) { return false; }
      var values := ReorderBlocks(source.blocks, table);
      BiomesDoNotMatter(table, source);
      WriteBedrockSection(out, values[..], ToUInt8(minSection + k), table[0]);
    }
    assert out.data + [] == out.data;
    return true;
  }

  method WriteBiomes(out: ByteBuffer, chunk: Chunk, n: nat, biomeTable: seq<UInt32>)
    modifies out
    ensures out.data == old(out.data) + BiomesFrom(chunk, 0, n, biomeTable)
  {
    hide StorageBytes, ExpandedBiomes;
    for k := 0 to n
      invariant out.data + BiomesFrom(chunk, k, n, biomeTable) == old(out.data) + BiomesFrom(chunk, 0, n, biomeTable)
    {
      if k < |chunk.sections| && |chunk.sections[k].biomes| == BIOME_SECTION_SIZE {
        var expanded := ExpandJavaBiomes(chunk.sections[k].biomes, biomeTable);
        WriteBedrockStorage(out, expanded[..]);
      } else {
        WriteBedrockStorage(out, [0]);
      }
    }
    assert out.data + [] == out.data;
  }

  // ----- block entities ----------------------------------------------------

  // What becomes of a block entity: nothing, an encoding error, or NBT bytes.
  datatype Projection = Skipped | Unencodable | Encoded(bytes: Bytes)

  // How a block entity is shown given the block state at its position, or -1
  // where none is known.
  type Projector = (BlockEntity, Int32) -> Projection

  const NO_STATE: Int32 := -1

  // A block entity of a chunk is shown with the state of its block.
  function EntityInChunk(project: Projector, chunk: Chunk, minSection: int, entity: BlockEntity): Projection {
    match EntityPosition(chunk.pos, entity)
    case None => Skipped
    case Some(p) =>
      if project(entity, NO_STATE).Skipped? then Skipped
      else
        match StateAt(chunk, p, minSection)
        case None => project(entity, NO_STATE)
        case Some(state) => project(entity, state)
  }

  // The bytes of the first n block entities, if all can be encoded.
  function EntityBytes(project: Projector, chunk: Chunk, minSection: int, n: nat): Option<Bytes>
    requires n <= |chunk.entities|
  {
    if n == 0 then Some([])
    else
      match EntityBytes(project, chunk, minSection, n - 1)
      case None => None
      case Some(before) =>
        match EntityInChunk(project, chunk, minSection, chunk.entities[n - 1])
        case Skipped => Some(before)
        case Unencodable => None
        case Encoded(bytes) => Some(before + bytes)
  }

  // One entity that cannot be encoded fails the chunk.
  lemma {:induction false} EntityBytesExact(project: Projector, chunk: Chunk, minSection: int, n: nat)
    requires n <= |chunk.entities|
    ensures EntityBytes(project, chunk, minSection, n).Some?
            <==> forall i | 0 <= i < n :: !EntityInChunk(project, chunk, minSection, chunk.entities[i]).Unencodable?
  {
    hide EntityInChunk;
    if n > 0 { EntityBytesExact(project, chunk, minSection, n - 1); }
  }

  // ----- what block entities are shown as --------------------------------------

  // The section's block at a block entity's own column and height, or -1 where
  // there is none or it is not a Java state.
  function BlockUnder(chunk: Chunk, minSection: int, entity: BlockEntity): Int32 {
    var k := entity.y / 16 - minSection;
    if entity.x < 0 || entity.x >= 16 || entity.z < 0 || entity.z >= 16 || k < 0 || k >= |chunk.sections| then -1
    else
      var blocks := chunk.sections[k].blocks;
      if |blocks| != 4096 then -1
      else
        var state := blocks[256 * (entity.y % 16) + 16 * entity.z + entity.x];
        if 0 <= state < 27866 then state else -1
  }

  predicate InWorld(chunk: Chunk, entity: BlockEntity) {
    && -0x8000_0000 <= 16 * chunk.pos.x + entity.x < 0x8000_0000
    && -0x8000_0000 <= entity.y < 0x8000_0000
    && -0x8000_0000 <= 16 * chunk.pos.z + entity.z < 0x8000_0000
  }

  predicate IsShown(project: Projector, chunk: Chunk, minSection: int, entity: BlockEntity) {
    InWorld(chunk, entity) && !project(entity, -1).Skipped?
    && !project(entity, BlockUnder(chunk, minSection, entity)).Skipped?
  }

  // What one block entity contributes to the payload.
  function BytesOfEntity(project: Projector, chunk: Chunk, minSection: int, entity: BlockEntity): Bytes
    requires IsShown(project, chunk, minSection, entity) ==>
               project(entity, BlockUnder(chunk, minSection, entity)).Encoded?
  {
    if IsShown(project, chunk, minSection, entity) then
      project(entity, BlockUnder(chunk, minSection, entity)).bytes
    else []
  }

  predicate EntitiesEncode(project: Projector, chunk: Chunk, minSection: int) {
    forall i | 0 <= i < |chunk.entities| && IsShown(project, chunk, minSection, chunk.entities[i]) ::
      project(chunk.entities[i], BlockUnder(chunk, minSection, chunk.entities[i])).Encoded?
  }

  function Concat(parts: seq<Bytes>): Bytes {
    if parts == [] then [] else parts[0] + Concat(parts[1..])
  }

  function EntityParts(project: Projector, chunk: Chunk, minSection: int): seq<Bytes>
    requires EntitiesEncode(project, chunk, minSection)
  {
    seq(|chunk.entities|, i requires 0 <= i < |chunk.entities| =>
      BytesOfEntity(project, chunk, minSection, chunk.entities[i]))
  }

  lemma EntityIsShownWithItsBlock(project: Projector, chunk: Chunk, minSection: int, entity: BlockEntity)
    ensures EntityInChunk(project, chunk, minSection, entity)
            == if IsShown(project, chunk, minSection, entity)
               then project(entity, BlockUnder(chunk, minSection, entity)) else Skipped
  {
    EntityPositionExact(chunk.pos, entity);
    var p := EntityPosition(chunk.pos, entity);
    if p.Some? {
      StateAtExact(chunk, p.value, minSection);
      ColumnOfEntity(chunk.pos.x, entity.x);
      ColumnOfEntity(chunk.pos.z, entity.z);
    }
    hide StateAt, EntityPosition;
  }

  lemma ColumnOfEntity(chunkX: int, x: int)
    ensures (16 * chunkX + x) / 16 == chunkX <==> 0 <= x < 16
    ensures 0 <= x < 16 ==> (16 * chunkX + x) % 16 == x
  {}

  lemma {:induction false} ConcatLast(parts: seq<Bytes>, last: Bytes)
    ensures Concat(parts + [last]) == Concat(parts) + last
  {
    if parts == [] {
      assert (parts + [last])[1..] == [];
    } else {
      assert (parts + [last])[1..] == parts[1..] + [last];
      ConcatLast(parts[1..], last);
    }
  }

  lemma {:induction false} EntityBytesSoFar(project: Projector, chunk: Chunk, minSection: int, n: nat)
    requires EntitiesEncode(project, chunk, minSection) && n <= |chunk.entities|
    ensures EntityBytes(project, chunk, minSection, n) == Some(Concat(EntityParts(project, chunk, minSection)[..n]))
  {
    if n > 0 {
      hide EntityInChunk, IsShown, BlockUnder, Concat;
      var parts, entity := EntityParts(project, chunk, minSection), chunk.entities[n - 1];
      EntityBytesSoFar(project, chunk, minSection, n - 1);
      EntityIsShownWithItsBlock(project, chunk, minSection, entity);
      assert parts[..n] == parts[..n - 1] + [parts[n - 1]];
      ConcatLast(parts[..n - 1], parts[n - 1]);
      assert Concat(parts[..n - 1]) + [] == Concat(parts[..n - 1]);
    }
  }

  // The block entities of a chunk are encoded if and only if every one that is
  // shown has an encoding with the state of the block under it. The bytes are
  // those encodings, in order.
  lemma EntitiesShownWithTheirBlocks(project: Projector, chunk: Chunk, minSection: int)
    ensures EntityBytes(project, chunk, minSection, |chunk.entities|)
            == if EntitiesEncode(project, chunk, minSection)
               then Some(Concat(EntityParts(project, chunk, minSection))) else None
  {
    hide IsShown, BlockUnder, EntityInChunk, EntityBytes, Concat;
    if EntitiesEncode(project, chunk, minSection) {
      EntityBytesSoFar(project, chunk, minSection, |chunk.entities|);
      var parts := EntityParts(project, chunk, minSection);
      assert parts[..|chunk.entities|] == parts;
    } else {
      var i :| 0 <= i < |chunk.entities| && IsShown(project, chunk, minSection, chunk.entities[i])
               && !project(chunk.entities[i], BlockUnder(chunk, minSection, chunk.entities[i])).Encoded?;
      EntityIsShownWithItsBlock(project, chunk, minSection, chunk.entities[i]);
      ShownAndNotEncoded(project, chunk, minSection, chunk.entities[i]);
      EntityBytesExact(project, chunk, minSection, |chunk.entities|);
    }
  }

  lemma ShownAndNotEncoded(project: Projector, chunk: Chunk, minSection: int, entity: BlockEntity)
    requires IsShown(project, chunk, minSection, entity)
    requires !project(entity, BlockUnder(chunk, minSection, entity)).Encoded?
    ensures project(entity, BlockUnder(chunk, minSection, entity)).Unencodable?
  {}

  method WriteEntities(out: ByteBuffer, project: Projector, chunk: Chunk, minSection: int) returns (ok: bool)
    modifies out
    ensures var bytes := EntityBytes(project, chunk, minSection, |chunk.entities|);
            ok == bytes.Some? && (ok ==> out.data == old(out.data) + bytes.value)
  {
    hide StateAt, EntityPosition;
    EntityBytesExact(project, chunk, minSection, |chunk.entities|);
    for i := 0 to |chunk.entities|
      invariant EntityBytes(project, chunk, minSection, i).Some?
      invariant out.data == old(out.data) + EntityBytes(project, chunk, minSection, i).value
    {
      var entity := chunk.entities[i];
      var position := EntityPosition(chunk.pos, entity);
      var shown := if position.Some? then project(entity, NO_STATE) else Skipped;
      if !shown.Skipped? {
        var state := StateAt(chunk, position.value, minSection);
        if state.Some? {
          shown := project(entity, state.value);
        }
      }
      assert shown == EntityInChunk(project, chunk, minSection, entity);
      if shown.Unencodable? { return false; }
      if shown.Encoded? {
        out.Write(shown.bytes);
      }
    }
    return true;
  }

  // A chunk is encoded exactly when its layout fits the format and every block
  // entity that is shown can be encoded.
  method EncodeBedrockChunk(chunk: Chunk, sectionCount: int, minSection: int, table: seq<UInt32>,
                            biomeTable: seq<UInt32>, project: Projector)
    returns (payload: Option<Bytes>)
    requires |table| > 0
    ensures var entities := EntityBytes(project, chunk, minSection, |chunk.entities|);
            && (payload.Some? <==> Encodable(chunk, sectionCount, minSection) && entities.Some?)
            && (payload.Some? ==>
                  payload.value == ChunkBytes(chunk, sectionCount, minSection, table, biomeTable, entities.value))
  {
    hide SubChunksFrom, BiomesFrom, EntityBytes;
    if sectionCount <= 0 || sectionCount > MAX_SECTIONS { return None; }
    if minSection < -128 || minSection + sectionCount - 1 > 127 { return None; }
    if |chunk.sections| > MAX_SECTIONS { return None; }
    var out := new ByteBuffer();
    var ok := WriteSubChunks(out, chunk, sectionCount, minSection, table);
    if !ok { return None; }
    WriteBiomes(out, chunk, sectionCount, biomeTable);
    out.WriteByte(0);
    ok := WriteEntities(out, project, chunk, minSection);
    if !ok { return None; }
    payload := Some(out.data);
  }

  lemma BiomesDoNotMatter(table: seq<UInt32>, section: Section)
    requires |table| > 0
    ensures SectionValues(table, Section(0, section.blocks, [])) == SectionValues(table, section)
  {}

  // ----- a reader of the payload -------------------------------------------

  datatype SubChunk = SubChunk(index: Int8, blocks: seq<UInt32>)

  // A sub-chunk without a block storage is all air.
  function ReadSubChunk(bytes: Bytes, air: UInt32): Option<(SubChunk, Bytes)> {
    if |bytes| < 3 || bytes[0] != SUB_CHUNK_VERSION || bytes[1] > 1 then None
    else if bytes[1] == 0 then Some((SubChunk(ToInt8(bytes[2]), Constant(air, SECTION_SIZE)), bytes[3..]))
    else
      match ReadStorage(bytes[3..], SECTION_SIZE)
      case None => None
      case Some((blocks, rest)) => Some((SubChunk(ToInt8(bytes[2]), blocks), rest))
  }

  function ReadSubChunks(bytes: Bytes, n: nat, air: UInt32): Option<(seq<SubChunk>, Bytes)>
    decreases n
  {
    if n == 0 then Some(([], bytes))
    else
      match ReadSubChunk(bytes, air)
      case None => None
      case Some((first, rest)) =>
        match ReadSubChunks(rest, n - 1, air)
        case None => None
        case Some((more, last)) => Some(([first] + more, last))
  }

  const CARRY_MARKER: UInt8 := 0xff

  // A biome storage; a carry marker repeats the storage before it.
  function ReadBiome(bytes: Bytes, before: Option<seq<UInt32>>): Option<(seq<UInt32>, Bytes)> {
    if bytes != [] && bytes[0] == CARRY_MARKER then
      match before
      case None => None
      case Some(values) => Some((values, bytes[1..]))
    else ReadStorage(bytes, SECTION_SIZE)
  }

  function ReadBiomes(bytes: Bytes, n: nat, before: Option<seq<UInt32>>): Option<(seq<seq<UInt32>>, Bytes)>
    decreases n
  {
    if n == 0 then Some(([], bytes))
    else
      match ReadBiome(bytes, before)
      case None => None
      case Some((values, rest)) =>
        match ReadBiomes(rest, n - 1, Some(values))
        case None => None
        case Some((more, last)) => Some(([values] + more, last))
  }

  datatype BedrockChunk = BedrockChunk(subChunks: seq<SubChunk>, biomes: seq<seq<UInt32>>, border: UInt8, rest: Bytes)

  function ReadChunk(bytes: Bytes, subChunkCount: nat, biomeCount: nat, air: UInt32): Option<BedrockChunk> {
    match ReadSubChunks(bytes, subChunkCount, air)
    case None => None
    case Some((subChunks, afterBlocks)) =>
      match ReadBiomes(afterBlocks, biomeCount, None)
      case None => None
      case Some((biomes, afterBiomes)) =>
        if afterBiomes == [] then None
        else Some(BedrockChunk(subChunks, biomes, afterBiomes[0], afterBiomes[1..]))
  }

  // ----- the round trip ----------------------------------------------------

  lemma SubChunkRoundTrip(values: seq<UInt32>, index: Int8, air: UInt32, rest: Bytes)
    requires |values| == SECTION_SIZE
    ensures ReadSubChunk(SubChunkBytes(values, ToUInt8(index), air) + rest, air)
            == Some((SubChunk(index, values), rest))
  {
    hide StorageBytes, ReadStorage;
    var bytes := SubChunkBytes(values, ToUInt8(index), air) + rest;
    if AllAir(values, air) {
      assert bytes[3..] == rest;
      assert Constant(air, SECTION_SIZE) == values;
    } else {
      assert bytes[3..] == StorageBytes(values) + rest;
      StorageRoundTrip(values, rest);
    }
  }

  // What the k-th sub-chunk contains.
  function SubChunkOf(chunk: Chunk, k: nat, minSection: int, table: seq<UInt32>): SubChunk
    requires |table| > 0 && -0x80 <= minSection + k < 0x80
  {
    SubChunk(minSection + k, SectionValues(table, SectionOf(chunk, k)))
  }

  // What the sub-chunks from k on contain.
  function SubChunksOf(chunk: Chunk, k: nat, n: nat, minSection: int, table: seq<UInt32>): seq<SubChunk>
    requires k <= n && |table| > 0
    requires -0x80 <= minSection + k && minSection + n <= 0x80
  {
    seq(n - k, j requires 0 <= j < n - k => SubChunkOf(chunk, k + j, minSection, table))
  }

  lemma ReadOneMoreSubChunk(bytes: Bytes, n: nat, air: UInt32, first: SubChunk, middle: Bytes, more: seq<SubChunk>,
                            rest: Bytes)
    requires n > 0 && ReadSubChunk(bytes, air) == Some((first, middle))
    requires ReadSubChunks(middle, n - 1, air) == Some((more, rest))
    ensures ReadSubChunks(bytes, n, air) == Some(([first] + more, rest))
  {
    hide ReadSubChunk;
  }

  lemma FirstSubChunk(chunk: Chunk, k: nat, n: nat, minSection: int, table: seq<UInt32>, rest: Bytes)
    requires k < n && |table| > 0
    requires -0x80 <= minSection + k && minSection + n <= 0x80
    ensures SubChunksOf(chunk, k, n, minSection, table)
            == [SubChunkOf(chunk, k, minSection, table)] + SubChunksOf(chunk, k + 1, n, minSection, table)
    ensures SubChunksFrom(chunk, k, n, minSection, table) + rest
            == SubChunkBytes(SectionValues(table, SectionOf(chunk, k)), ToUInt8(minSection + k), table[0])
               + (SubChunksFrom(chunk, k + 1, n, minSection, table) + rest)
  {
    hide SubChunkBytes, SectionValues, SectionOf;
  }

  lemma {:induction false} SubChunksRoundTrip(chunk: Chunk, k: nat, n: nat, minSection: int, table: seq<UInt32>,
                                              rest: Bytes)
    requires k <= n && |table| > 0
    requires -0x80 <= minSection + k && minSection + n <= 0x80
    ensures ReadSubChunks(SubChunksFrom(chunk, k, n, minSection, table) + rest, n - k, table[0])
            == Some((SubChunksOf(chunk, k, n, minSection, table), rest))
    decreases n - k
  {
    hide SubChunksFrom, SubChunksOf, ReadSubChunks, ReadSubChunk, SubChunkBytes, SectionValues, SectionOf;
    if k == n {
      NoSubChunks(chunk, n, minSection, table, rest);
    } else {
      var tail := SubChunksFrom(chunk, k + 1, n, minSection, table) + rest;
      var values := SectionValues(table, SectionOf(chunk, k));
      SubChunkRoundTrip(values, minSection + k, table[0], tail);
      SubChunksRoundTrip(chunk, k + 1, n, minSection, table, rest);
      FirstSubChunk(chunk, k, n, minSection, table, rest);
      ReadOneMoreSubChunk(SubChunkBytes(values, ToUInt8(minSection + k), table[0]) + tail, n - k, table[0],
                          SubChunk(minSection + k, values), tail,
                          SubChunksOf(chunk, k + 1, n, minSection, table), rest);
    }
  }

  lemma NoSubChunks(chunk: Chunk, n: nat, minSection: int, table: seq<UInt32>, rest: Bytes)
    requires |table| > 0 && -0x80 <= minSection + n <= 0x80
    ensures ReadSubChunks(SubChunksFrom(chunk, n, n, minSection, table) + rest, 0, table[0])
            == Some((SubChunksOf(chunk, n, n, minSection, table), rest))
  {
    assert SubChunksFrom(chunk, n, n, minSection, table) + rest == rest;
    assert SubChunksOf(chunk, n, n, minSection, table) == [];
  }

  // The 4096 biome values a storage reads back as.
  function ShownBiomes(biomeTable: seq<UInt32>, section: Section): seq<UInt32> {
    if |section.biomes| == BIOME_SECTION_SIZE then ExpandedBiomes(biomeTable, section.biomes)
    else Constant(0, SECTION_SIZE)
  }

  function BiomesOf(chunk: Chunk, k: nat, n: nat, biomeTable: seq<UInt32>): seq<seq<UInt32>>
    requires k <= n
  {
    seq(n - k, j requires 0 <= j < n - k => ShownBiomes(biomeTable, SectionOf(chunk, k + j)))
  }

  lemma BiomeStorageRoundTrip(biomeTable: seq<UInt32>, section: Section, rest: Bytes)
    ensures var bytes := StorageBytes(BiomeValues(biomeTable, section)) + rest;
            && bytes != [] && bytes[0] != CARRY_MARKER
            && ReadStorage(bytes, SECTION_SIZE) == Some((ShownBiomes(biomeTable, section), rest))
  {
    var values := BiomeValues(biomeTable, section);
    StorageStart(values);
    hide StorageBytes, ReadStorage;
    if |section.biomes| == BIOME_SECTION_SIZE {
      StorageRoundTrip(values, rest);
    } else {
      assert values[..0] == [] && Palette(values) == [0];
      UniformRoundTrip([0], SECTION_SIZE, rest);
    }
  }

  lemma StorageStart(values: seq<UInt32>)
    ensures StorageBytes(values) != [] && StorageBytes(values)[0] != CARRY_MARKER
  {}

  lemma ReadOneMoreBiome(bytes: Bytes, n: nat, before: Option<seq<UInt32>>, first: seq<UInt32>, middle: Bytes,
                         more: seq<seq<UInt32>>, rest: Bytes)
    requires n > 0 && bytes != [] && bytes[0] != CARRY_MARKER
    requires ReadStorage(bytes, SECTION_SIZE) == Some((first, middle))
    requires ReadBiomes(middle, n - 1, Some(first)) == Some((more, rest))
    ensures ReadBiomes(bytes, n, before) == Some(([first] + more, rest))
  {
    hide ReadStorage;
  }

  lemma FirstBiome(chunk: Chunk, k: nat, n: nat, biomeTable: seq<UInt32>, rest: Bytes)
    requires k < n
    ensures BiomesOf(chunk, k, n, biomeTable)
            == [ShownBiomes(biomeTable, SectionOf(chunk, k))] + BiomesOf(chunk, k + 1, n, biomeTable)
    ensures BiomesFrom(chunk, k, n, biomeTable) + rest
            == StorageBytes(BiomeValues(biomeTable, SectionOf(chunk, k)))
               + (BiomesFrom(chunk, k + 1, n, biomeTable) + rest)
  {
    hide StorageBytes, BiomeValues, ShownBiomes, SectionOf;
  }

  lemma NoBiomes(chunk: Chunk, n: nat, biomeTable: seq<UInt32>, before: Option<seq<UInt32>>, rest: Bytes)
    ensures ReadBiomes(BiomesFrom(chunk, n, n, biomeTable) + rest, 0, before)
            == Some((BiomesOf(chunk, n, n, biomeTable), rest))
  {
    assert BiomesFrom(chunk, n, n, biomeTable) + rest == rest;
    assert BiomesOf(chunk, n, n, biomeTable) == [];
  }

  lemma {:induction false} BiomesRoundTrip(chunk: Chunk, k: nat, n: nat, biomeTable: seq<UInt32>,
                                           before: Option<seq<UInt32>>, rest: Bytes)
    requires k <= n
    ensures ReadBiomes(BiomesFrom(chunk, k, n, biomeTable) + rest, n - k, before)
            == Some((BiomesOf(chunk, k, n, biomeTable), rest))
    decreases n - k
  {
    hide BiomesFrom, BiomesOf, ReadBiomes, StorageBytes, ReadStorage, BiomeValues, ShownBiomes, SectionOf;
    if k == n {
      NoBiomes(chunk, n, biomeTable, before, rest);
    } else {
      var section := SectionOf(chunk, k);
      var shown := ShownBiomes(biomeTable, section);
      var tail := BiomesFrom(chunk, k + 1, n, biomeTable) + rest;
      BiomeStorageRoundTrip(biomeTable, section, tail);
      BiomesRoundTrip(chunk, k + 1, n, biomeTable, Some(shown), rest);
      FirstBiome(chunk, k, n, biomeTable, rest);
      ReadOneMoreBiome(StorageBytes(BiomeValues(biomeTable, section)) + tail, n - k, before,
                       shown, tail, BiomesOf(chunk, k + 1, n, biomeTable), rest);
    }
  }

  // Reading an encoded chunk gives every sub-chunk with its signed index and
  // its blocks, every biome storage, the border marker, and the block entity
  // bytes.
  lemma ChunkRoundTrip(chunk: Chunk, sectionCount: nat, minSection: int, table: seq<UInt32>, biomeTable: seq<UInt32>,
                       entities: Bytes)
    requires Encodable(chunk, sectionCount, minSection) && |table| > 0
    ensures var bytes := ChunkBytes(chunk, sectionCount, minSection, table, biomeTable, entities);
            ReadChunk(bytes, sectionCount, sectionCount, table[0])
            == Some(BedrockChunk(SubChunksOf(chunk, 0, sectionCount, minSection, table),
                                 BiomesOf(chunk, 0, sectionCount, biomeTable), 0, entities))
  {
    hide SubChunksFrom, BiomesFrom, ReadSubChunks, ReadBiomes, SubChunksOf, BiomesOf;
    var tail := [0] + entities;
    SubChunksRoundTrip(chunk, 0, sectionCount, minSection, table,
                       BiomesFrom(chunk, 0, sectionCount, biomeTable) + tail);
    BiomesRoundTrip(chunk, 0, sectionCount, biomeTable, None, tail);
    assert tail[1..] == entities;
  }

  // What a client reads as the k-th sub-chunk of an encoded chunk.
  function ReadBack(chunk: Chunk, sectionCount: nat, minSection: int, table: seq<UInt32>, biomeTable: seq<UInt32>,
                    entities: Bytes): Option<BedrockChunk>
    requires Encodable(chunk, sectionCount, minSection) && |table| > 0
  {
    ReadChunk(ChunkBytes(chunk, sectionCount, minSection, table, biomeTable, entities), sectionCount, sectionCount,
              table[0])
  }

  lemma ReadBackSubChunk(chunk: Chunk, sectionCount: nat, minSection: int, table: seq<UInt32>,
                         biomeTable: seq<UInt32>, entities: Bytes, k: nat)
    requires Encodable(chunk, sectionCount, minSection) && |table| > 0 && k < sectionCount
    ensures var read := ReadBack(chunk, sectionCount, minSection, table, biomeTable, entities);
            read.Some? && k < |read.value.subChunks|
            && read.value.subChunks[k] == SubChunkOf(chunk, k, minSection, table)
  {
    hide ReadChunk, ChunkBytes, BiomesOf, SubChunkOf;
    ChunkRoundTrip(chunk, sectionCount, minSection, table, biomeTable, entities);
  }

  // The runtime ID of a block state: its entry of the table, or air.
  function BlockNumber(table: seq<UInt32>, state: Int32): (id: UInt32)
    requires |table| > 0
    ensures state < 0 || state >= |table| ==> id == table[0]
    ensures 0 <= state < |table| ==> id == table[state]
  {
    if state >= 0 && state < |table| then table[state] else table[0]
  }

  // The runtime ID of the state that a lookup finds at a position, or air.
  function BlockThere(table: seq<UInt32>, chunk: Chunk, p: BlockPos, minSection: int): (id: UInt32)
    requires |table| > 0
    ensures StateAt(chunk, p, minSection).None? ==> id == table[0]
    ensures StateAt(chunk, p, minSection).Some? && StateAt(chunk, p, minSection).value < |table| ==>
              id == table[StateAt(chunk, p, minSection).value]
  {
    match StateAt(chunk, p, minSection)
    case None => table[0]
    case Some(state) => BlockNumber(table, state)
  }

  // The k-th sub-chunk has the given index and, at i, the given block.
  predicate ShowsBlock(read: Option<BedrockChunk>, k: nat, index: int, i: nat, id: UInt32) {
    && read.Some? && k < |read.value.subChunks|
    && read.value.subChunks[k].index == index
    && |read.value.subChunks[k].blocks| == 4096
    && i < 4096 && read.value.subChunks[k].blocks[i] == id
  }

  predicate ShowsBiome(read: Option<BedrockChunk>, k: nat, i: nat, id: UInt32) {
    && read.Some? && k < |read.value.biomes| && |read.value.biomes[k]| == 4096
    && i < 4096 && read.value.biomes[k][i] == id
  }

  // The block that a client finds at a world position of an encoded chunk is
  // the runtime ID of the Java state there, or air where there is none.
  lemma BlockAtWorldPosition(chunk: Chunk, sectionCount: nat, minSection: int, table: seq<UInt32>,
                             biomeTable: seq<UInt32>, entities: Bytes, p: BlockPos)
    requires Encodable(chunk, sectionCount, minSection) && |table| == 27866
    requires ChunkForBlock(p) == chunk.pos && minSection <= p.y / 16 < minSection + sectionCount
    ensures var read := ReadBack(chunk, sectionCount, minSection, table, biomeTable, entities);
            var k := p.y / 16 - minSection;
            ShowsBlock(read, k, p.y / 16, 256 * (p.x % 16) + 16 * (p.z % 16) + p.y % 16,
                       BlockThere(table, chunk, p, minSection))
  {
    hide ShowsBlock, ReadBack, BlockThere, FloorDiv16, FloorMod16, XzyIndex, SectionValues, SectionOf,
         Encodable;
    BlockInSection(chunk, minSection, table, p);
    ReadBackAt(chunk, sectionCount, minSection, table, biomeTable, entities, p.y / 16 - minSection,
               p.x % 16, p.y % 16, p.z % 16, BlockThere(table, chunk, p, minSection));
  }

  lemma ReadBackAt(chunk: Chunk, sectionCount: nat, minSection: int, table: seq<UInt32>, biomeTable: seq<UInt32>,
                   entities: Bytes, k: nat, x: nat, y: nat, z: nat, id: UInt32)
    requires Encodable(chunk, sectionCount, minSection) && |table| > 0 && k < sectionCount
    requires x < 16 && y < 16 && z < 16
    requires SectionValues(table, SectionOf(chunk, k))[XzyIndex(x, y, z)] == id
    ensures ShowsBlock(ReadBack(chunk, sectionCount, minSection, table, biomeTable, entities), k, minSection + k,
                       256 * x + 16 * z + y, id)
  {
    hide ReadBack, SectionValues, XzyIndex, SectionOf, ShowsBlock, Encodable, SubChunkOf;
    SectionsFit(chunk, sectionCount, minSection, k);
    SubChunkHolds(chunk, k, minSection, table, x, y, z);
    ReadBackSubChunk(chunk, sectionCount, minSection, table, biomeTable, entities, k);
    ShowsItsBlock(ReadBack(chunk, sectionCount, minSection, table, biomeTable, entities), k,
                  SubChunkOf(chunk, k, minSection, table), 256 * x + 16 * z + y);
  }

  lemma SubChunkHolds(chunk: Chunk, k: nat, minSection: int, table: seq<UInt32>, x: nat, y: nat, z: nat)
    requires |table| > 0 && -0x80 <= minSection + k < 0x80 && x < 16 && y < 16 && z < 16
    ensures var subChunk := SubChunkOf(chunk, k, minSection, table);
            && subChunk.index == minSection + k && |subChunk.blocks| == 4096
            && subChunk.blocks[256 * x + 16 * z + y] == SectionValues(table, SectionOf(chunk, k))[XzyIndex(x, y, z)]
  {
    hide SectionValues, SectionOf;
  }

  lemma SectionsFit(chunk: Chunk, sectionCount: int, minSection: int, k: nat)
    requires Encodable(chunk, sectionCount, minSection) && k < sectionCount
    ensures -0x80 <= minSection + k < 0x80
  {}

  lemma ShowsItsBlock(read: Option<BedrockChunk>, k: nat, subChunk: SubChunk, i: nat)
    requires read.Some? && k < |read.value.subChunks| && read.value.subChunks[k] == subChunk
    requires |subChunk.blocks| == 4096 && i < 4096
    ensures ShowsBlock(read, k, subChunk.index, i, subChunk.blocks[i])
  {}

  lemma BlockInSection(chunk: Chunk, minSection: int, table: seq<UInt32>, p: BlockPos)
    requires |table| == BLOCK_STATE_COUNT
    requires ChunkForBlock(p) == chunk.pos && minSection <= p.y / 16
    ensures SectionValues(table, SectionOf(chunk, p.y / 16 - minSection))[XzyIndex(p.x % 16, p.y % 16, p.z % 16)]
            == BlockThere(table, chunk, p, minSection)
  {
    assert FloorDiv16(p.y) == p.y / 16 && FloorMod16(p.y) == p.y % 16;
    assert FloorMod16(p.x) == p.x % 16 && FloorMod16(p.z) == p.z % 16;
    hide SectionValues, XzyIndex, StateAt, FloorDiv16, FloorMod16;
    LocalState(chunk, p, minSection);
    SectionValuesAt(table, SectionOf(chunk, p.y / 16 - minSection), p.x % 16, p.y % 16, p.z % 16);
  }

  // The lookup of a position in its own chunk, in local coordinates.
  lemma LocalState(chunk: Chunk, p: BlockPos, minSection: int)
    requires ChunkForBlock(p) == chunk.pos && minSection <= FloorDiv16(p.y)
    ensures var k := FloorDiv16(p.y) - minSection;
            var blocks := SectionOf(chunk, k).blocks;
            StateAt(chunk, p, minSection)
            == if |blocks| != SECTION_SIZE then None
               else
                 var state := blocks[YzxIndex(FloorMod16(p.x), FloorMod16(p.y), FloorMod16(p.z))];
                 if 0 <= state < BLOCK_STATE_COUNT then Some(state) else None
  {
    hide OrThree, FloorDiv16, FloorMod16;
    assert p.x - chunk.pos.x * 16 == FloorMod16(p.x);
    assert p.z - chunk.pos.z * 16 == FloorMod16(p.z);
    OrThreeIsSum(FloorMod16(p.y), FloorMod16(p.z), FloorMod16(p.x));
  }

  // The runtime ID of a biome: its entry of the table, or 0.
  function BiomeNumber(biomeTable: seq<UInt32>, biome: Int32): (id: UInt32)
    ensures biome < 0 || biome >= |biomeTable| ==> id == 0
    ensures 0 <= biome < |biomeTable| ==> id == biomeTable[biome]
  {
    if biome >= 0 && biome < |biomeTable| then biomeTable[biome] else 0
  }

  // The biome of the 4x4x4 cell around a block.
  function BiomeAround(biomes: seq<Int32>, x: nat, y: nat, z: nat): Int32
    requires |biomes| == 64 && x < 16 && y < 16 && z < 16
  {
    biomes[16 * (y / 4) + 4 * (z / 4) + x / 4]
  }

  lemma BiomeImageExact(biomeTable: seq<UInt32>)
    ensures forall biome: Int32 :: BiomeImage(biomeTable, biome) == BiomeNumber(biomeTable, biome)
  {}

  lemma BlockPlaces(x: nat, y: nat, z: nat)
    requires x < 16 && y < 16 && z < 16
    ensures XzyIndex(x, y, z) == 256 * x + 16 * z + y
    ensures YzxIndex(x, y, z) == 256 * y + 16 * z + x
    ensures CellAround(x, y, z) == 16 * (y / 4) + 4 * (z / 4) + x / 4
  {}

  // The markers of the payload: the version and the storage count of a
  // sub-chunk and its index, and the byte that repeats a biome storage.
  lemma SubChunkFormat(values: seq<UInt32>, index: UInt8, air: UInt32)
    ensures SubChunkBytes(values, index, air)
            == if forall i | 0 <= i < |values| :: values[i] == air then [9, 0, index]
               else [9, 1, index] + StorageBytes(values)
  {}

  lemma EmptyChunkFormat(sectionCount: int)
    ensures EmptyChunkBytes(sectionCount)
            == if 1 <= sectionCount <= 32 then [1, 0] + seq(sectionCount - 1, _ => 0xff) + [0] else [1, 0, 0]
  {}

  // The layouts that are encoded.
  lemma EncodableExact(chunk: Chunk, sectionCount: int, minSection: int)
    ensures Encodable(chunk, sectionCount, minSection)
            <==> 1 <= sectionCount <= 32 && -128 <= minSection && minSection + sectionCount <= 128
                 && |chunk.sections| <= 32
                 && forall k | 0 <= k < sectionCount && k < |chunk.sections| ::
                      |chunk.sections[k].blocks| in {0, 4096} && |chunk.sections[k].biomes| in {0, 64}
  {
    if Encodable(chunk, sectionCount, minSection) {
      forall k | 0 <= k < sectionCount && k < |chunk.sections|
        ensures |chunk.sections[k].blocks| in {0, 4096} && |chunk.sections[k].biomes| in {0, 64}
      {
        assert SectionSizesFit(SectionOf(chunk, k));
      }
    }
  }

  // Reading an encoded chunk ends with the encodings of its block entities.
  lemma EntitiesReadBack(chunk: Chunk, sectionCount: nat, minSection: int, table: seq<UInt32>, biomeTable: seq<UInt32>,
                         project: Projector)
    requires Encodable(chunk, sectionCount, minSection) && |table| > 0
    requires EntitiesEncode(project, chunk, minSection)
    ensures var entities := EntityBytes(project, chunk, minSection, |chunk.entities|);
            && entities.Some?
            && var read := ReadBack(chunk, sectionCount, minSection, table, biomeTable, entities.value);
               read.Some? && read.value.rest == Concat(EntityParts(project, chunk, minSection))
  {
    hide ReadChunk, ChunkBytes, EntityBytes, EntitiesEncode, EntityParts, Concat, SubChunksOf, BiomesOf;
    EntitiesShownWithTheirBlocks(project, chunk, minSection);
    var entities := Concat(EntityParts(project, chunk, minSection));
    ChunkRoundTrip(chunk, sectionCount, minSection, table, biomeTable, entities);
  }

  // Every block of an encoded chunk shows the biome of its 4x4x4 Java cell, or
  // biome 0 where the section has none or the table does not know it.
  lemma BiomeAtBlock(chunk: Chunk, sectionCount: nat, minSection: int, table: seq<UInt32>, biomeTable: seq<UInt32>,
                     entities: Bytes, k: nat, x: nat, y: nat, z: nat)
    requires Encodable(chunk, sectionCount, minSection) && |table| > 0
    requires k < sectionCount && x < 16 && y < 16 && z < 16
    ensures var read := ReadBack(chunk, sectionCount, minSection, table, biomeTable, entities);
            ShowsBiome(read, k, 256 * x + 16 * z + y,
                       if k < |chunk.sections| && |chunk.sections[k].biomes| == 64
                       then BiomeNumber(biomeTable, BiomeAround(chunk.sections[k].biomes, x, y, z)) else 0)
  {
    hide ReadBack, ShownBiomes, BiomeNumber, BiomeAround;
    ReadBackBiomes(chunk, sectionCount, minSection, table, biomeTable, entities, k);
    ShownBiomeAt(biomeTable, SectionOf(chunk, k), x, y, z);
  }

  lemma ReadBackBiomes(chunk: Chunk, sectionCount: nat, minSection: int, table: seq<UInt32>, biomeTable: seq<UInt32>,
                       entities: Bytes, k: nat)
    requires Encodable(chunk, sectionCount, minSection) && |table| > 0 && k < sectionCount
    ensures var read := ReadBack(chunk, sectionCount, minSection, table, biomeTable, entities);
            && read.Some? && k < |read.value.biomes|
            && read.value.biomes[k] == ShownBiomes(biomeTable, SectionOf(chunk, k))
  {
    hide ReadChunk, ChunkBytes, SubChunksOf, ShownBiomes, SectionOf;
    ChunkRoundTrip(chunk, sectionCount, minSection, table, biomeTable, entities);
  }

  lemma ShownBiomeAt(biomeTable: seq<UInt32>, section: Section, x: nat, y: nat, z: nat)
    requires x < 16 && y < 16 && z < 16
    ensures var shown := ShownBiomes(biomeTable, section);
            && |shown| == 4096
            && shown[256 * x + 16 * z + y]
               == if |section.biomes| == 64 then BiomeNumber(biomeTable, BiomeAround(section.biomes, x, y, z)) else 0
  {
    hide ExpandedBiomes, BiomeImage, BiomeNumber, CellBiome;
    BlockPlaces(x, y, z);
    BiomeImageExact(biomeTable);
    if |section.biomes| == 64 {
      ExpandedBiomesAt(biomeTable, section.biomes, x, y, z);
      CellBiomeOfFullList(biomeTable, section.biomes, CellAround(x, y, z));
    }
  }

  // ----- the empty chunk ---------------------------------------------------

  function EmptyChunkBytes(sectionCount: int): Bytes {
    if sectionCount <= 0 || sectionCount > MAX_SECTIONS then [1, 0, 0]
    else [1, 0] + seq(sectionCount - 1, _ => CARRY_MARKER) + [0]
  }

  method EmptyBedrockChunkPayload(sectionCount: int) returns (payload: Bytes)
    ensures payload == EmptyChunkBytes(sectionCount)
  {
    if sectionCount <= 0 || sectionCount > MAX_SECTIONS { return [1, 0, 0]; }
    payload := [1, 0];
    for i := 1 to sectionCount
      invariant payload == [1, 0] + seq(i - 1, _ => CARRY_MARKER)
    {
      payload := payload + [CARRY_MARKER];
    }
    payload := payload + [0];
  }

  // The empty payload of a layout shows biome 0 in every section.
  lemma EmptyChunkRoundTrip(sectionCount: nat, air: UInt32)
    requires 0 < sectionCount <= MAX_SECTIONS
    ensures ReadChunk(EmptyChunkBytes(sectionCount), 0, sectionCount, air)
            == Some(BedrockChunk([], seq(sectionCount, _ => Constant(0, SECTION_SIZE)), 0, []))
  {
    var zeros := Constant(0, SECTION_SIZE);
    var bytes := EmptyChunkBytes(sectionCount);
    var carried := seq(sectionCount - 1, _ => CARRY_MARKER);
    assert SignedVarInt(ToInt32(0)) == [0];
    ReadUniform(0, SECTION_SIZE, carried + [0]);
    assert bytes == [1] + SignedVarInt(ToInt32(0)) + (carried + [0]);
    hide ReadStorage, Constant;
    CarriedBiomes(sectionCount - 1, zeros, [0]);
    assert [zeros] + seq(sectionCount - 1, _ => zeros) == seq(sectionCount, _ => zeros);
    assert ReadBiome(bytes, None) == Some((zeros, carried + [0]));
    assert ReadBiomes(bytes, sectionCount, None) == Some((seq(sectionCount, _ => zeros), [0]));
    assert ReadSubChunks(bytes, 0, air) == Some(([], bytes));
    assert [0 as UInt8][1..] == [];
  }

  lemma {:induction false} CarriedBiomes(n: nat, values: seq<UInt32>, rest: Bytes)
    ensures ReadBiomes(seq(n, _ => CARRY_MARKER) + rest, n, Some(values)) == Some((seq(n, _ => values), rest))
  {
    var bytes := seq(n, _ => CARRY_MARKER) + rest;
    if n == 0 {
      assert bytes == rest;
    } else {
      assert bytes[1..] == seq(n - 1, _ => CARRY_MARKER) + rest;
      CarriedBiomes(n - 1, values, rest);
      assert [values] + seq(n - 1, _ => values) == seq(n, _ => values);
    }
  }
}
