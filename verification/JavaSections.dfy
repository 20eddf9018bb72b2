// The section data of a Java chunk, and the way of a block from the packed
// palettes that a server sends to the payload that a client reads.
module JavaSections {
  import opened Widths
  import opened VarInts
  import opened PackedFields
  import opened JavaPalette
  import opened JavaChunks
  import opened ChunkEncoder

  // ----- the format --------------------------------------------------------

  // A block count, the blocks and the biomes.
  function ReadSection(bytes: Bytes): Option<(Section, Bytes)> {
    if |bytes| < 2 then None
    else
      match ReadContainer(bytes[2..], SECTION_SIZE)
      case None => None
      case Some((blocks, afterBlocks)) =>
        match ReadContainer(afterBlocks, BIOME_SECTION_SIZE)
        case None => None
        case Some((biomes, rest)) => Some((Section(ReadInt16(bytes), blocks, biomes), rest))
  }

  // Sections up to the end of the data, at most `limit` of them.
  function ReadSections(bytes: Bytes, limit: nat): Option<seq<Section>>
    decreases limit
  {
    if bytes == [] then Some([])
    else if limit == 0 then None
    else
      match ReadSection(bytes)
      case None => None
      case Some((first, rest)) =>
        match ReadSections(rest, limit - 1)
        case None => None
        case Some(more) => Some([first] + more)
  }

  function SectionsIn(payload: Bytes): Option<seq<Section>> {
    if payload == [] then None else ReadSections(payload, MAX_SECTIONS)
  }

  // ----- the decoder, step by step -------------------------------------------

  function Completing(front: seq<Section>, r: Option<seq<Section>>): Option<seq<Section>> {
    match r
    case None => None
    case Some(more) => Some(front + more)
  }

  lemma CompletingStep(front: seq<Section>, section: Section, r: Option<seq<Section>>)
    ensures Completing(front, Completing([section], r)) == Completing(front + [section], r)
    ensures Completing([], r) == r
    ensures Completing(front, Some([])) == Some(front)
  {
    assert front + [] == front;
    if r.Some? {
      assert front + ([section] + r.value) == (front + [section]) + r.value;
      assert [] + r.value == r.value;
    }
  }

  method DecodeSection(r: Reader) returns (section: Option<Section>)
    requires r.Valid()
    modifies r
    ensures r.Valid()
    ensures section.None? <==> ReadSection(old(r.Rest())).None?
    ensures section.Some? ==> ReadSection(old(r.Rest())) == Some((section.value, r.Rest()))
  {
    hide ReadContainer;
    var blockCount := r.Int16();
    if blockCount.None? { return None; }
    var blocks := DecodeJavaPalettedContainer(r, SECTION_SIZE);
    if blocks.None? { return None; }
    var biomes := DecodeJavaPalettedContainer(r, BIOME_SECTION_SIZE);
    if biomes.None? { return None; }
    return Some(Section(blockCount.value, blocks.value, biomes.value));
  }

  method DecodeJavaChunkSections(payload: Bytes) returns (sections: Option<seq<Section>>)
    ensures sections == SectionsIn(payload)
  {
    hide ReadSection;
    if |payload| == 0 { return None; }
    var r := new Reader(payload);
    var decoded: seq<Section> := [];
    CompletingStep([], NO_SECTION, ReadSections(payload, MAX_SECTIONS));
    while r.pos < |r.bytes|
      invariant r.Valid() && fresh(r) && |decoded| <= MAX_SECTIONS
      invariant SectionsIn(payload) == Completing(decoded, ReadSections(r.Rest(), MAX_SECTIONS - |decoded|))
      decreases MAX_SECTIONS - |decoded|
    {
      assert r.Rest() != [];
      if |decoded| == MAX_SECTIONS { return None; }
      var section := DecodeSection(r);
      if section.None? { return None; }
      CompletingStep(decoded, section.value, ReadSections(r.Rest(), MAX_SECTIONS - |decoded| - 1));
      decoded := decoded + [section.value];
    }
    assert r.Rest() == [];
    CompletingStep(decoded, NO_SECTION, None);
    return Some(decoded);
  }

  // ----- what a server sends -------------------------------------------------

  // A container before it is framed, in the form that the decoder reads at its
  // width: one value for all entries at width 0, entries with a palette at widths
  // 1 to 8, entries without one at widths 9 to 32.
  datatype Packed = Packed(bits: nat, palette: Option<seq<Int32>>, indices: seq<nat>)

  predicate WellPacked(packed: Packed, size: nat) {
    && PaletteFor(packed.bits, packed.palette)
    && (packed.bits > 0 ==>
          && |packed.indices| == size && Fit(packed.indices, packed.bits)
          && (packed.palette.Some? ==> forall i | 0 <= i < size :: packed.indices[i] < |packed.palette.value|))
  }

  lemma Grows(m: nat, a: nat, b: nat)
    requires a <= b
    ensures m * a <= m * b
  {}

  lemma QuotientAtMost(x: nat, m: nat, q: nat)
    requires m > 0 && x < m * (q + 1)
    ensures x / m <= q
  {
    var d := x / m;
    assert x == m * d + x % m;
    if d > q { Grows(m, q + 1, d); }
  }

  lemma WordsAreFew(size: nat, bits: nat)
    requires 0 < bits <= 32
    ensures CeilDiv(size, 64 / bits) <= size
  {
    var per := 64 / bits;
    Grows(size, 1, per);
    assert per * (size + 1) == size * per + per;
    QuotientAtMost(size + per - 1, per, size);
  }

  function PackedContainer(packed: Packed, size: nat): Bytes
    requires WellPacked(packed, size) && size <= MAX_COLLECTION
  {
    if packed.bits == 0 then Frame(0, packed.palette, [])
    else
      WordsAreFew(size, packed.bits);
      Frame(packed.bits, packed.palette, PackLongs(packed.indices, packed.bits))
  }

  function ValueAt(packed: Packed, size: nat, i: nat): Int32
    requires WellPacked(packed, size) && i < size
  {
    if packed.bits == 0 then packed.palette.value[0]
    else if packed.palette.Some? then packed.palette.value[packed.indices[i]]
    else Direct(packed.indices[i])
  }

  function ValuesOf(packed: Packed, size: nat): (r: seq<Int32>)
    requires WellPacked(packed, size)
    ensures |r| == size
  {
    seq(size, i requires 0 <= i < size => ValueAt(packed, size, i))
  }

  lemma ContainerRoundTrip(packed: Packed, size: nat, rest: Bytes)
    requires WellPacked(packed, size) && size <= MAX_COLLECTION
    ensures ReadContainer(PackedContainer(packed, size) + rest, size) == Some((ValuesOf(packed, size), rest))
  {
    hide ReadContainer, Frame, PackLongs, Fit, Direct;
    if packed.bits == 0 {
      FramedContainer(0, packed.palette, [], size, rest);
      assert Constant(packed.palette.value[0], size) == ValuesOf(packed, size);
    } else {
      WordsAreFew(size, packed.bits);
      DecodeInvertsPacking(packed.bits, packed.palette, packed.indices, rest);
      assert Meaning(packed.palette, packed.indices) == ValuesOf(packed, size);
    }
  }

  datatype PackedSection = PackedSection(blockCount: Int16, blocks: Packed, biomes: Packed)

  predicate SectionWellPacked(section: PackedSection) {
    WellPacked(section.blocks, SECTION_SIZE) && WellPacked(section.biomes, BIOME_SECTION_SIZE)
  }

  predicate AllWellPacked(sections: seq<PackedSection>) {
    forall k | 0 <= k < |sections| :: SectionWellPacked(sections[k])
  }

  function SectionBytes(section: PackedSection): Bytes
    requires SectionWellPacked(section)
  {
    BigEndianBytes(ToUInt16(section.blockCount), 2)
    + (PackedContainer(section.blocks, SECTION_SIZE) + PackedContainer(section.biomes, BIOME_SECTION_SIZE))
  }

  function PayloadBytes(sections: seq<PackedSection>): Bytes
    requires AllWellPacked(sections)
  {
    if sections == [] then [] else SectionBytes(sections[0]) + PayloadBytes(sections[1..])
  }

  function Unpacked(section: PackedSection): Section
    requires SectionWellPacked(section)
  {
    Section(section.blockCount, ValuesOf(section.blocks, SECTION_SIZE), ValuesOf(section.biomes, BIOME_SECTION_SIZE))
  }

  function AllUnpacked(sections: seq<PackedSection>): (r: seq<Section>)
    requires AllWellPacked(sections)
    ensures |r| == |sections|
  {
    seq(|sections|, k requires 0 <= k < |sections| => Unpacked(sections[k]))
  }

  // ----- decoding inverts packing ----------------------------------------------

  lemma CountRoundTrip(count: Int16)
    ensures ReadInt16(BigEndianBytes(ToUInt16(count), 2)) == count
  {
    var n := ToUInt16(count);
    assert BigEndianBytes(n / 0x100, 1) == [n / 0x100 % 0x100];
    assert BigEndianBytes(n, 2) == [n / 0x100 % 0x100, n % 0x100];
  }

  lemma SectionRoundTrip(section: PackedSection, rest: Bytes)
    requires SectionWellPacked(section)
    ensures ReadSection(SectionBytes(section) + rest) == Some((Unpacked(section), rest))
  {
    hide ReadContainer, PackedContainer, ValuesOf, WellPacked, BigEndianBytes;
    CountRoundTrip(section.blockCount);
    var blocks := PackedContainer(section.blocks, SECTION_SIZE);
    var biomes := PackedContainer(section.biomes, BIOME_SECTION_SIZE);
    assert (SectionBytes(section) + rest)[2..] == blocks + (biomes + rest);
    assert ReadInt16(SectionBytes(section) + rest) == ReadInt16(BigEndianBytes(ToUInt16(section.blockCount), 2));
    ContainerRoundTrip(section.blocks, SECTION_SIZE, biomes + rest);
    ContainerRoundTrip(section.biomes, BIOME_SECTION_SIZE, rest);
  }

  lemma {:induction false} SectionsRoundTrip(sections: seq<PackedSection>, limit: nat)
    requires AllWellPacked(sections) && |sections| <= limit
    ensures ReadSections(PayloadBytes(sections), limit) == Some(AllUnpacked(sections))
    decreases |sections|
  {
    hide ReadSection, SectionBytes, SectionWellPacked, Unpacked;
    if sections != [] {
      SectionHasBytes(sections[0]);
      SectionRoundTrip(sections[0], PayloadBytes(sections[1..]));
      SectionsRoundTrip(sections[1..], limit - 1);
      assert AllUnpacked(sections) == [Unpacked(sections[0])] + AllUnpacked(sections[1..]);
    }
  }

  lemma SectionHasBytes(section: PackedSection)
    requires SectionWellPacked(section)
    ensures SectionBytes(section) != []
  {}

  // Whatever 1 to 32 sections a server packs in these forms are decoded to what
  // they mean.
  lemma SectionsInInverts(sections: seq<PackedSection>)
    requires AllWellPacked(sections) && 0 < |sections| <= MAX_SECTIONS
    ensures SectionsIn(PayloadBytes(sections)) == Some(AllUnpacked(sections))
  {
    hide SectionBytes, ReadSections;
    SectionHasBytes(sections[0]);
    SectionsRoundTrip(sections, MAX_SECTIONS);
  }

  // ----- from server to client -------------------------------------------------

  lemma UnpackedIsEncodable(pos: ChunkPos, sections: seq<PackedSection>, shown: seq<BlockEntity>, sectionCount: int,
                            minSection: int)
    requires AllWellPacked(sections) && |sections| <= MAX_SECTIONS
    requires 0 < sectionCount <= MAX_SECTIONS && -0x80 <= minSection && minSection + sectionCount - 1 <= 0x7f
    ensures Encodable(Chunk(pos, AllUnpacked(sections), shown), sectionCount, minSection)
  {
    hide WellPacked, ValuesOf;
  }

  // ----- what the packed entries stand for -------------------------------------

  // A container stands for its values: all equal to its one entry, found in the
  // palette, or packed as they are.
  predicate StandsFor(packed: Packed, values: seq<Int32>) {
    if packed.bits == 0 then
      packed.palette.Some? && |packed.palette.value| == 1
      && forall i | 0 <= i < |values| :: values[i] == packed.palette.value[0]
    else
      && |packed.indices| == |values|
      && forall i | 0 <= i < |values| ::
           if packed.bits <= 8 then
             packed.palette.Some? && packed.indices[i] < |packed.palette.value|
             && values[i] == packed.palette.value[packed.indices[i]]
           else packed.indices[i] == Unsigned(values[i])
  }

  lemma StandsForValues(packed: Packed, values: seq<Int32>)
    requires WellPacked(packed, |values|) && StandsFor(packed, values)
    ensures ValuesOf(packed, |values|) == values
  {
    hide Fit, Direct;
    forall i | 0 <= i < |values| ensures ValueAt(packed, |values|, i) == values[i] {
      DirectReadsUnsigned(values[i]);
    }
  }

  // The server sends these blocks and biomes, packed in some form.
  ghost predicate Sends(sections: seq<PackedSection>, blocks: seq<seq<Int32>>, biomes: seq<seq<Int32>>) {
    && |blocks| == |sections| && |biomes| == |sections|
    && forall k | 0 <= k < |sections| ::
         && |blocks[k]| == 4096 && StandsFor(sections[k].blocks, blocks[k])
         && |biomes[k]| == 64 && StandsFor(sections[k].biomes, biomes[k])
  }

  lemma SentIsUnpacked(sections: seq<PackedSection>, blocks: seq<seq<Int32>>, biomes: seq<seq<Int32>>, k: nat)
    requires AllWellPacked(sections) && Sends(sections, blocks, biomes) && k < |sections|
    ensures AllUnpacked(sections)[k].blocks == blocks[k] && AllUnpacked(sections)[k].biomes == biomes[k]
  {
    hide ValuesOf, WellPacked, StandsFor;
    assert SectionWellPacked(sections[k]);
    StandsForValues(sections[k].blocks, blocks[k]);
    StandsForValues(sections[k].biomes, biomes[k]);
  }

  // What a client reads of section data that a server packed.
  function ReadByClient(payload: Bytes, pos: ChunkPos, shown: seq<BlockEntity>, sectionCount: nat, minSection: int,
                        table: seq<UInt32>, biomeTable: seq<UInt32>, entities: Bytes): Option<BedrockChunk>
    requires |table| > 0
  {
    match SectionsIn(payload)
    case None => None
    case Some(sections) =>
      var chunk := Chunk(pos, sections, shown);
      if Encodable(chunk, sectionCount, minSection) then
        ReadBack(chunk, sectionCount, minSection, table, biomeTable, entities)
      else None
  }

  // The block that a client finds at a world position is the runtime ID of the
  // state that the server sent for it, at any width, or air for a section that
  // it did not send.
  lemma BlockFromServerToClient(pos: ChunkPos, sections: seq<PackedSection>, blocks: seq<seq<Int32>>,
                                biomes: seq<seq<Int32>>, shown: seq<BlockEntity>, sectionCount: nat, minSection: int,
                                table: seq<UInt32>, biomeTable: seq<UInt32>, entities: Bytes, p: BlockPos)
    requires AllWellPacked(sections) && Sends(sections, blocks, biomes) && 0 < |sections| <= 32 && |table| > 0
    requires 0 < sectionCount <= 32 && -128 <= minSection && minSection + sectionCount <= 128
    requires minSection <= p.y / 16 < minSection + sectionCount
    ensures var read := ReadByClient(PayloadBytes(sections), pos, shown, sectionCount, minSection, table, biomeTable,
                                     entities);
            var k, x, y, z := p.y / 16 - minSection, p.x % 16, p.y % 16, p.z % 16;
            ShowsBlock(read, k, p.y / 16, 256 * x + 16 * z + y,
                       if k < |sections| then BlockNumber(table, blocks[k][256 * y + 16 * z + x]) else table[0])
  {
    hide ShowsBlock, ReadByClient, PayloadBytes, AllWellPacked, Sends, BlockNumber;
    BlockShown(pos, sections, blocks, biomes, shown, sectionCount, minSection, table, biomeTable, entities,
               p.y / 16 - minSection, p.x % 16, p.y % 16, p.z % 16);
  }

  // The same for a block of the k-th section, at local coordinates.
  lemma BlockShown(pos: ChunkPos, sections: seq<PackedSection>, blocks: seq<seq<Int32>>, biomes: seq<seq<Int32>>,
                   shown: seq<BlockEntity>, sectionCount: nat, minSection: int, table: seq<UInt32>,
                   biomeTable: seq<UInt32>, entities: Bytes, k: nat, x: nat, y: nat, z: nat)
    requires AllWellPacked(sections) && Sends(sections, blocks, biomes) && 0 < |sections| <= 32 && |table| > 0
    requires 0 < sectionCount <= 32 && -128 <= minSection && minSection + sectionCount <= 128
    requires k < sectionCount && x < 16 && y < 16 && z < 16
    ensures var read := ReadByClient(PayloadBytes(sections), pos, shown, sectionCount, minSection, table, biomeTable,
                                     entities);
            ShowsBlock(read, k, minSection + k, 256 * x + 16 * z + y,
                       if k < |sections| then BlockNumber(table, blocks[k][256 * y + 16 * z + x]) else table[0])
  {
    hide ReadBack, SectionValues, WellPacked, PayloadBytes, Encodable, AllUnpacked, SectionsIn, AllWellPacked, Sends,
         BlockNumber, SectionOf;
    SectionsInInverts(sections);
    var chunk := Chunk(pos, AllUnpacked(sections), shown);
    UnpackedIsEncodable(pos, sections, shown, sectionCount, minSection);
    ReadBackSubChunk(chunk, sectionCount, minSection, table, biomeTable, entities, k);
    UnpackedBlock(pos, sections, blocks, biomes, shown, table, k, x, y, z);
  }

  lemma UnpackedBlock(pos: ChunkPos, sections: seq<PackedSection>, blocks: seq<seq<Int32>>, biomes: seq<seq<Int32>>,
                      shown: seq<BlockEntity>, table: seq<UInt32>, k: nat, x: nat, y: nat, z: nat)
    requires AllWellPacked(sections) && Sends(sections, blocks, biomes) && |table| > 0 && x < 16 && y < 16 && z < 16
    ensures SectionValues(table, SectionOf(Chunk(pos, AllUnpacked(sections), shown), k))[256 * x + 16 * z + y]
            == if k < |sections| then BlockNumber(table, blocks[k][256 * y + 16 * z + x]) else table[0]
  {
    hide SectionValues, XzyIndex, YzxIndex, WellPacked, BlockImage, BlockNumber, AllUnpacked, StandsFor;
    BlockPlaces(x, y, z);
    SectionValuesAt(table, SectionOf(Chunk(pos, AllUnpacked(sections), shown), k), x, y, z);
    if k < |sections| {
      SentIsUnpacked(sections, blocks, biomes, k);
      BlockOfState(table, blocks[k], x, y, z);
    }
  }

  lemma BlockOfState(table: seq<UInt32>, blocks: seq<Int32>, x: nat, y: nat, z: nat)
    requires |table| > 0 && |blocks| == 4096 && x < 16 && y < 16 && z < 16
    ensures BlockImage(table, blocks[YzxIndex(x, y, z)]) == BlockNumber(table, blocks[256 * y + 16 * z + x])
  {}

  // The biome that a client finds at a block is the image of the one that the
  // server sent for the 4x4x4 cell around it.
  lemma BiomeFromServerToClient(pos: ChunkPos, sections: seq<PackedSection>, blocks: seq<seq<Int32>>,
                                biomes: seq<seq<Int32>>, shown: seq<BlockEntity>, sectionCount: nat, minSection: int,
                                table: seq<UInt32>, biomeTable: seq<UInt32>, entities: Bytes,
                                k: nat, x: nat, y: nat, z: nat)
    requires AllWellPacked(sections) && Sends(sections, blocks, biomes) && 0 < |sections| <= 32 && |table| > 0
    requires 0 < sectionCount <= 32 && -128 <= minSection && minSection + sectionCount <= 128
    requires k < sectionCount && x < 16 && y < 16 && z < 16
    ensures var read := ReadByClient(PayloadBytes(sections), pos, shown, sectionCount, minSection, table, biomeTable,
                                     entities);
            ShowsBiome(read, k, 256 * x + 16 * z + y,
                       if k < |sections| then BiomeNumber(biomeTable, BiomeAround(biomes[k], x, y, z)) else 0)
  {
    hide ReadBack, WellPacked, PayloadBytes, Encodable, SectionsIn, AllUnpacked, BiomeNumber, BiomeAround, StandsFor;
    SectionsInInverts(sections);
    var chunk := Chunk(pos, AllUnpacked(sections), shown);
    UnpackedIsEncodable(pos, sections, shown, sectionCount, minSection);
    BiomeAtBlock(chunk, sectionCount, minSection, table, biomeTable, entities, k, x, y, z);
    if k < |sections| { SentIsUnpacked(sections, blocks, biomes, k); }
  }

  // ----- what is rejected ----------------------------------------------------

  lemma {:induction false} TooManyFor(sections: seq<PackedSection>, limit: nat)
    requires AllWellPacked(sections) && |sections| > limit
    ensures ReadSections(PayloadBytes(sections), limit).None?
    decreases limit
  {
    hide ReadSection, SectionBytes, SectionWellPacked;
    SectionHasBytes(sections[0]);
    if limit > 0 {
      SectionRoundTrip(sections[0], PayloadBytes(sections[1..]));
      TooManyFor(sections[1..], limit - 1);
    }
  }

  // Data without a section is rejected, and data with more than 32.
  lemma SectionsAreBounded(sections: seq<PackedSection>)
    requires AllWellPacked(sections) && (sections == [] || |sections| > 32)
    ensures SectionsIn(PayloadBytes(sections)).None?
  {
    hide SectionBytes, ReadSections;
    if sections != [] {
      SectionHasBytes(sections[0]);
      TooManyFor(sections, 32);
    }
  }
}
