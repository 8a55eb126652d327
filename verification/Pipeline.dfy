/** From a schematic to what a client sees: load.go, world.go and protocol766_data.go together. */
module Pipeline {
  import opened Bits
  import opened Wrappers
  import opened World
  import opened Schematic
  import opened ChunkData
  import opened LegacyChunks

  /** What a client should see at a block: the schematic's block, palette entry 0 in the rest
      of a section the schematic reaches into, air elsewhere. */
  ghost function ExpectedState(v: View, d: SpongeSchematic, ids: seq<uint32>, x: int32, y: int32, z: int32): uint32
    requires |ids| == Volume(d)
  {
    match ExpectedCell(d, ids, x, y, z)
    case Some(id) => BlockStateForProtocol(v, id)
    case None => 0
  }

  /** The sections a dimension sends: SectionCount of them from FirstSection up. */
  function FirstSection(d: Dimension): int {
    TruncDiv(d.minY, 16)
  }

  lemma StoredCell(chunks: map<ChunkPos, Chunk>, v: View, l: Loc)
    requires WellFormed(chunks) && l.pos in chunks && 0 <= l.index < SECTION_CELLS
    ensures Cells(v, SectionAt(chunks[l.pos].sections, l.y))[l.index] ==
      match CellAt(chunks, l)
      case Some(id) => BlockStateForProtocol(v, id)
      case None => 0
  {}

  /** The chunk a block is in has been stored exactly if the schematic reaches under or over it. */
  lemma ChunkPresent(chunks: map<ChunkPos, Chunk>, d: SpongeSchematic, ids: seq<uint32>, pos: ChunkPos)
    requires |ids| == Volume(d) && d.height > 0 && HoldsSchematic(chunks, d, ids)
    ensures pos in chunks <==> MeetsBox(d, pos, 0)
  {
    if pos in chunks {
      var s := chunks[pos].sections[0];
      SectionAtUnique(chunks[pos].sections, s);
      assert CellAt(chunks, Loc(pos, s.y, 0)).Some?;
    }
    if MeetsBox(d, pos, 0) {
      var x: int32, z: int32 := pos.x * 16, pos.z * 16;
      FloorDivExact(x); FloorDivExact(0); FloorDivExact(z);
      assert Locate(x, 0, z).pos == pos;
      assert CellAt(chunks, Locate(x, 0, z)) == ExpectedCell(d, ids, x, 0, z);
    }
  }

  /** The bytes EncodeChunkDataModern returns for a stored chunk, read back by the client. */
  function ClientChunk(v: View, cfg: ModernConfig, world: MemoryWorld, chunk: Chunk): Option<seq<SeenSection>> {
    var n := SectionCount(world.dimension);
    DecodeSections(EncodeSections(v, chunk.sections, FirstSection(world.dimension), n, cfg), n, cfg)
  }

  /** The section of the client's chunk that a block is in. */
  function ClientSection(v: View, cfg: ModernConfig, world: MemoryWorld, pos: ChunkPos, y: int): Option<SeenSection> {
    if pos !in world.chunks then None
    else match ClientChunk(v, cfg, world, world.chunks[pos])
      case None => None
      case Some(sections) =>
        var k := y / 16 - FirstSection(world.dimension);
        if 0 <= k < |sections| then Some(sections[k]) else None
  }

  ghost predicate Covered(world: MemoryWorld, y: int) {
    FirstSection(world.dimension) <= y / 16 < FirstSection(world.dimension) + SectionCount(world.dimension)
  }

  /** The stored section a block is in. */
  function StoredSection(world: MemoryWorld, pos: ChunkPos, y: int): Option<Section> {
    if pos in world.chunks then SectionAt(world.chunks[pos].sections, y / 16) else None
  }

  lemma ClientSees(v: View, cfg: ModernConfig, world: MemoryWorld, pos: ChunkPos, y: int)
    requires WellFormed(world.chunks) && pos in world.chunks
    ensures ClientSection(v, cfg, world, pos, y)
            == if Covered(world, y) then Some(Seen(v, StoredSection(world, pos, y))) else None
  {
    hide EncodeSections, DecodeSections, Seen;
    ChunkRoundTrip(v, world.chunks[pos].sections, FirstSection(world.dimension), SectionCount(world.dimension), cfg);
  }

  lemma SeenCellIs(v: View, section: Option<Section>, i: nat)
    requires |Ids(section)| <= SECTION_CELLS && i < SECTION_CELLS && |Palette(v, section)| <= 16
    ensures Seen(v, section).cells[i] == Cells(v, section)[i]
  {
    SeenExactlyUpToSixteen(v, section);
  }

  lemma SeenHeaderIs(v: View, section: Option<Section>)
    requires |Ids(section)| <= SECTION_CELLS
    ensures Seen(v, section).nonAir == NonZero(Cells(v, section))
    ensures Seen(v, section).fluids == 0 && Seen(v, section).biome == 0
  {
    NonZeroCells(v, section);
  }

  /** Every block of a stored chunk, inside the schematic or not, is shown as it should be: the
      dimension must cover its height and its section have at most sixteen states.  The section's
      header always counts the blocks that are not air and no fluids, and its biome is the first. */
  lemma SchematicToClient(v: View, cfg: ModernConfig, world: MemoryWorld,
                          d: SpongeSchematic, ids: seq<uint32>, x: int32, y: int32, z: int32)
    requires |ids| == Volume(d) && HoldsSchematic(world.chunks, d, ids) && Exact(x, y, z)
    requires ChunkPos(x / 16, z / 16) in world.chunks
    ensures var pos := ChunkPos(x / 16, z / 16);
      var seen, section := ClientSection(v, cfg, world, pos, y), StoredSection(world, pos, y);
      && (seen.Some? <==> Covered(world, y))
      && (seen.Some? ==> seen.value.nonAir == NonZero(Cells(v, section)))
      && (seen.Some? ==> seen.value.fluids == 0 && seen.value.biome == 0)
      && (seen.Some? && |Palette(v, section)| <= 16 ==>
            seen.value.cells[SectionIndexInChunk(x % 16, y % 16, z % 16)] == ExpectedState(v, d, ids, x, y, z))
  {
    hide ClientSection, Seen, NonZero, Cells, Palette, Locate;
    var l := Locate(x, y, z);
    LocateExact(x, y, z);
    var section := StoredSection(world, l.pos, y);
    ClientSees(v, cfg, world, l.pos, y);
    SeenHeaderIs(v, section);
    if |Palette(v, section)| <= 16 {
      SeenCellIs(v, section, l.index);
    }
    StoredCell(world.chunks, v, l);
    assert CellAt(world.chunks, l) == ExpectedCell(d, ids, x, y, z);
  }

  /** With no dimension given, rounding the height up covers every block of the schematic. */
  lemma DefaultDimensionCovers(world: MemoryWorld, d: SpongeSchematic, opts: Options, x: int, y: int, z: int)
    requires opts.dimension.name == "" && opts.dimension.environment == Unset && InBox(d, x, y, z)
    requires world.dimension == ResolvedDimension(opts.dimension, d.height)
    ensures Covered(world, y)
  {
    HeightRoundsUp(d.height);
  }

  // ----- in terms of the table alone

  type Table = (int32, BlockState) -> Option<uint32>

  /** A cell shows a block state: as the table has it, or air if the table does not know it. */
  predicate Shows(table: Table, protocol: int32, state: BlockState, cell: uint32) {
    match table(protocol, state)
    case Some(s) => cell == s
    case None => cell == 0
  }

  predicate ShowsId(table: Table, protocol: int32, palette: seq<BlockState>, id: uint32, cell: uint32) {
    if id < |palette| then Shows(table, protocol, palette[id], cell) else cell == 0
  }

  /** Air and the blocks of a section are together at most sixteen states. */
  ghost predicate FewStates(table: Table, protocol: int32, palette: seq<BlockState>, ids: seq<uint32>) {
    exists few: set<uint32> :: |few| <= 16 && CoveredBy(table, protocol, palette, ids, few)
  }

  ghost predicate CoveredBy(table: Table, protocol: int32, palette: seq<BlockState>, ids: seq<uint32>, few: set<uint32>) {
    0 in few && forall i | 0 <= i < |ids| :: exists cell | cell in few :: ShowsId(table, protocol, palette, ids[i], cell)
  }

  /** That is what the encoders send, and no other cell shows the same block. */
  lemma SentIsShown(table: Table, protocol: int32, palette: seq<BlockState>, id: uint32)
    ensures ShowsId(table, protocol, palette, id, BlockStateForProtocol(View(table, protocol, palette), id))
    ensures forall cell | ShowsId(table, protocol, palette, id, cell) ::
      cell == BlockStateForProtocol(View(table, protocol, palette), id)
  {}

  lemma FewAreSixteen(table: Table, protocol: int32, palette: seq<BlockState>, section: Option<Section>)
    ensures var v := View(table, protocol, palette);
      FewStates(table, protocol, palette, Ids(section)) <==> |ChunkData.Palette(v, section)| <= 16
  {
    var v, ids := View(table, protocol, palette), Ids(section);
    var p := ChunkData.Palette(v, section);
    LocalPaletteProperties(States(v, ids));
    var all := SetOf(p);
    DistinctSize(p);
    forall i | 0 <= i < |ids|
      ensures exists cell | cell in all :: ShowsId(table, protocol, palette, ids[i], cell)
    {
      SentIsShown(table, protocol, palette, ids[i]);
      assert States(v, ids)[i] in States(v, ids);
      assert States(v, ids)[i] in all;
    }
    assert CoveredBy(table, protocol, palette, ids, all);
    if few: set<uint32> :| |few| <= 16 && CoveredBy(table, protocol, palette, ids, few) {
      forall x | x in all
        ensures x in few
      {
        InTheFew(table, protocol, palette, ids, few, x);
      }
      SmallerSet(all, few);
    }
  }

  lemma InTheFew(table: Table, protocol: int32, palette: seq<BlockState>, ids: seq<uint32>, few: set<uint32>, x: uint32)
    requires CoveredBy(table, protocol, palette, ids, few)
    requires x == 0 || x in States(View(table, protocol, palette), ids)
    ensures x in few
  {
    if x != 0 {
      var i :| 0 <= i < |ids| && States(View(table, protocol, palette), ids)[i] == x;
      var cell :| cell in few && ShowsId(table, protocol, palette, ids[i], cell);
      SentIsShown(table, protocol, palette, ids[i]);
    }
  }

  function SetOf(p: seq<uint32>): set<uint32> {
    set x | x in p
  }

  lemma {:induction false} DistinctSize(p: seq<uint32>)
    requires ChunkData.Distinct(p)
    ensures |SetOf(p)| == |p|
  {
    if p != [] {
      var n := |p| - 1;
      DistinctSize(p[..n]);
      assert p == p[..n] + [p[n]];
      assert p[n] !in p[..n];
      assert SetOf(p) == SetOf(p[..n]) + {p[n]};
    }
  }

  lemma {:induction false} SmallerSet(a: set<uint32>, b: set<uint32>)
    requires a <= b
    ensures |a| <= |b|
  {
    if a != {} {
      var x :| x in a;
      SmallerSet(a - {x}, b - {x});
    }
  }

  /** The id the schematic has at a block. */
  ghost function BlockId(d: SpongeSchematic, x: int, y: int, z: int): uint32
    requires DecodeIds(d.blockData).Ok? && |DecodeIds(d.blockData).value| == Volume(d) && InBox(d, x, y, z)
  {
    IndexInRange(d, x, y, z);
    DecodeIds(d.blockData).value[Index(d, x, y, z)]
  }

  /** End to end with the default dimension: every block of a loaded schematic is in a section the
      client reads, and if that section has at most sixteen states, the client is shown what the table
      has for the palette entry of the block's id. */
  lemma EveryBlockReachesTheClient(table: Table, cfg: ModernConfig, world: MemoryWorld,
                                   d: SpongeSchematic, opts: Options, x: int32, y: int32, z: int32)
    requires Loads(d, opts, world) && InBox(d, x, y, z)
    requires opts.dimension.name == "" && opts.dimension.environment == Unset
    ensures BlockId(d, x, y, z) < |world.palette|
    ensures var pos := ChunkPos(x / 16, z / 16);
      var seen := ClientSection(WorldView(table, world, cfg), cfg, world, pos, y);
      && seen.Some?
      && (FewStates(table, cfg.dataProtocolID, world.palette, Ids(StoredSection(world, pos, y))) ==>
            Shows(table, cfg.dataProtocolID, world.palette[BlockId(d, x, y, z)],
                  seen.value.cells[SectionIndexInChunk(x % 16, y % 16, z % 16)]))
  {
    var pos, ids, v := ChunkPos(x / 16, z / 16), DecodeIds(d.blockData).value, WorldView(table, world, cfg);
    IndexInRange(d, x, y, z);
    assert ids[Index(d, x, y, z)] in ids;
    ViewOfWorld(table, world, cfg);
    FewAreSixteen(table, cfg.dataProtocolID, world.palette, StoredSection(world, pos, y));
    SentIsShown(table, cfg.dataProtocolID, world.palette, BlockId(d, x, y, z));
    hide ClientSection, ChunkData.Palette, Locate, HoldsSchematic, FewStates, BlockStateForProtocol, WorldView;
    ChunkPresent(world.chunks, d, ids, pos);
    DefaultDimensionCovers(world, d, opts, x, y, z);
    SchematicToClient(v, cfg, world, d, ids, x, y, z);
  }

  lemma ViewOfWorld(table: Table, world: MemoryWorld, cfg: ModernConfig)
    ensures WorldView(table, world, cfg) == View(table, cfg.dataProtocolID, world.palette)
  {}

  /** A palette key that shares its id with no other is the block's: the state the table is asked for
      has the name and the properties the key is written with. */
  lemma EntryIsWritten(d: SpongeSchematic, opts: Options, world: MemoryWorld, name: string,
                       properties: seq<Property>, bare: bool)
    requires Loads(d, opts, world) && Writable(name, properties)
    requires var raw := if bare then name else StateText(name, properties);
      raw in d.palette && forall other | other in d.palette && d.palette[other] == d.palette[raw] :: other == raw
    ensures var id := d.palette[if bare then name else StateText(name, properties)];
      && 0 <= id < |world.palette| && Named(world.palette[id].name, name)
      && HoldsAll(world.palette[id].properties, if bare then [] else properties)
  {
    hide ParseBlockState, HoldsSchematic;
    var raw := if bare then name else StateText(name, properties);
    var id := d.palette[raw];
    assert EntryFrom(d.palette, id, world.palette[id]);
    StateTextParses(name, properties);
    BareNameParses(name);
  }

  // ----- the legacy formats

  /** Where a reader driven by the mask has the section with this Y. */
  function ReadAt(ys: seq<int>, y: int): (k: Option<nat>)
    ensures k.Some? ==> k.value < |ys| && ys[k.value] == y
    ensures k.None? ==> y !in ys
  {
    if ys == [] then None
    else if ys[|ys| - 1] == y then Some(|ys| - 1)
    else ReadAt(ys[..|ys| - 1], y)
  }

  /** End to end for protocol 47, the paletted and the flat formats: of a chunk sent with its own mask,
      a block of the schematic is in a section that is read if and only if it is below 256, and if the
      format can hold the section's states, the client is shown what the table has for the block. */
  lemma EveryBlockReachesALegacyClient(f: Format, table: Table, protocol: int32, world: MemoryWorld, mask: bv32,
                                       trailer: seq<byte>, d: SpongeSchematic, opts: Options,
                                       x: int32, y: int32, z: int32)
    requires Loads(d, opts, world) && InBox(d, x, y, z)
    requires var pos := ChunkPos(x / 16, z / 16);
      pos in world.chunks ==> forall b | 0 <= b < 16 :: HasBit(mask, b) <==> SectionAt(world.chunks[pos].sections, b).Some?
    ensures BlockId(d, x, y, z) < |world.palette| && ChunkPos(x / 16, z / 16) in world.chunks
    ensures var v, chunk := View(table, protocol, world.palette), world.chunks[ChunkPos(x / 16, z / 16)];
      var section, k := SectionAt(chunk.sections, y / 16), ReadAt(SetBits(mask, 16), y / 16);
      var r := DecodeMasked(f, mask, EncodeMasked(f, v, chunk, mask, 16) + trailer);
      && r.Some? && r.value.1 == trailer && (k.Some? <==> y < 256)
      && (k.Some? ==> k.value < |r.value.0|)
      && (k.Some? && CanHold(f, table, protocol, world.palette, Ids(section)) ==>
            Shows(table, protocol, world.palette[BlockId(d, x, y, z)],
                  r.value.0[k.value].cells[SectionIndexInChunk(x % 16, y % 16, z % 16)]))
  {
    var v, pos := View(table, protocol, world.palette), ChunkPos(x / 16, z / 16);
    StoredBlock(v, world, d, opts, x, y, z);
    SentIsShown(table, protocol, world.palette, BlockId(d, x, y, z));
    hide DecodeMasked, EncodeMasked, Keeps, Cells, HasBit, CanHold, BlockStateForProtocol, BlockId, Loads, FewStates;
    var section := SectionAt(world.chunks[pos].sections, y / 16);
    if CanHold(f, table, protocol, world.palette, Ids(section)) {
      CanHoldKeeps(f, table, protocol, world.palette, section);
    }
    LegacyChunkRoundTrip(f, v, world.chunks[pos], mask, trailer);
  }

  /** Where a loaded block is stored, and what is sent for it. */
  lemma StoredBlock(v: View, world: MemoryWorld, d: SpongeSchematic, opts: Options, x: int32, y: int32, z: int32)
    requires Loads(d, opts, world) && InBox(d, x, y, z)
    ensures BlockId(d, x, y, z) < |world.palette| && ChunkPos(x / 16, z / 16) in world.chunks
    ensures var section := SectionAt(world.chunks[ChunkPos(x / 16, z / 16)].sections, y / 16);
      && section.Some?
      && Cells(v, section)[SectionIndexInChunk(x % 16, y % 16, z % 16)] == BlockStateForProtocol(v, BlockId(d, x, y, z))
    ensures forall s | s in world.chunks[ChunkPos(x / 16, z / 16)].sections :: |s.ids| <= SECTION_CELLS
  {
    var ids, l, pos := DecodeIds(d.blockData).value, Locate(x, y, z), ChunkPos(x / 16, z / 16);
    IndexInRange(d, x, y, z);
    assert ids[Index(d, x, y, z)] in ids;
    LocateExact(x, y, z);
    hide Cells, Locate, BlockStateForProtocol;
    ChunkPresent(world.chunks, d, ids, pos);
    assert CellAt(world.chunks, l) == ExpectedCell(d, ids, x, y, z);
    StoredCell(world.chunks, v, l);
  }

  /** Shorts hold states below 65536, the paletted formats at most sixteen states. */
  ghost predicate CanHold(f: Format, table: Table, protocol: int32, palette: seq<BlockState>, ids: seq<uint32>) {
    match f
    case Shorts47 =>
      forall i, cell | 0 <= i < |ids| && ShowsId(table, protocol, palette, ids[i], cell) :: cell < 0x1_0000
    case _ => FewStates(table, protocol, palette, ids)
  }

  lemma CanHoldKeeps(f: Format, table: Table, protocol: int32, palette: seq<BlockState>, section: Option<Section>)
    requires CanHold(f, table, protocol, palette, Ids(section))
    ensures Keeps(f, View(table, protocol, palette), section)
  {
    FewAreSixteen(table, protocol, palette, section);
    hide ChunkData.Palette, FewStates;
    var v := View(table, protocol, palette);
    forall i | 0 <= i < SECTION_CELLS && f == Shorts47
      ensures Cells(v, section)[i] < 0x1_0000
    {
      if i < |Ids(section)| {
        SentIsShown(table, protocol, palette, Ids(section)[i]);
      }
    }
  }
}
