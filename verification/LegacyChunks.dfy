/** Chunk bodies driven by a section mask: protocol47.go, protocol340.go and protocol_flat.go. */
module LegacyChunks {
  import opened Bits
  import opened Wrappers
  import opened World
  import opened Wire
  import opened Codec
  import opened ChunkData

  // ----- the section mask

  /** The mask with only bit y set. */
  function Bit(y: int): bv32
    requires 0 <= y < 16
  {
    match y
    case 0 => 0x1 case 1 => 0x2 case 2 => 0x4 case 3 => 0x8
    case 4 => 0x10 case 5 => 0x20 case 6 => 0x40 case 7 => 0x80
    case 8 => 0x100 case 9 => 0x200 case 10 => 0x400 case 11 => 0x800
    case 12 => 0x1000 case 13 => 0x2000 case 14 => 0x4000 case _ => 0x8000
  }

  function HasBit(mask: bv32, y: int): bool
    requires 0 <= y < 16
  {
    Overlap(mask, Bit(y))
  }

  function Overlap(a: bv32, b: bv32): bool {
    a & b != 0
  }

  lemma OverlapOr(m: bv32, a: bv32, b: bv32)
    ensures Overlap(m | a, b) <==> Overlap(m, b) || Overlap(a, b)
  {
    AndDistributes(m, a, b);
    OrIsZero(m & b, a & b);
  }

  lemma AndDistributes(m: bv32, a: bv32, b: bv32)
    ensures (m | a) & b == (m & b) | (a & b)
  {}

  lemma OrIsZero(x: bv32, y: bv32)
    ensures x | y == 0 <==> x == 0 && y == 0
  {}

  lemma BitsDistinct(a: int, b: int)
    requires 0 <= a < 16 && 0 <= b < 16
    ensures Overlap(Bit(a), Bit(b)) <==> a == b
  {}

  lemma OrBit(mask: bv32, a: int, b: int)
    requires 0 <= a < 16 && 0 <= b < 16
    ensures HasBit(mask | Bit(a), b) <==> HasBit(mask, b) || a == b
  {
    hide Bit, Overlap;
    BitsDistinct(a, b);
    OverlapOr(mask, Bit(a), Bit(b));
  }

  /** The mask loop of writeMapChunk47, writeMapChunk340 and writeMapChunkFlat. */
  method SectionMask(chunk: Chunk) returns (mask: bv32)
    ensures forall y | 0 <= y < 16 :: HasBit(mask, y) <==> SectionAt(chunk.sections, y).Some?
  {
    hide HasBit, Bit, WithBit;
    mask := 0;
    NoBits();
    for i := 0 to |chunk.sections|
      invariant forall y | 0 <= y < 16 :: HasBit(mask, y) <==> SectionAt(chunk.sections[..i], y).Some?
    {
      var y := chunk.sections[i].y;
      assert chunk.sections[..i + 1] == chunk.sections[..i] + [chunk.sections[i]];
      forall b | 0 <= b < 16
        ensures SectionAt(chunk.sections[..i + 1], b).Some? <==> SectionAt(chunk.sections[..i], b).Some? || y == b
      {
        SectionAtSnoc(chunk.sections[..i], chunk.sections[i], b);
      }
      ghost var was := mask;
      if 0 <= y < 16 {
        OrBits(mask, y);
        mask := WithBit(mask, y);
        assert forall b | 0 <= b < 16 :: HasBit(mask, b) <==> HasBit(was, b) || y == b;
      }
    }
    assert chunk.sections[..|chunk.sections|] == chunk.sections;
  }

  function WithBit(mask: bv32, y: int): bv32
    requires 0 <= y < 16
  {
    mask | Bit(y)
  }

  lemma OrBits(mask: bv32, y: int)
    requires 0 <= y < 16
    ensures forall b | 0 <= b < 16 :: HasBit(WithBit(mask, y), b) <==> HasBit(mask, b) || y == b
  {
    forall b | 0 <= b < 16
      ensures HasBit(WithBit(mask, y), b) <==> HasBit(mask, b) || y == b
    {
      OrBit(mask, y, b);
    }
  }

  lemma NoBits()
    ensures forall y | 0 <= y < 16 :: !HasBit(0, y)
  {}

  lemma {:induction false} SectionAtSnoc(sections: seq<Section>, s: Section, y: int)
    ensures SectionAt(sections + [s], y).Some? <==> SectionAt(sections, y).Some? || s.y == y
  {
    if sections != [] {
      var more := sections[1..];
      assert sections + [s] == [sections[0]] + (more + [s]);
      assert (sections + [s])[1..] == more + [s];
      SectionAtSnoc(more, s, y);
    }
  }

  /** The set bits below n, in ascending order. */
  function SetBits(mask: bv32, n: nat): (ys: seq<int>)
    requires n <= 16
    ensures forall y :: y in ys <==> 0 <= y < n && HasBit(mask, y)
    ensures forall i, j | 0 <= i < j < |ys| :: ys[i] < ys[j]
  {
    if n == 0 then []
    else
      var below := SetBits(mask, n - 1);
      assert forall i | 0 <= i < |below| :: below[i] in below;
      below + if HasBit(mask, n - 1) then [n - 1] else []
  }

  function Selected(sections: seq<Section>, ys: seq<int>): (r: seq<Option<Section>>)
    ensures |r| == |ys| && forall k | 0 <= k < |ys| :: r[k] == SectionAt(sections, ys[k])
  {
    seq(|ys|, k requires 0 <= k < |ys| => SectionAt(sections, ys[k]))
  }

  lemma SelectedStep(sections: seq<Section>, mask: bv32, y: nat)
    requires y < 16
    ensures Selected(sections, SetBits(mask, y + 1))
            == Selected(sections, SetBits(mask, y)) + if HasBit(mask, y) then [SectionAt(sections, y)] else []
  {
    hide HasBit;
    var before, after := SetBits(mask, y), SetBits(mask, y + 1);
    if HasBit(mask, y) {
      assert after == before + [y];
      assert Selected(sections, after) == Selected(sections, before) + [SectionAt(sections, y)];
    } else {
      assert after == before;
    }
  }

  // ----- the three section formats

  datatype Format = Shorts47 | Packed340 | FlatSolid

  function Zeroes(n: nat): (r: seq<byte>)
    ensures |r| == n
  {
    seq(n, _ => 0)
  }

  function ShortBytes(state: uint32): seq<byte> {
    BigEndian(2, Uint16(state))
  }

  function EncodeLegacySection(f: Format, v: View, section: Option<Section>): seq<byte> {
    match f
    case Shorts47 => EncodeAll(ShortBytes, Cells(v, section)) + Zeroes(6144)
    case Packed340 => EncodeBlockStates(v, section, false) + Zeroes(4096)
    case FlatSolid => ShortBytes(NonZero(States(v, Ids(section))) % 0x1_0000) + EncodeBlockStates(v, section, false)
  }

  function LegacyEncoder(f: Format, v: View): Option<Section> -> seq<byte> {
    section => EncodeLegacySection(f, v, section)
  }

  /** The sections whose bits are set below n, written one after another. */
  function EncodeMasked(f: Format, v: View, chunk: Chunk, mask: bv32, n: nat): seq<byte>
    requires n <= 16
  {
    EncodeAll(LegacyEncoder(f, v), Selected(chunk.sections, SetBits(mask, n)))
  }

  lemma EncodeMaskedStep(f: Format, v: View, chunk: Chunk, mask: bv32, y: nat)
    requires y < 16
    ensures EncodeMasked(f, v, chunk, mask, y + 1) == EncodeMasked(f, v, chunk, mask, y)
            + if HasBit(mask, y) then EncodeLegacySection(f, v, SectionAt(chunk.sections, y)) else []
  {
    hide EncodeLegacySection, HasBit;
    SelectedStep(chunk.sections, mask, y);
    var before := Selected(chunk.sections, SetBits(mask, y));
    var after := Selected(chunk.sections, SetBits(mask, y + 1));
    if HasBit(mask, y) {
      EncodeAllSnoc(LegacyEncoder(f, v), after, |before|);
      assert after[..|before|] == before && after[..|before| + 1] == after;
      assert after[|before|] == SectionAt(chunk.sections, y);
    } else {
      assert after == before;
    }
  }

  // ----- the writers

  method EncodeChunkData47(v: View, chunk: Chunk, sectionMask: bv32) returns (bytes: seq<byte>)
    ensures bytes == EncodeMasked(Shorts47, v, chunk, sectionMask, 16) + Zeroes(256)
  {
    hide EncodeMasked, HasBit, Zeroes;
    var data := new Buffer();
    NothingMasked(Shorts47, v, chunk, sectionMask);
    for y := 0 to 16
      invariant data.contents == EncodeMasked(Shorts47, v, chunk, sectionMask, y)
    {
      EncodeMaskedStep(Shorts47, v, chunk, sectionMask, y);
      if HasBit(sectionMask, y) {
        var section := FindSection(chunk, y);
        WriteShorts(data, v, section);
        data.Write(Zeroes(2048));
        data.Write(Zeroes(2048));
        data.Write(Zeroes(2048));
        ZeroesAdd();
      }
    }
    data.Write(Zeroes(256));
    return data.contents;
  }

  lemma NothingMasked(f: Format, v: View, chunk: Chunk, mask: bv32)
    ensures EncodeMasked(f, v, chunk, mask, 0) == []
  {
    assert SetBits(mask, 0) == [];
    assert Selected(chunk.sections, []) == [];
  }

  lemma ZeroesAdd()
    ensures Zeroes(2048) + Zeroes(2048) == Zeroes(4096)
    ensures Zeroes(2048) + Zeroes(2048) + Zeroes(2048) == Zeroes(6144)
  {}

  /** The cell loop of encodeChunkData47. */
  method WriteShorts(data: Buffer, v: View, section: Option<Section>)
    modifies data
    ensures data.contents == old(data.contents) + EncodeAll(ShortBytes, Cells(v, section))
  {
    hide ShortBytes, EncodeAll;
    ghost var cells := Cells(v, section);
    EncodeNone(cells);
    for i := 0 to SECTION_CELLS
      invariant data.contents == old(data.contents) + EncodeAll(ShortBytes, cells[..i])
    {
      var state: uint32 := 0;
      if section != None && i < |section.value.ids| {
        state := BlockStateForProtocol(v, section.value.ids[i]);
      }
      WriteState(data, state);
      EncodeAllSnoc(ShortBytes, cells, i);
    }
    assert cells[..SECTION_CELLS] == cells;
  }

  lemma EncodeNone(cells: seq<uint32>)
    ensures EncodeAll(ShortBytes, cells[..0]) == []
  {}

  method WriteState(data: Buffer, state: uint32)
    modifies data
    ensures data.contents == old(data.contents) + ShortBytes(state)
  {
    WriteShort(data, Int16(state));
  }

  method WriteSection340(data: Buffer, v: View, section: Option<Section>)
    modifies data
    ensures data.contents == old(data.contents) + EncodeLegacySection(Packed340, v, section)
  {
    hide ContainerBytes, Zeroes, EncodeAll, PaletteHeader;
    var localPalette := BuildLocalPalette(v, section);
    var indexByState := MakeIndexMap(localPalette);
    var longs := PackSectionPaletteIndices(v, section, indexByState);
    assert longs[..] == PackedLongs(CellNibbles(v, section));
    WriteContainer(data, localPalette, longs, false, CellNibbles(v, section));
    assert data.contents == old(data.contents) + EncodeBlockStates(v, section, false);
    hide EncodeBlockStates;
    WriteLight340(data);
  }

  /** Block light and sky light, all dark. */
  method WriteLight340(data: Buffer)
    modifies data
    ensures data.contents == old(data.contents) + Zeroes(4096)
  {
    hide Zeroes;
    data.Write(Zeroes(2048));
    data.Write(Zeroes(2048));
    ZeroesAdd();
  }

  method EncodeChunkData340(v: View, chunk: Chunk, sectionMask: bv32) returns (bytes: seq<byte>)
    ensures bytes == EncodeMasked(Packed340, v, chunk, sectionMask, 16) + Zeroes(256)
  {
    hide EncodeMasked, EncodeLegacySection, HasBit, Zeroes;
    var data := new Buffer();
    NothingMasked(Packed340, v, chunk, sectionMask);
    for y := 0 to 16
      invariant data.contents == EncodeMasked(Packed340, v, chunk, sectionMask, y)
    {
      EncodeMaskedStep(Packed340, v, chunk, sectionMask, y);
      if HasBit(sectionMask, y) {
        var section := FindSection(chunk, y);
        WriteSection340(data, v, section);
      }
    }
    data.Write(Zeroes(256));
    return data.contents;
  }

  method WriteSectionFlatSolid(data: Buffer, v: View, section: Option<Section>)
    modifies data
    ensures data.contents == old(data.contents) + EncodeLegacySection(FlatSolid, v, section)
  {
    hide EncodeBlockStates, ShortBytes;
    var count := NonAirBlockCount(v, section);
    WriteCount(data, count);
    WriteBlockStates766(data, v, section, false);
  }

  method WriteCount(data: Buffer, count: nat)
    modifies data
    ensures data.contents == old(data.contents) + ShortBytes(count % 0x1_0000)
  {
    WriteShort(data, Int16(count));
  }

  datatype FlatConfig = FlatConfig(chunkSectionSolid: bool, chunkBiomesInData: bool)

  function FlatFormat(cfg: FlatConfig): Format {
    if cfg.chunkSectionSolid then FlatSolid else Packed340
  }

  /** 256 big-endian ones. */
  function FlatBiomes(n: nat): (r: seq<byte>)
    ensures |r| == 4 * n
  {
    if n == 0 then [] else FlatBiomes(n - 1) + BigEndian(4, 1)
  }

  function FlatTrailer(cfg: FlatConfig): seq<byte> {
    if cfg.chunkBiomesInData then FlatBiomes(256) else []
  }

  method EncodeChunkDataFlat(v: View, chunk: Chunk, sectionMask: bv32, cfg: FlatConfig) returns (bytes: seq<byte>)
    ensures bytes == EncodeMasked(FlatFormat(cfg), v, chunk, sectionMask, 16) + FlatTrailer(cfg)
  {
    hide EncodeMasked, EncodeLegacySection, HasBit, BigEndian;
    var data := new Buffer();
    NothingMasked(FlatFormat(cfg), v, chunk, sectionMask);
    for y := 0 to 16
      invariant data.contents == EncodeMasked(FlatFormat(cfg), v, chunk, sectionMask, y)
    {
      EncodeMaskedStep(FlatFormat(cfg), v, chunk, sectionMask, y);
      if HasBit(sectionMask, y) {
        var section := FindSection(chunk, y);
        if cfg.chunkSectionSolid {
          WriteSectionFlatSolid(data, v, section);
        } else {
          WriteSection340(data, v, section);
        }
      }
    }
    if cfg.chunkBiomesInData {
      ghost var before := data.contents;
      for i := 0 to 256
        invariant data.contents == before + FlatBiomes(i)
      {
        WriteInt(data, 1);
      }
    }
    return data.contents;
  }

  // ----- the client's readers

  /** A section as read: the count in its header and the light behind it, if it has them, and its cells. */
  datatype LegacySection = LegacySection(count: Option<nat>, cells: CellSeq, light: seq<byte>)

  function ReadShortBytes(s: seq<byte>): Option<(uint32, seq<byte>)> {
    if |s| < 2 then None
    else
      FromBigEndianRoundTrip(s[..2]);
      PowBytes();
      Some((FromBigEndian(s[..2]), s[2..]))
  }

  function DecodeLegacySection(f: Format, s: seq<byte>): Option<(LegacySection, seq<byte>)> {
    match f
    case Shorts47 => WithLight(6144, DecodeShorts(s))
    case Packed340 => WithLight(4096, DecodeStates(s))
    case FlatSolid =>
      (match ReadShortBytes(s)
       case None => None
       case Some((count, rest)) =>
         match DecodeStates(rest)
         case None => None
         case Some((section, end)) => Some((section.(count := Some(count)), end)))
  }

  function DecodeShorts(s: seq<byte>): Option<(LegacySection, seq<byte>)> {
    match DecodeAll(ReadShortBytes, SECTION_CELLS, s)
    case None => None
    case Some((cells, rest)) => Some((LegacySection(None, cells, []), rest))
  }

  function DecodeStates(s: seq<byte>): Option<(LegacySection, seq<byte>)> {
    match DecodeContainer(s, false)
    case None => None
    case Some((cells, rest)) => Some((LegacySection(None, cells, []), rest))
  }

  function WithLight(n: nat, r: Option<(LegacySection, seq<byte>)>): Option<(LegacySection, seq<byte>)> {
    match r
    case Some((section, rest)) => if n <= |rest| then Some((section.(light := rest[..n]), rest[n..])) else None
    case None => None
  }

  function LegacyDecoder(f: Format): Decoder<LegacySection> {
    s => DecodeLegacySection(f, s)
  }

  /** One section per set bit, and then whatever trails. */
  function DecodeMasked(f: Format, mask: bv32, s: seq<byte>): Option<(seq<LegacySection>, seq<byte>)> {
    DecodeAll(LegacyDecoder(f), |SetBits(mask, 16)|, s)
  }

  function LegacySeen(f: Format, v: View, section: Option<Section>): LegacySection {
    match f
    case Shorts47 => LegacySection(None, LowCells(v, section), Zeroes(6144))
    case Packed340 => LegacySection(None, SeenCells(v, section), Zeroes(4096))
    case FlatSolid => LegacySection(Some(NonZero(States(v, Ids(section))) % 0x1_0000), SeenCells(v, section), [])
  }

  /** The low sixteen bits of each cell's state. */
  function LowCells(v: View, section: Option<Section>): (r: CellSeq)
    ensures forall i | 0 <= i < SECTION_CELLS :: r[i] == Cells(v, section)[i] % 0x1_0000
  {
    seq(SECTION_CELLS, i requires 0 <= i < SECTION_CELLS => Cells(v, section)[i] % 0x1_0000)
  }

  /** Shorts keep every cell exactly when every state fits sixteen bits. */
  lemma LowCellsExact(v: View, section: Option<Section>)
    ensures LowCells(v, section) == Cells(v, section)
            <==> forall i | 0 <= i < SECTION_CELLS :: Cells(v, section)[i] < 0x1_0000
  {
    if LowCells(v, section) == Cells(v, section) {
      forall i | 0 <= i < SECTION_CELLS
        ensures Cells(v, section)[i] < 0x1_0000
      {
        assert Cells(v, section)[i] == LowCells(v, section)[i];
      }
    }
  }

  lemma ShortRoundTrip(state: uint32, tail: seq<byte>)
    ensures ReadShortBytes(ShortBytes(state) + tail) == Some((state % 0x1_0000, tail))
  {
    var s := ShortBytes(state) + tail;
    assert s[..2] == ShortBytes(state) && s[2..] == tail;
    PowBytes();
    BigEndianRoundTrip(2, Uint16(state));
  }

  function Low(state: uint32): uint32 {
    state % 0x1_0000
  }

  lemma ShortsRoundTrip(v: View, section: Option<Section>, suffix: seq<byte>)
    ensures DecodeShorts(EncodeAll(ShortBytes, Cells(v, section)) + suffix)
            == Some((LegacySection(None, LowCells(v, section), []), suffix))
  {
    hide ShortBytes, ReadShortBytes;
    var cells := Cells(v, section);
    forall x | x in cells
      ensures Inverts<uint32, uint32>(ReadShortBytes, ShortBytes, Low, x)
    {
      forall t: seq<byte>
        ensures ReadShortBytes(ShortBytes(x) + t) == Some((Low(x), t))
      {
        ShortRoundTrip(x, t);
      }
    }
    RoundTripAll<uint32, uint32>(ReadShortBytes, ShortBytes, Low, cells, suffix);
    assert DecodeAll(ReadShortBytes, SECTION_CELLS, EncodeAll(ShortBytes, cells) + suffix).value.0
        == LowCells(v, section);
  }

  lemma LegacySectionRoundTrip(f: Format, v: View, section: Option<Section>, suffix: seq<byte>)
    requires |Ids(section)| < 0x8000_0000
    ensures DecodeLegacySection(f, EncodeLegacySection(f, v, section) + suffix)
            == Some((LegacySeen(f, v, section), suffix))
  {
    hide EncodeLegacySection, DecodeLegacySection, LegacySeen;
    match f
    case Shorts47 => Shorts47RoundTrip(v, section, suffix);
    case Packed340 => Packed340RoundTrip(v, section, suffix);
    case FlatSolid => FlatSolidRoundTrip(v, section, suffix);
  }

  lemma Shorts47RoundTrip(v: View, section: Option<Section>, suffix: seq<byte>)
    ensures DecodeLegacySection(Shorts47, EncodeLegacySection(Shorts47, v, section) + suffix)
            == Some((LegacySeen(Shorts47, v, section), suffix))
  {
    hide EncodeAll, DecodeShorts, ShortBytes, Zeroes;
    var tail := Zeroes(6144) + suffix;
    assert EncodeLegacySection(Shorts47, v, section) + suffix == EncodeAll(ShortBytes, Cells(v, section)) + tail;
    ShortsRoundTrip(v, section, tail);
    assert tail[6144..] == suffix && tail[..6144] == Zeroes(6144);
  }

  lemma Packed340RoundTrip(v: View, section: Option<Section>, suffix: seq<byte>)
    requires |Ids(section)| < 0x8000_0000
    ensures DecodeLegacySection(Packed340, EncodeLegacySection(Packed340, v, section) + suffix)
            == Some((LegacySeen(Packed340, v, section), suffix))
  {
    hide EncodeBlockStates, DecodeContainer, SeenCells, Zeroes;
    var tail := Zeroes(4096) + suffix;
    assert EncodeLegacySection(Packed340, v, section) + suffix == EncodeBlockStates(v, section, false) + tail;
    BlockStatesRoundTrip(v, section, false, tail);
    assert tail[4096..] == suffix && tail[..4096] == Zeroes(4096);
  }

  lemma FlatSolidRoundTrip(v: View, section: Option<Section>, suffix: seq<byte>)
    requires |Ids(section)| < 0x8000_0000
    ensures DecodeLegacySection(FlatSolid, EncodeLegacySection(FlatSolid, v, section) + suffix)
            == Some((LegacySeen(FlatSolid, v, section), suffix))
  {
    hide EncodeBlockStates, DecodeContainer, SeenCells, ShortBytes, ReadShortBytes, NonZero;
    var count := NonZero(States(v, Ids(section))) % 0x1_0000;
    var tail := EncodeBlockStates(v, section, false) + suffix;
    assert EncodeLegacySection(FlatSolid, v, section) + suffix == ShortBytes(count) + tail;
    ShortRoundTrip(count, tail);
    BlockStatesRoundTrip(v, section, false, suffix);
  }

  /** A reader driven by the mask gets one section for each set bit, in ascending order of Y, with
      the cells of the section stored there, and stops exactly where the trailing bytes start. */
  lemma MaskedRoundTrip(f: Format, v: View, chunk: Chunk, mask: bv32, trailer: seq<byte>)
    requires forall s | s in chunk.sections :: |s.ids| < 0x8000_0000
    ensures var ys := SetBits(mask, 16);
      var r := DecodeMasked(f, mask, EncodeMasked(f, v, chunk, mask, 16) + trailer);
      && r.Some? && r.value.1 == trailer && |r.value.0| == |ys|
      && forall k | 0 <= k < |ys| :: r.value.0[k] == LegacySeen(f, v, SectionAt(chunk.sections, ys[k]))
  {
    hide EncodeLegacySection, DecodeLegacySection, LegacySeen, HasBit;
    var selected := Selected(chunk.sections, SetBits(mask, 16));
    var enc, dec, img := LegacyEncoder(f, v), LegacyDecoder(f), section => LegacySeen(f, v, section);
    forall section | section in selected
      ensures Inverts(dec, enc, img, section)
    {
      forall t: seq<byte>
        ensures dec(enc(section) + t) == Some((img(section), t))
      {
        LegacySectionRoundTrip(f, v, section, t);
      }
    }
    RoundTripAll(dec, enc, img, selected, trailer);
  }

  /** When a format keeps every state: shorts below 65536, four bits for at most sixteen states. */
  ghost predicate Keeps(f: Format, v: View, section: Option<Section>) {
    match f
    case Shorts47 => forall i | 0 <= i < SECTION_CELLS :: Cells(v, section)[i] < 0x1_0000
    case _ => |Palette(v, section)| <= 16
  }

  lemma LegacySeenExact(f: Format, v: View, section: Option<Section>)
    requires |Ids(section)| <= SECTION_CELLS
    ensures LegacySeen(f, v, section).cells == Cells(v, section) <==> Keeps(f, v, section)
    ensures f.FlatSolid? ==> LegacySeen(f, v, section).count == Some(NonZero(Cells(v, section)))
  {
    hide SeenCells, LowCells, Palette, NonZero, Cells;
    match f
    case Shorts47 => LowCellsExact(v, section);
    case Packed340 => SeenExactlyUpToSixteen(v, section);
    case FlatSolid =>
      SeenExactlyUpToSixteen(v, section);
      CountIsNonAir(v, section);
  }

  /** Dark runs of half a byte a block: three in the shorts format, two in the packed one. */
  function LightBytes(f: Format): nat {
    match f
    case Shorts47 => 3 * 2048
    case Packed340 => 2 * 2048
    case FlatSolid => 0
  }

  lemma LegacyLight(f: Format, v: View, section: Option<Section>)
    ensures LegacySeen(f, v, section).light == Zeroes(LightBytes(f))
  {
    hide LowCells, SeenCells, NonZero;
    assert Zeroes(0) == [];
  }

  lemma CountIsNonAir(v: View, section: Option<Section>)
    requires |Ids(section)| <= SECTION_CELLS
    ensures LegacySeen(FlatSolid, v, section).count == Some(NonZero(Cells(v, section)))
  {
    hide SeenCells, NonZero, Cells;
    NonZeroCells(v, section);
  }

  /** With the mask of the chunk's own sections: what is read is one entry for each stored Y from 0
      to 15 in ascending order, each holding its section's cells exactly when the format keeps them,
      and nothing but the trailing bytes is left. */
  lemma LegacyChunkRoundTrip(f: Format, v: View, chunk: Chunk, mask: bv32, trailer: seq<byte>)
    requires forall s | s in chunk.sections :: |s.ids| <= SECTION_CELLS
    requires forall y | 0 <= y < 16 :: HasBit(mask, y) <==> SectionAt(chunk.sections, y).Some?
    ensures var ys := SetBits(mask, 16);
      var r := DecodeMasked(f, mask, EncodeMasked(f, v, chunk, mask, 16) + trailer);
      && (forall y :: y in ys <==> 0 <= y < 16 && SectionAt(chunk.sections, y).Some?)
      && (forall i, j | 0 <= i < j < |ys| :: ys[i] < ys[j])
      && r.Some? && r.value.1 == trailer && |r.value.0| == |ys|
      && forall k | 0 <= k < |ys| ::
           var section := SectionAt(chunk.sections, ys[k]);
           && (r.value.0[k].cells == Cells(v, section) <==> Keeps(f, v, section))
           && (f.FlatSolid? ==> r.value.0[k].count == Some(NonZero(Cells(v, section))))
           && |r.value.0[k].light| == LightBytes(f) && (forall i | 0 <= i < LightBytes(f) :: r.value.0[k].light[i] == 0)
  {
    hide EncodeMasked, DecodeMasked, LegacySeen, Keeps, Cells, HasBit;
    MaskedRoundTrip(f, v, chunk, mask, trailer);
    var ys := SetBits(mask, 16);
    forall k | 0 <= k < |ys|
      ensures var section := SectionAt(chunk.sections, ys[k]);
        && (LegacySeen(f, v, section).cells == Cells(v, section) <==> Keeps(f, v, section))
        && (f.FlatSolid? ==> LegacySeen(f, v, section).count == Some(NonZero(Cells(v, section))))
        && LegacySeen(f, v, section).light == Zeroes(LightBytes(f))
    {
      LegacyLight(f, v, SectionAt(chunk.sections, ys[k]));
      LegacySeenExact(f, v, SectionAt(chunk.sections, ys[k]));
    }
  }

  // ----- flat chunks

  function ReadIntBytes(s: seq<byte>): Option<(uint32, seq<byte>)> {
    if |s| < 4 then None
    else
      FromBigEndianRoundTrip(s[..4]);
      PowBytes();
      Some((FromBigEndian(s[..4]), s[4..]))
  }

  /** A client's reader: section by section with a count in front or light behind, as its version has
      it, and then 256 biomes if its version has them there. */
  function DecodeFlat(solid: bool, biomes: bool, mask: bv32, s: seq<byte>)
    : Option<(seq<LegacySection>, seq<uint32>, seq<byte>)>
  {
    match DecodeMasked(if solid then FlatSolid else Packed340, mask, s)
    case None => None
    case Some((sections, rest)) =>
      if !biomes then Some((sections, [], rest))
      else match DecodeAll(ReadIntBytes, 256, rest)
        case None => None
        case Some((read, end)) => Some((sections, read, end))
  }

  lemma OneRead(suffix: seq<byte>)
    ensures ReadIntBytes(BigEndian(4, 1) + suffix) == Some((1, suffix))
  {
    PowBytes();
    BigEndianRoundTrip(4, 1);
    var s := BigEndian(4, 1) + suffix;
    assert s[..4] == BigEndian(4, 1) && s[4..] == suffix;
  }

  lemma {:induction false} FlatBiomesCons(n: nat)
    requires n > 0
    ensures FlatBiomes(n) == BigEndian(4, 1) + FlatBiomes(n - 1)
  {
    hide BigEndian;
    if n > 1 {
      FlatBiomesCons(n - 1);
    } else {
      assert FlatBiomes(0) == [];
    }
  }

  lemma {:induction false} BiomesRead(n: nat, suffix: seq<byte>)
    ensures var r := DecodeAll(ReadIntBytes, n, FlatBiomes(n) + suffix);
      r.Some? && r.value.1 == suffix && forall i | 0 <= i < n :: r.value.0[i] == 1
    decreases n
  {
    hide BigEndian, ReadIntBytes;
    if n == 0 {
      assert FlatBiomes(0) + suffix == suffix;
    } else {
      FlatBiomesCons(n);
      assert FlatBiomes(n) + suffix == BigEndian(4, 1) + (FlatBiomes(n - 1) + suffix);
      OneRead(FlatBiomes(n - 1) + suffix);
      BiomesRead(n - 1, suffix);
    }
  }

  /** What a version's flags say is what its client reads: the sections of the mask in its format, all
      their cells if the format keeps them, and 256 times biome 1 or none, to the last byte. */
  lemma FlatChunkRoundTrip(cfg: FlatConfig, v: View, chunk: Chunk, mask: bv32)
    requires forall s | s in chunk.sections :: |s.ids| <= SECTION_CELLS
    requires forall y | 0 <= y < 16 :: HasBit(mask, y) <==> SectionAt(chunk.sections, y).Some?
    ensures var ys := SetBits(mask, 16);
      var r := DecodeFlat(cfg.chunkSectionSolid, cfg.chunkBiomesInData, mask,
                          EncodeMasked(FlatFormat(cfg), v, chunk, mask, 16) + FlatTrailer(cfg));
      && r.Some? && |r.value.0| == |ys| && r.value.2 == []
      && |r.value.1| == (if cfg.chunkBiomesInData then 256 else 0) && (forall i | 0 <= i < |r.value.1| :: r.value.1[i] == 1)
      && forall k | 0 <= k < |ys| ::
           var section := SectionAt(chunk.sections, ys[k]);
           && (r.value.0[k].cells == Cells(v, section) <==> |Palette(v, section)| <= 16)
           && (cfg.chunkSectionSolid ==> r.value.0[k].count == Some(NonZero(Cells(v, section))))
  {
    hide EncodeMasked, DecodeMasked, Cells, HasBit, Palette, NonZero, FlatBiomes, ReadIntBytes;
    LegacyChunkRoundTrip(FlatFormat(cfg), v, chunk, mask, FlatTrailer(cfg));
    BiomesRead(256, []);
    assert FlatBiomes(256) + [] == FlatBiomes(256);
  }
}
