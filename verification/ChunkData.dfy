/** protocol766_data.go: sections as paletted containers, and what a client reads back.

    buildLocalPalette340 and packSectionPaletteIndices340 of protocol340.go have the bodies
    of the modern functions, so BuildLocalPalette and PackSectionPaletteIndices model both. */
module ChunkData {
  import opened Bits
  import opened Wrappers
  import opened World
  import opened Wire
  import opened Codec

  // ----- states

  /** The block-state table (any function), the protocol and the world's palette. */
  datatype View = View(table: (int32, BlockState) -> Option<uint32>, protocol: int32, palette: seq<BlockState>)

  function BlockStateForProtocol(v: View, paletteID: uint32): uint32 {
    if paletteID >= |v.palette| then 0
    else match v.table(v.protocol, v.palette[paletteID])
      case Some(state) => state
      case None => 0
  }

  function States(v: View, ids: seq<uint32>): (r: seq<uint32>)
    ensures |r| == |ids|
    ensures forall i | 0 <= i < |ids| :: r[i] == BlockStateForProtocol(v, ids[i])
  {
    seq(|ids|, i requires 0 <= i < |ids| => BlockStateForProtocol(v, ids[i]))
  }

  function Ids(section: Option<Section>): seq<uint32> {
    match section
    case Some(s) => s.ids
    case None => []
  }

  /** The state of each of the 4096 cells: air where the section is absent or short. */
  function Cells(v: View, section: Option<Section>): (r: seq<uint32>)
    ensures |r| == SECTION_CELLS
    ensures forall i | 0 <= i < SECTION_CELLS ::
      r[i] == if i < |Ids(section)| then BlockStateForProtocol(v, Ids(section)[i]) else 0
  {
    seq(SECTION_CELLS, i requires 0 <= i =>
      if i < |Ids(section)| then BlockStateForProtocol(v, Ids(section)[i]) else 0)
  }

  // ----- the local palette

  /** Air, then every other state in the order it first occurs. */
  function LocalPalette(states: seq<uint32>): (p: seq<uint32>)
    ensures |p| > 0 && p[0] == 0
  {
    if states == [] then [0]
    else
      var p := LocalPalette(states[..|states| - 1]);
      var last := states[|states| - 1];
      if last in p then p else p + [last]
  }

  ghost predicate Distinct(p: seq<uint32>) {
    forall i, j | 0 <= i < j < |p| :: p[i] != p[j]
  }

  lemma {:induction false} LocalPaletteProperties(states: seq<uint32>)
    ensures Distinct(LocalPalette(states))
    ensures forall x: uint32 :: x in LocalPalette(states) <==> x == 0 || x in states
  {
    if states != [] {
      var n := |states| - 1;
      LocalPaletteProperties(states[..n]);
      assert states == states[..n] + [states[n]];
    }
  }

  lemma {:induction false} LocalPaletteSize(states: seq<uint32>)
    ensures |LocalPalette(states)| <= |states| + 1
  {
    if states != [] {
      LocalPaletteSize(states[..|states| - 1]);
    }
  }

  /** A section's local palette has no duplicates, starts with air, and holds exactly its states. */
  function Palette(v: View, section: Option<Section>): (p: seq<uint32>)
    ensures Distinct(p) && 0 < |p| <= |Ids(section)| + 1 && p[0] == 0
    ensures forall x: uint32 :: x in p <==> x == 0 || x in States(v, Ids(section))
  {
    LocalPaletteProperties(States(v, Ids(section)));
    LocalPaletteSize(States(v, Ids(section)));
    LocalPalette(States(v, Ids(section)))
  }

  lemma CellInPalette(v: View, section: Option<Section>, i: nat)
    requires i < SECTION_CELLS
    ensures Cells(v, section)[i] in Palette(v, section)
  {
    if i < |Ids(section)| {
      assert States(v, Ids(section))[i] in States(v, Ids(section));
    }
  }

  method BuildLocalPalette(v: View, section: Option<Section>) returns (local: seq<uint32>)
    ensures local == Palette(v, section)
  {
    var seen: set<uint32> := {0};
    local := [0];
    if section == None {
      return;
    }
    var ids := section.value.ids;
    ghost var states := States(v, ids);
    for i := 0 to |ids|
      invariant local == LocalPalette(states[..i])
      invariant forall x: uint32 :: x in seen <==> x in local
    {
      assert states[..i + 1][..i] == states[..i];
      var state := BlockStateForProtocol(v, ids[i]);
      if state !in seen {
        seen := seen + {state};
        local := local + [state];
      }
    }
    assert states[..|ids|] == states;
  }

  // ----- packing indices

  /** Looking a key up in a Go map: zero if it is missing. */
  function Get(m: map<uint32, nat>, k: uint32): nat {
    if k in m then m[k] else 0
  }

  function Nibbles(cells: seq<uint32>, indexByState: map<uint32, nat>): (r: seq<nat>)
    ensures |r| == |cells| && AreDigits(16, r)
    ensures forall i | 0 <= i < |cells| :: r[i] == Get(indexByState, cells[i]) % 16
  {
    seq(|cells|, i requires 0 <= i < |cells| => Get(indexByState, cells[i]) % 16)
  }

  function Min(a: int, b: int): int {
    if a <= b then a else b
  }

  /** The nibbles before i that belong to word k. */
  function Slot(nibbles: seq<nat>, k: nat, i: nat): (r: seq<nat>)
    requires i <= |nibbles|
  {
    nibbles[Min(16 * k, i)..Min(16 * k + 16, i)]
  }

  lemma WordBound(nibbles: seq<nat>, k: nat, i: nat)
    requires i <= |nibbles| && AreDigits(16, nibbles)
    ensures 0 <= FromDigits(16, Slot(nibbles, k, i)) < 0x1_0000_0000_0000_0000
  {
    var s := Slot(nibbles, k, i);
    FromDigitsBound(16, s);
    PowMonotone(16, |s|, 16);
    Pow16();
  }

  lemma {:induction false} PowMonotone(b: nat, m: nat, n: nat)
    requires b > 0 && m <= n
    ensures Pow(b, m) <= Pow(b, n)
  {
    if m < n {
      PowMonotone(b, m, n - 1);
      PowPositive(b, n - 1);
      MulLeft(Pow(b, n - 1), 1, b);
    }
  }

  lemma Pow16()
    ensures Pow(16, 16) == 0x1_0000_0000_0000_0000
  {
    assert Pow(16, 4) == 0x1_0000;
    PowAdd(16, 4, 4);
    PowAdd(16, 8, 8);
  }

  function PackedWord(nibbles: seq<nat>, k: nat): (w: uint64)
    requires |nibbles| == SECTION_CELLS && AreDigits(16, nibbles)
  {
    WordBound(nibbles, k, SECTION_CELLS);
    FromDigits(16, Slot(nibbles, k, SECTION_CELLS))
  }

  /** Sixteen nibbles a word, the first in the lowest bits. */
  function PackedLongs(nibbles: seq<nat>): (r: seq<uint64>)
    requires |nibbles| == SECTION_CELLS && AreDigits(16, nibbles)
    ensures |r| == 256 && forall k | 0 <= k < 256 :: r[k] == PackedWord(nibbles, k)
  {
    seq(256, k requires 0 <= k => PackedWord(nibbles, k))
  }

  method PackSectionPaletteIndices(v: View, section: Option<Section>, indexByState: map<uint32, nat>)
      returns (longs: array<uint64>)
    ensures fresh(longs) && longs[..] == PackedLongs(Nibbles(Cells(v, section), indexByState))
  {
    hide FromDigits, Slot, Pow;
    ghost var nibbles := Nibbles(Cells(v, section), indexByState);
    longs := new uint64[256](_ => 0);
    NothingPacked(nibbles);
    for i := 0 to SECTION_CELLS
      invariant forall k: nat | k < 256 :: longs[k] == FromDigits(16, Slot(nibbles, k, i))
    {
      var state: uint32 := 0;
      if section != None && i < |section.value.ids| {
        state := BlockStateForProtocol(v, section.value.ids[i]);
      }
      var paletteIndex := Get(indexByState, state) % 16;
      var longIndex := i / 16;
      var bitOffset := i % 16 * 4;
      AppendNibble(nibbles, i);
      longs[longIndex] := longs[longIndex] + paletteIndex * Pow(2, bitOffset);
    }
    assert longs[..] == PackedLongs(nibbles);
  }

  lemma NothingPacked(nibbles: seq<nat>)
    ensures forall k: nat | k < 256 :: FromDigits(16, Slot(nibbles, k, 0)) == 0
  {}

  /** OR-ing nibble i into its word, whose bits from there on are still zero, extends that word only. */
  lemma AppendNibble(nibbles: seq<nat>, i: nat)
    requires |nibbles| == SECTION_CELLS && AreDigits(16, nibbles) && i < SECTION_CELLS
    ensures var w := FromDigits(16, Slot(nibbles, i / 16, i));
      && w < Pow(2, i % 16 * 4)
      && FromDigits(16, Slot(nibbles, i / 16, i + 1)) == w + nibbles[i] * Pow(2, i % 16 * 4)
    ensures FromDigits(16, Slot(nibbles, i / 16, i + 1)) < 0x1_0000_0000_0000_0000
    ensures forall k: nat | k < 256 && k != i / 16 :: Slot(nibbles, k, i + 1) == Slot(nibbles, k, i)
  {
    hide FromDigits, Pow;
    var before := Slot(nibbles, i / 16, i);
    assert Slot(nibbles, i / 16, i + 1) == before + [nibbles[i]];
    FromDigitsBound(16, before);
    FromDigitsSnoc(16, before, nibbles[i]);
    ShiftIsPower(i % 16);
    WordBound(nibbles, i / 16, i + 1);
  }

  lemma ShiftIsPower(k: nat)
    ensures Pow(2, k * 4) == Pow(16, k)
  {
    PowOfPow(2, 4, k);
    assert Pow(2, 4) == 16;
  }

  /** The client's read of entry i: shift its word right by its offset, mask four bits. */
  function EntryAt(longs: seq<uint64>, i: nat): (n: nat)
    requires i / 16 < |longs|
    ensures n < 16
  {
    PowPositive(2, i % 16 * 4);
    longs[i / 16] / Pow(2, i % 16 * 4) % 16
  }

  /** Every nibble packed is the nibble read. */
  lemma PackingLossless(nibbles: seq<nat>, i: nat)
    requires |nibbles| == SECTION_CELLS && AreDigits(16, nibbles) && i < SECTION_CELLS
    ensures EntryAt(PackedLongs(nibbles), i) == nibbles[i]
  {
    var word := Slot(nibbles, i / 16, SECTION_CELLS);
    assert |word| == 16 && word[i % 16] == nibbles[i];
    assert AreDigits(16, word) by {
      assert forall j | 0 <= j < 16 :: word[j] == nibbles[i / 16 * 16 + j];
    }
    DigitAt(16, word, i % 16);
    ShiftIsPower(i % 16);
  }

  // ----- lists of VarInts and longs

  function VarIntBytes(x: uint32): seq<byte> {
    EncodeVarInt(x)
  }

  function ReadVarIntBytes(s: seq<byte>): Option<(uint32, seq<byte>)> {
    match DecodeVarInt(s)
    case Ok(r) => Some(r)
    case Err(_) => None
  }

  function LongBytes(x: uint64): seq<byte> {
    BigEndian(8, x)
  }

  function ReadLongBytes(s: seq<byte>): Option<(uint64, seq<byte>)> {
    if |s| < 8 then None
    else
      FromBigEndianRoundTrip(s[..8]);
      PowBytes();
      Some((FromBigEndian(s[..8]), s[8..]))
  }

  lemma VarIntsRoundTrip(xs: seq<uint32>, suffix: seq<byte>)
    ensures DecodeAll(ReadVarIntBytes, |xs|, EncodeAll(VarIntBytes, xs) + suffix) == Some((xs, suffix))
  {
    hide EncodeVarInt, DecodeVarInt;
    forall x | x in xs
      ensures Inverts<uint32, uint32>(ReadVarIntBytes, VarIntBytes, Same, x)
    {
      forall t: seq<byte>
        ensures ReadVarIntBytes(VarIntBytes(x) + t) == Some((x, t))
      {
        VarIntRoundTrip(x, t);
      }
    }
    RoundTripSame<uint32>(ReadVarIntBytes, VarIntBytes, xs, suffix);
  }

  /** One long at the head of a stream. */
  lemma LongRoundTrip(x: uint64, tail: seq<byte>)
    ensures ReadLongBytes(LongBytes(x) + tail) == Some((x, tail))
  {
    var s := BigEndian(8, x) + tail;
    assert s[..8] == BigEndian(8, x) && s[8..] == tail;
    PowBytes();
    BigEndianRoundTrip(8, x);
  }

  lemma LongsRoundTrip(xs: seq<uint64>, suffix: seq<byte>)
    ensures DecodeAll(ReadLongBytes, |xs|, EncodeAll(LongBytes, xs) + suffix) == Some((xs, suffix))
  {
    forall x | x in xs
      ensures Inverts<uint64, uint64>(ReadLongBytes, LongBytes, Same, x)
    {
      forall t: seq<byte>
        ensures ReadLongBytes(LongBytes(x) + t) == Some((x, t))
      {
        LongRoundTrip(x, t);
      }
    }
    RoundTripSame<uint64>(ReadLongBytes, LongBytes, xs, suffix);
  }

  // ----- a paletted container of block states

  /** The position of a state in the local palette. */
  function IndexIn(p: seq<uint32>, x: uint32): (i: nat)
    requires x in p
    ensures i < |p| && p[i] == x
  {
    if p[0] == x then 0 else 1 + IndexIn(p[1..], x)
  }

  function IndexMap(p: seq<uint32>): (m: map<uint32, nat>)
    requires Distinct(p)
    ensures m.Keys == set x | x in p
    ensures forall i | 0 <= i < |p| :: m[p[i]] == i
  {
    map x | x in p :: IndexIn(p, x)
  }

  /** The cells' positions in the local palette, cut to four bits. */
  function CellNibbles(v: View, section: Option<Section>): (r: seq<nat>)
    ensures |r| == SECTION_CELLS && AreDigits(16, r)
  {
    Nibbles(Cells(v, section), IndexMap(Palette(v, section)))
  }

  function LengthField(fixedPalettedStorage: bool): seq<byte> {
    if fixedPalettedStorage then [] else EncodeVarInt(256)
  }

  function PaletteHeader(palette: seq<uint32>): seq<byte> {
    [4] + EncodeVarInt(Uint32(|palette|)) + EncodeAll(VarIntBytes, palette)
  }

  /** Bits per entry, local palette, number of longs, and the packed indices. */
  function ContainerBytes(palette: seq<uint32>, nibbles: seq<nat>, fixedPalettedStorage: bool): seq<byte>
    requires |nibbles| == SECTION_CELLS && AreDigits(16, nibbles)
  {
    PaletteHeader(palette) + LengthField(fixedPalettedStorage) + EncodeAll(LongBytes, PackedLongs(nibbles))
  }

  function EncodeBlockStates(v: View, section: Option<Section>, fixedPalettedStorage: bool): seq<byte> {
    ContainerBytes(Palette(v, section), CellNibbles(v, section), fixedPalettedStorage)
  }

  method WriteBlockStates766(data: Buffer, v: View, section: Option<Section>, fixedPalettedStorage: bool)
    modifies data
    ensures data.contents == old(data.contents) + EncodeBlockStates(v, section, fixedPalettedStorage)
  {
    var localPalette := BuildLocalPalette(v, section);
    var indexByState := MakeIndexMap(localPalette);
    var longs := PackSectionPaletteIndices(v, section, indexByState);
    assert longs[..] == PackedLongs(CellNibbles(v, section));
    WriteContainer(data, localPalette, longs, fixedPalettedStorage, CellNibbles(v, section));
  }

  /** The writes of writeBlockStates766, once the palette and the longs are known. */
  method WriteContainer(data: Buffer, localPalette: seq<uint32>, longs: array<uint64>, fixedPalettedStorage: bool,
                        ghost nibbles: seq<nat>)
    requires |nibbles| == SECTION_CELLS && AreDigits(16, nibbles) && longs[..] == PackedLongs(nibbles)
    modifies data
    ensures data.contents == old(data.contents) + ContainerBytes(localPalette, nibbles, fixedPalettedStorage)
  {
    hide PackedLongs;
    ghost var start := data.contents;
    data.WriteByte(4);
    WriteVarInt(data, Int32(|localPalette|));
    WritePalette(data, localPalette);
    assert data.contents == start + PaletteHeader(localPalette);
    hide PaletteHeader;
    if !fixedPalettedStorage {
      WriteVarInt(data, Int32(longs.Length));
    }
    WriteLongs(data, longs);
  }

  method WriteLongs(data: Buffer, longs: array<uint64>)
    modifies data
    ensures data.contents == old(data.contents) + EncodeAll(LongBytes, longs[..])
  {
    for i := 0 to longs.Length
      invariant data.contents == old(data.contents) + EncodeAll(LongBytes, longs[..i])
    {
      WriteLong(data, Int64(longs[i]));
      EncodeAllSnoc(LongBytes, longs[..], i);
      assert longs[..i + 1] == longs[..][..i + 1] && longs[..i] == longs[..][..i];
    }
    assert longs[..longs.Length] == longs[..];
  }

  method WritePalette(data: Buffer, localPalette: seq<uint32>)
    modifies data
    ensures data.contents == old(data.contents) + EncodeAll(VarIntBytes, localPalette)
  {
    for i := 0 to |localPalette|
      invariant data.contents == old(data.contents) + EncodeAll(VarIntBytes, localPalette[..i])
    {
      WriteVarInt(data, Int32(localPalette[i]));
      EncodeAllSnoc(VarIntBytes, localPalette, i);
    }
    assert localPalette[..|localPalette|] == localPalette;
  }

  /** The map from states back to their positions in the local palette. */
  method MakeIndexMap(localPalette: seq<uint32>) returns (m: map<uint32, nat>)
    requires Distinct(localPalette)
    ensures m == IndexMap(localPalette)
  {
    m := map[];
    for i := 0 to |localPalette|
      invariant m.Keys == set j | 0 <= j < i :: localPalette[j]
      invariant forall j | 0 <= j < i :: m[localPalette[j]] == j
    {
      m := m[localPalette[i] := i];
    }
    forall x | x in localPalette
      ensures x in m && m[x] == IndexMap(localPalette)[x]
    {
      var j :| 0 <= j < |localPalette| && localPalette[j] == x;
    }
  }

  /** The client's reader: a single-valued or a four-bit container of 4096 entries. */
  function DecodeContainer(s: seq<byte>, fixedPalettedStorage: bool): Option<(CellSeq, seq<byte>)> {
    if s == [] then None
    else if s[0] == 0 then DecodeSingle(s[1..], fixedPalettedStorage)
    else if s[0] == 4 then DecodeIndexed(s[1..], fixedPalettedStorage)
    else None
  }

  function DecodeSingle(s: seq<byte>, fixedPalettedStorage: bool): Option<(CellSeq, seq<byte>)> {
    match DecodeVarInt(s)
    case Err(_) => None
    case Ok((x, rest)) =>
      var cells := seq(SECTION_CELLS, _ => x);
      if fixedPalettedStorage then Some((cells, rest))
      else match DecodeVarInt(rest)
        case Ok((n, end)) => if n == 0 then Some((cells, end)) else None
        case Err(_) => None
  }

  function DecodeIndexed(s: seq<byte>, fixedPalettedStorage: bool): Option<(CellSeq, seq<byte>)> {
    match DecodeVarInt(s)
    case Err(_) => None
    case Ok((n, afterCount)) =>
      match DecodeAll(ReadVarIntBytes, n, afterCount)
      case None => None
      case Some((palette, afterPalette)) =>
        if fixedPalettedStorage then DecodeEntries(palette, afterPalette)
        else match DecodeVarInt(afterPalette)
          case Ok((k, afterLength)) => if k == 256 then DecodeEntries(palette, afterLength) else None
          case Err(_) => None
  }

  /** An index past the end of the palette is an error. */
  function DecodeEntries(palette: seq<uint32>, s: seq<byte>): Option<(CellSeq, seq<byte>)> {
    match DecodeAll(ReadLongBytes, 256, s)
    case None => None
    case Some((longs, end)) =>
      if forall i | 0 <= i < SECTION_CELLS :: EntryAt(longs, i) < |palette| then
        Some((seq(SECTION_CELLS, i requires 0 <= i < SECTION_CELLS => palette[EntryAt(longs, i)]), end))
      else None
  }

  /** What the client sees in a cell: the state at the cell's own position cut to four bits. */
  function SeenCell(v: View, section: Option<Section>, i: nat): uint32
    requires i < SECTION_CELLS
  {
    CellInPalette(v, section, i);
    CutEntry(Palette(v, section), IndexIn(Palette(v, section), Cells(v, section)[i]))
  }

  function CutEntry(palette: seq<uint32>, n: nat): uint32
    requires n < |palette|
  {
    palette[n % 16]
  }

  function SeenCells(v: View, section: Option<Section>): (r: CellSeq)
    ensures forall i | 0 <= i < SECTION_CELLS :: r[i] == SeenCell(v, section, i)
  {
    seq(SECTION_CELLS, i requires 0 <= i < SECTION_CELLS => SeenCell(v, section, i))
  }

  /** The client sees every cell right exactly when the section has at most sixteen states, air included. */
  lemma SeenExactlyUpToSixteen(v: View, section: Option<Section>)
    requires |Ids(section)| <= SECTION_CELLS
    ensures SeenCells(v, section) == Cells(v, section) <==> |Palette(v, section)| <= 16
  {
    var states := States(v, Ids(section));
    var local := Palette(v, section);
    if |local| > 16 {
      assert local[16] in local && local[16] != local[0];
      var i :| 0 <= i < |states| && states[i] == local[16];
      assert IndexIn(local, states[i]) == 16;
      assert SeenCell(v, section, i) == local[0] != Cells(v, section)[i];
    } else {
      forall i | 0 <= i < SECTION_CELLS
        ensures SeenCell(v, section, i) == Cells(v, section)[i]
      {
        CellInPalette(v, section, i);
      }
    }
  }

  lemma EntriesRoundTrip(palette: seq<uint32>, nibbles: seq<nat>, suffix: seq<byte>)
    requires |nibbles| == SECTION_CELLS && AreDigits(16, nibbles)
    requires forall i | 0 <= i < SECTION_CELLS :: nibbles[i] < |palette|
    ensures var r := DecodeEntries(palette, EncodeAll(LongBytes, PackedLongs(nibbles)) + suffix);
      && r.Some? && r.value.1 == suffix && |r.value.0| == SECTION_CELLS
      && forall i | 0 <= i < SECTION_CELLS :: r.value.0[i] == palette[nibbles[i]]
  {
    var longs := PackedLongs(nibbles);
    LongsRoundTrip(longs, suffix);
    forall i | 0 <= i < SECTION_CELLS
      ensures EntryAt(longs, i) == nibbles[i]
    {
      PackingLossless(nibbles, i);
    }
  }

  lemma IndexedRoundTrip(palette: seq<uint32>, fixedPalettedStorage: bool, tail: seq<byte>)
    requires |palette| < 0x1_0000_0000
    ensures DecodeIndexed(EncodeVarInt(|palette|) + (EncodeAll(VarIntBytes, palette) + (LengthField(fixedPalettedStorage) + tail)),
                          fixedPalettedStorage)
            == DecodeEntries(palette, tail)
  {
    hide EncodeVarInt, DecodeVarInt, EncodeAll, DecodeAll, DecodeEntries;
    var afterPalette := LengthField(fixedPalettedStorage) + tail;
    VarIntRoundTrip(|palette|, EncodeAll(VarIntBytes, palette) + afterPalette);
    VarIntsRoundTrip(palette, afterPalette);
    VarIntRoundTrip(256, tail);
    assert [] + tail == tail;
  }

  lemma ContainerRoundTrip(palette: seq<uint32>, nibbles: seq<nat>, fixedPalettedStorage: bool, suffix: seq<byte>)
    requires |nibbles| == SECTION_CELLS && AreDigits(16, nibbles) && |palette| < 0x1_0000_0000
    requires forall i | 0 <= i < SECTION_CELLS :: nibbles[i] < |palette|
    ensures var r := DecodeContainer(ContainerBytes(palette, nibbles, fixedPalettedStorage) + suffix, fixedPalettedStorage);
      && r.Some? && r.value.1 == suffix && |r.value.0| == SECTION_CELLS
      && forall i | 0 <= i < SECTION_CELLS :: r.value.0[i] == palette[nibbles[i]]
  {
    hide EncodeAll, EncodeVarInt, PackedLongs, DecodeIndexed;
    var tail := EncodeAll(LongBytes, PackedLongs(nibbles)) + suffix;
    var all := ContainerBytes(palette, nibbles, fixedPalettedStorage) + suffix;
    var rest := EncodeVarInt(|palette|) + (EncodeAll(VarIntBytes, palette) + (LengthField(fixedPalettedStorage) + tail));
    assert all == [4] + rest;
    assert all[1..] == rest;
    IndexedRoundTrip(palette, fixedPalettedStorage, tail);
    EntriesRoundTrip(palette, nibbles, suffix);
  }

  /** The container is read back, whatever follows it, as the cells the client sees. */
  lemma BlockStatesRoundTrip(v: View, section: Option<Section>, fixedPalettedStorage: bool, suffix: seq<byte>)
    requires |Ids(section)| < 0x8000_0000
    ensures DecodeContainer(EncodeBlockStates(v, section, fixedPalettedStorage) + suffix, fixedPalettedStorage)
            == Some((SeenCells(v, section), suffix))
  {
    var local := Palette(v, section);
    var nibbles := CellNibbles(v, section);
    forall i | 0 <= i < SECTION_CELLS
      ensures nibbles[i] < |local| && local[nibbles[i]] == SeenCell(v, section, i)
    {
      SeenNibbles(v, section, i);
    }
    ContainerRoundTrip(local, nibbles, fixedPalettedStorage, suffix);
    var r := DecodeContainer(EncodeBlockStates(v, section, fixedPalettedStorage) + suffix, fixedPalettedStorage);
    assert r.value.0 == SeenCells(v, section);
  }

  lemma SeenNibbles(v: View, section: Option<Section>, i: nat)
    requires i < SECTION_CELLS
    ensures var n := CellNibbles(v, section)[i];
      n < |Palette(v, section)| && Palette(v, section)[n] == SeenCell(v, section, i)
  {
    CellInPalette(v, section, i);
    hide Palette, Cells, IndexMap, IndexIn;
    var local := Palette(v, section);
    var x := Cells(v, section)[i];
    assert local[IndexIn(local, x)] == x && IndexMap(local)[x] == IndexIn(local, x);
  }

  // ----- sections and chunks

  datatype ModernConfig = ModernConfig(
    dataProtocolID: int32, chunkSectionFluidCount: bool, chunkFixedPalettedStorage: bool)

  function NonZero(states: seq<uint32>): (n: nat)
    ensures n <= |states|
  {
    if states == [] then 0
    else NonZero(states[..|states| - 1]) + if states[|states| - 1] != 0 then 1 else 0
  }

  lemma {:induction false} NonZeroPadded(states: seq<uint32>, zeroes: seq<uint32>)
    requires forall i | 0 <= i < |zeroes| :: zeroes[i] == 0
    ensures NonZero(states + zeroes) == NonZero(states)
  {
    if zeroes == [] {
      assert states + zeroes == states;
    } else {
      var n := |zeroes| - 1;
      NonZeroPadded(states, zeroes[..n]);
      assert (states + zeroes)[..|states| + n] == states + zeroes[..n];
    }
  }

  /** The header counts the cells that are not air. */
  lemma NonZeroCells(v: View, section: Option<Section>)
    requires |Ids(section)| <= SECTION_CELLS
    ensures NonZero(States(v, Ids(section))) == NonZero(Cells(v, section))
  {
    var states := States(v, Ids(section));
    var zeroes: seq<uint32> := seq(SECTION_CELLS - |states|, _ => 0);
    assert Cells(v, section) == states + zeroes;
    NonZeroPadded(states, zeroes);
  }

  method NonAirBlockCount(v: View, section: Option<Section>) returns (count: nat)
    ensures count == NonZero(States(v, Ids(section)))
  {
    if section == None {
      return 0;
    }
    count := 0;
    var ids := section.value.ids;
    ghost var states := States(v, ids);
    for i := 0 to |ids|
      invariant count == NonZero(states[..i])
    {
      assert states[..i + 1][..i] == states[..i];
      if BlockStateForProtocol(v, ids[i]) != 0 {
        count := count + 1;
      }
    }
    assert states[..|ids|] == states;
  }

  function SectionHeader(v: View, section: Option<Section>, cfg: ModernConfig): seq<byte> {
    BigEndian(2, Uint16(NonZero(States(v, Ids(section)))))
    + if cfg.chunkSectionFluidCount then BigEndian(2, 0) else []
  }

  /** A single-valued container of biome 0. */
  function BiomeBytes(fixedPalettedStorage: bool): seq<byte> {
    [0] + EncodeVarInt(0) + if fixedPalettedStorage then [] else EncodeVarInt(0)
  }

  function EncodeSection(v: View, section: Option<Section>, cfg: ModernConfig): seq<byte> {
    SectionHeader(v, section, cfg)
    + EncodeBlockStates(v, section, cfg.chunkFixedPalettedStorage)
    + BiomeBytes(cfg.chunkFixedPalettedStorage)
  }

  method WriteSection766(data: Buffer, v: View, section: Option<Section>, cfg: ModernConfig)
    modifies data
    ensures data.contents == old(data.contents) + EncodeSection(v, section, cfg)
  {
    hide EncodeBlockStates, BiomeBytes, BigEndian;
    var count := NonAirBlockCount(v, section);
    WriteShort(data, Int16(count));
    if cfg.chunkSectionFluidCount {
      WriteShort(data, 0);
    }
    assert data.contents == old(data.contents) + SectionHeader(v, section, cfg);
    hide SectionHeader;
    WriteBlockStates766(data, v, section, cfg.chunkFixedPalettedStorage);
    WriteBiomes766(data, cfg.chunkFixedPalettedStorage);
  }

  method WriteBiomes766(data: Buffer, fixedPalettedStorage: bool)
    modifies data
    ensures data.contents == old(data.contents) + BiomeBytes(fixedPalettedStorage)
  {
    data.WriteByte(0);
    WriteVarInt(data, 0);
    if !fixedPalettedStorage {
      WriteVarInt(data, 0);
    }
  }

  datatype SeenSection = SeenSection(nonAir: nat, fluids: nat, cells: CellSeq, biome: uint32)

  type CellSeq = s: seq<uint32> | |s| == SECTION_CELLS witness seq(SECTION_CELLS, _ => 0)

  /** The client's reader of one section. */
  function DecodeSection(s: seq<byte>, cfg: ModernConfig): Option<(SeenSection, seq<byte>)> {
    var header := if cfg.chunkSectionFluidCount then 4 else 2;
    if |s| < header then None
    else match DecodeContainer(s[header..], cfg.chunkFixedPalettedStorage)
      case None => None
      case Some((cells, rest)) =>
        match DecodeBiomes(rest, cfg.chunkFixedPalettedStorage)
        case None => None
        case Some((biome, end)) =>
          Some((SeenSection(FromBigEndian(s[..2]), FromBigEndian(s[2..header]), cells, biome), end))
  }

  function DecodeBiomes(s: seq<byte>, fixedPalettedStorage: bool): Option<(uint32, seq<byte>)> {
    if s == [] || s[0] != 0 then None
    else match DecodeVarInt(s[1..])
      case Err(_) => None
      case Ok((biome, rest)) =>
        if fixedPalettedStorage then Some((biome, rest))
        else match DecodeVarInt(rest)
          case Ok((n, end)) => if n == 0 then Some((biome, end)) else None
          case Err(_) => None
  }

  function Seen(v: View, section: Option<Section>): SeenSection {
    SeenSection(Uint16(NonZero(States(v, Ids(section)))), 0, SeenCells(v, section), 0)
  }

  lemma BiomesRoundTrip(fixedPalettedStorage: bool, suffix: seq<byte>)
    ensures DecodeBiomes(BiomeBytes(fixedPalettedStorage) + suffix, fixedPalettedStorage) == Some((0, suffix))
  {
    var tail := (if fixedPalettedStorage then [] else EncodeVarInt(0)) + suffix;
    assert (BiomeBytes(fixedPalettedStorage) + suffix)[1..] == EncodeVarInt(0) + tail;
    VarIntRoundTrip(0, tail);
    VarIntRoundTrip(0, suffix);
    assert [] + suffix == suffix;
  }

  lemma SectionRoundTrip(v: View, section: Option<Section>, cfg: ModernConfig, suffix: seq<byte>)
    requires |Ids(section)| < 0x8000_0000
    ensures DecodeSection(EncodeSection(v, section, cfg) + suffix, cfg) == Some((Seen(v, section), suffix))
  {
    hide EncodeBlockStates, DecodeContainer, SeenCells, SectionHeader, BiomeBytes, DecodeBiomes, NonZero;
    var blocks := EncodeBlockStates(v, section, cfg.chunkFixedPalettedStorage);
    var biomes := BiomeBytes(cfg.chunkFixedPalettedStorage) + suffix;
    assert EncodeSection(v, section, cfg) + suffix == SectionHeader(v, section, cfg) + (blocks + biomes);
    HeaderRoundTrip(v, section, cfg, blocks + biomes);
    BlockStatesRoundTrip(v, section, cfg.chunkFixedPalettedStorage, biomes);
    BiomesRoundTrip(cfg.chunkFixedPalettedStorage, suffix);
  }

  lemma HeaderRoundTrip(v: View, section: Option<Section>, cfg: ModernConfig, tail: seq<byte>)
    ensures var header, all := SectionHeader(v, section, cfg), SectionHeader(v, section, cfg) + tail;
      && |header| == (if cfg.chunkSectionFluidCount then 4 else 2)
      && all[|header|..] == tail && FromBigEndian(all[..2]) == Uint16(NonZero(States(v, Ids(section))))
      && FromBigEndian(all[2..|header|]) == 0
  {
    var count := Uint16(NonZero(States(v, Ids(section))));
    hide NonZero;
    assert (SectionHeader(v, section, cfg) + tail)[..2] == BigEndian(2, count);
    PowBytes();
    BigEndianRoundTrip(2, count);
    BigEndianRoundTrip(2, 0);
    var header := SectionHeader(v, section, cfg);
    assert (header + tail)[2..|header|] == header[2..];
    assert header[2..] == if cfg.chunkSectionFluidCount then BigEndian(2, 0) else [];
  }

  function SectionCount(d: Dimension): (n: nat)
    ensures n > 0
  {
    var n := TruncDiv(d.height, 16);
    if n <= 0 then 16 else n
  }

  /** The sections from first on, n of them. */
  function SectionRange(sections: seq<Section>, first: int, n: nat): (r: seq<Option<Section>>)
    ensures |r| == n && forall i | 0 <= i < n :: r[i] == SectionAt(sections, first + i)
  {
    seq(n, i requires 0 <= i < n => SectionAt(sections, first + i))
  }

  function SectionEncoder(v: View, cfg: ModernConfig): Option<Section> -> seq<byte> {
    section => EncodeSection(v, section, cfg)
  }

  function SectionDecoder(cfg: ModernConfig): Decoder<SeenSection> {
    s => DecodeSection(s, cfg)
  }

  function EncodeSections(v: View, sections: seq<Section>, first: int, n: nat, cfg: ModernConfig): seq<byte> {
    EncodeAll(SectionEncoder(v, cfg), SectionRange(sections, first, n))
  }

  function WorldView(table: (int32, BlockState) -> Option<uint32>, world: MemoryWorld, cfg: ModernConfig): View {
    View(table, cfg.dataProtocolID, world.palette)
  }

  method EncodeChunkDataModern(table: (int32, BlockState) -> Option<uint32>, world: MemoryWorld, chunk: Chunk,
                               cfg: ModernConfig) returns (bytes: seq<byte>)
    ensures bytes == EncodeSections(WorldView(table, world, cfg), chunk.sections,
                                    TruncDiv(world.dimension.minY, 16), SectionCount(world.dimension), cfg)
  {
    hide EncodeSection;
    var v := WorldView(table, world, cfg);
    var sectionCount := TruncDiv(world.dimension.height, 16);
    if sectionCount <= 0 {
      sectionCount := 16;
    }
    var data := new Buffer();
    ghost var range := SectionRange(chunk.sections, TruncDiv(world.dimension.minY, 16), sectionCount);
    assert data.contents == EncodeAll(SectionEncoder(v, cfg), range[..0]);
    hide EncodeAll, SectionRange;
    for i := 0 to sectionCount
      invariant data.contents == EncodeAll(SectionEncoder(v, cfg), range[..i])
    {
      var sectionY := TruncDiv(world.dimension.minY, 16) + i;
      var section := FindSection(chunk, sectionY);
      WriteSection766(data, v, section, cfg);
      EncodeAllSnoc(SectionEncoder(v, cfg), range, i);
    }
    assert range[..sectionCount] == range;
    return data.contents;
  }

  /** The client's reader of a chunk: as many sections as the dimension has, and no bytes left. */
  function DecodeSections(s: seq<byte>, n: nat, cfg: ModernConfig): Option<seq<SeenSection>> {
    match DecodeAll(SectionDecoder(cfg), n, s)
    case Some((sections, rest)) => if rest == [] then Some(sections) else None
    case None => None
  }

  function SeenSections(v: View, sections: seq<Section>, first: int, n: nat): (r: seq<SeenSection>)
    ensures |r| == n && forall i | 0 <= i < n :: r[i] == Seen(v, SectionAt(sections, first + i))
  {
    seq(n, i requires 0 <= i < n => Seen(v, SectionAt(sections, first + i)))
  }

  /** A whole chunk body is read back section by section and to its last byte. */
  lemma ChunkRoundTrip(v: View, sections: seq<Section>, first: int, n: nat, cfg: ModernConfig)
    requires forall s | s in sections :: |s.ids| < 0x8000_0000
    ensures DecodeSections(EncodeSections(v, sections, first, n, cfg), n, cfg)
            == Some(SeenSections(v, sections, first, n))
  {
    hide EncodeSection, DecodeSection, Seen;
    var range := SectionRange(sections, first, n);
    var enc, dec, img := SectionEncoder(v, cfg), SectionDecoder(cfg), section => Seen(v, section);
    forall section | section in range
      ensures Inverts(dec, enc, img, section)
    {
      forall t: seq<byte>
        ensures dec(enc(section) + t) == Some((img(section), t))
      {
        SectionRoundTrip(v, section, cfg, t);
      }
    }
    RoundTripAll(dec, enc, img, range, []);
    assert EncodeAll(enc, range) + [] == EncodeAll(enc, range);
    assert DecodeAll(dec, n, EncodeAll(enc, range) + []).value.0 == SeenSections(v, sections, first, n);
  }
}
