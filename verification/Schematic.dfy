/** world/schematic/load.go: a Sponge schematic becomes chunks of sections of cells. */
module Schematic {
  import opened Bits
  import opened Wrappers
  import opened World
  import Wire

  datatype Error =
    | NonPositiveDimensions | MissingPalette | NegativePaletteId | MissingPaletteEntry
    | TruncatedVarInt | VarIntTooLong | WrongBlockCount | PaletteIdOutOfRange
    | Panic  // the source panics: a negative length or an index out of range

  // ----- coordinates

  /** floorDiv on int32, whose negations and sums wrap around. */
  function FloorDiv(value: int32, divisor: int32): int32
    requires divisor > 0
  {
    if value >= 0 then value / divisor
    else Int32(-TruncDiv(Int32(divisor - 1 - value), divisor))
  }

  function Mod(value: int32, divisor: int32): int
    requires divisor > 0
  {
    var result := value - divisor * TruncDiv(value, divisor);
    if result < 0 then result + divisor else result
  }

  function SectionIndexInChunk(x: int, y: int, z: int): int {
    (y * 16 + z) * 16 + x
  }

  /** blockIndex: computed on int32, so it wraps before it is widened. */
  function BlockIndex(x: int32, y: int32, z: int32, width: int32, length: int32): int32 {
    Int32((y * length + z) * width + x)
  }

  /** floorDiv rounds down exactly on the int32 values that are not within 15 of the least one. */
  lemma FloorDivExact(v: int32)
    ensures FloorDiv(v, 16) == v / 16 <==> v >= -0x7fff_fff0
  {}

  lemma ModExact(v: int32)
    ensures Mod(v, 16) == v % 16
  {}

  /** The place a block coordinate is stored at. */
  datatype Loc = Loc(pos: ChunkPos, y: int32, index: int)

  function Locate(x: int32, y: int32, z: int32): (l: Loc)
    ensures 0 <= l.index < SECTION_CELLS
  {
    ModExact(x); ModExact(y); ModExact(z);
    Loc(ChunkPos(FloorDiv(x, 16), FloorDiv(z, 16)), FloorDiv(y, 16),
        SectionIndexInChunk(Mod(x, 16), Mod(y, 16), Mod(z, 16)))
  }

  ghost predicate Exact(x: int32, y: int32, z: int32) {
    x >= -0x7fff_fff0 && y >= -0x7fff_fff0 && z >= -0x7fff_fff0
  }

  /** On that range a block is stored at its floored quotients and remainders. */
  lemma LocateExact(x: int32, y: int32, z: int32)
    requires Exact(x, y, z)
    ensures Locate(x, y, z) ==
            Loc(ChunkPos(x / 16, z / 16), y / 16, SectionIndexInChunk(x % 16, y % 16, z % 16))
  {
    FloorDivExact(x); FloorDivExact(y); FloorDivExact(z);
    ModExact(x); ModExact(y); ModExact(z);
  }

  /** Two blocks share a place only if they are the same block. */
  lemma LocateInjective(x: int32, y: int32, z: int32, x': int32, y': int32, z': int32)
    requires Exact(x, y, z) && Exact(x', y', z')
    requires Locate(x, y, z) == Locate(x', y', z')
    ensures x == x' && y == y' && z == z'
  {
    LocateExact(x, y, z);
    LocateExact(x', y', z');
    IndexSplit(x % 16, y % 16, z % 16);
    IndexSplit(x' % 16, y' % 16, z' % 16);
  }

  /** The three local coordinates are the digits of the cell index. */
  lemma IndexSplit(x: int, y: int, z: int)
    requires 0 <= x < 16 && 0 <= y < 16 && 0 <= z < 16
    ensures var i := SectionIndexInChunk(x, y, z);
            i % 16 == x && i / 16 % 16 == z && i / 256 == y
  {}

  /** Outside that range it fails: two blocks four billion apart are stored in one cell. */
  lemma LocateCollides()
    ensures Locate(-0x8000_0000, 0, 0) == Locate(0x7fff_fff0, 0, 0)
  {}

  // ----- block data

  function DecodeIds(data: seq<byte>): Result<seq<uint32>, Error>
    decreases |data|
  {
    if data == [] then Ok([])
    else match Wire.DecodeVarInt(data)
      case Ok((id, rest)) => Prepend([id], DecodeIds(rest))
      case Err(e) => Err(FromVarIntError(e))
  }

  function FromVarIntError(e: Wire.Error): Error {
    if e == Wire.UnexpectedEnd then TruncatedVarInt else VarIntTooLong
  }

  function EncodeIds(ids: seq<uint32>): seq<byte> {
    if ids == [] then [] else Wire.EncodeVarInt(ids[0]) + EncodeIds(ids[1..])
  }

  /** Block data written as VarInts is read back exactly, so no ids run together. */
  lemma {:induction false} DecodeIdsRoundTrip(ids: seq<uint32>)
    ensures DecodeIds(EncodeIds(ids)) == Ok(ids)
  {
    if ids != [] {
      Wire.VarIntRoundTrip(ids[0], EncodeIds(ids[1..]));
      DecodeIdsRoundTrip(ids[1..]);
      assert ids == [ids[0]] + ids[1..];
    }
  }

  method ReadSchematicVarInt(data: seq<byte>, start: nat) returns (r: Result<(uint32, nat), Error>)
    requires start <= |data|
    ensures match Wire.DecodeVarInt(data[start..])
            case Ok((id, rest)) => r.Ok? && r.value.0 == id && start < r.value.1 <= |data| && data[r.value.1..] == rest
            case Err(e) => r == Err(FromVarIntError(e))
  {
    ghost var s: seq<byte> := data[start..];
    var value, offset, shift := 0, start, 0;
    ghost var k := 0;
    while shift < 35
      invariant 0 <= k <= 5 && k <= |s| && shift == 7 * k && offset == start + k
      invariant forall i | 0 <= i < k :: s[i] >= 0x80
      invariant value == Uint32(FromDigits(0x80, Wire.Low7(s[..k])))
      decreases 35 - shift
    {
      if offset >= |data| {
        return Err(TruncatedVarInt);
      }
      var b := data[offset];
      offset := offset + 1;
      assert s[..k + 1] == s[..k] + [b];
      assert Wire.Low7(s[..k + 1]) == Wire.Low7(s[..k]) + [b % 0x80];
      FromDigitsBound(0x80, Wire.Low7(s[..k]));
      FromDigitsSnoc(0x80, Wire.Low7(s[..k]), b % 0x80);
      PowOfPow(2, 7, k);
      Wire.Pow128();
      Wire.PowSmall();
      assert value < Pow(2, shift);
      value := Uint32(value + b % 0x80 * Pow(2, shift));
      if b < 0x80 {
        assert Wire.VarIntSpan(s) == Some(k + 1);
        assert data[offset..] == s[k + 1..];
        return Ok((value, offset));
      }
      shift := shift + 7;
      k := k + 1;
    }
    return Err(VarIntTooLong);
  }

  /** Ids already decoded, put before what decoding the rest gives. */
  function Prepend(ids: seq<uint32>, more: Result<seq<uint32>, Error>): Result<seq<uint32>, Error> {
    if more.Ok? then Ok(ids + more.value) else more
  }

  lemma PrependOne(ids: seq<uint32>, id: uint32, more: Result<seq<uint32>, Error>)
    ensures Prepend(ids, Prepend([id], more)) == Prepend(ids + [id], more)
    ensures Prepend([], more) == more && Prepend(ids, Ok([])) == Ok(ids)
  {
    if more.Ok? {
      assert ids + ([id] + more.value) == ids + [id] + more.value;
      assert [] + more.value == more.value;
    }
    assert ids + [] == ids;
  }

  method DecodeBlockData(data: seq<byte>, expected: nat) returns (r: Result<seq<uint32>, Error>)
    ensures DecodeIds(data).Err? ==> r == DecodeIds(data)
    ensures DecodeIds(data).Ok? ==>
      r == if |DecodeIds(data).value| == expected then DecodeIds(data) else Err(WrongBlockCount)
  {
    var ids: seq<uint32> := [];
    var offset := 0;
    assert data[0..] == data;
    PrependOne([], 0, DecodeIds(data));
    while offset < |data|
      invariant offset <= |data|
      invariant DecodeIds(data) == Prepend(ids, DecodeIds(data[offset..]))
      decreases |data| - offset
    {
      var v := ReadSchematicVarInt(data, offset);
      if v.Err? {
        return Err(v.error);
      }
      var (id, next) := v.value;
      assert DecodeIds(data[offset..]) == Prepend([id], DecodeIds(data[next..]));
      PrependOne(ids, id, DecodeIds(data[next..]));
      ids := ids + [id];
      offset := next;
    }
    PrependOne(ids, 0, Ok([]));
    if |ids| != expected {
      return Err(WrongBlockCount);
    }
    return Ok(ids);
  }

  // ----- palette

  function IndexByte(s: string, c: char): (i: Option<nat>)
    ensures i.Some? ==> i.value < |s| && s[i.value] == c && c !in s[..i.value]
    ensures i.None? ==> c !in s
  {
    if s == [] then None
    else if s[0] == c then Some(0)
    else match IndexByte(s[1..], c)
      case Some(i) => Some(i + 1)
      case None => None
  }

  function Split(s: string, c: char): seq<string> {
    match IndexByte(s, c)
    case Some(i) => [s[..i]] + Split(s[i + 1..], c)
    case None => [s]
  }

  function ParseProperties(pairs: seq<string>): map<string, string> {
    if pairs == [] then map[]
    else
      var before := ParseProperties(pairs[..|pairs| - 1]);
      var pair := pairs[|pairs| - 1];
      match IndexByte(pair, '=')
      case Some(i) => before[pair[..i] := pair[i + 1..]]
      case None => before
  }

  function ParseBlockState(raw: string): (state: BlockState)
    ensures state.name != ""
  {
    var open := IndexByte(raw, '[');
    var bracketed := open.Some? && raw[|raw| - 1] == ']';
    var name := if bracketed then raw[..open.value] else raw;
    var properties := if bracketed then ParseProperties(Split(raw[open.value + 1..|raw| - 1], ',')) else map[];
    BlockState(if ':' in name then name else "minecraft:" + name, properties)
  }

  // ----- what a block state says

  datatype Property = Property(key: string, value: string)

  /** A state as it is written: the name, and in brackets its properties. */
  function StateText(name: string, properties: seq<Property>): string {
    name + "[" + PropertiesText(properties) + "]"
  }

  function PropertiesText(properties: seq<Property>): string {
    if properties == [] then ""
    else if |properties| == 1 then PropertyText(properties[0])
    else PropertyText(properties[0]) + "," + PropertiesText(properties[1..])
  }

  function PropertyText(p: Property): string {
    p.key + "=" + p.value
  }

  /** Names without a bracket, keys without '=' and ',', values without ','. */
  predicate Writable(name: string, properties: seq<Property>) {
    '[' !in name && forall i | 0 <= i < |properties| :: WritableProperty(properties[i])
  }

  predicate WritableProperty(p: Property) {
    '=' !in p.key && ',' !in p.key && ',' !in p.value
  }

  /** The namespace is minecraft if none is written. */
  predicate Named(name: string, written: string) {
    name == if ':' in written then written else "minecraft:" + written
  }

  /** Exactly the written properties, of a key written twice the later. */
  ghost predicate HoldsAll(m: map<string, string>, properties: seq<Property>) {
    && (forall k :: k in m <==> exists i :: 0 <= i < |properties| && properties[i].key == k)
    && (forall i | 0 <= i < |properties| && LastOfKey(properties, i) :: m[properties[i].key] == properties[i].value)
  }

  predicate LastOfKey(properties: seq<Property>, i: nat)
    requires i < |properties|
  {
    forall j | i < j < |properties| :: properties[j].key != properties[i].key
  }

  lemma {:induction false} IndexByteAt(a: string, c: char, rest: string)
    requires c !in a
    ensures IndexByte(a + [c] + rest, c) == Some(|a|)
  {
    var s := a + [c] + rest;
    if a != "" {
      assert s[0] == a[0] && a[0] in a;
      assert s[1..] == a[1..] + [c] + rest;
      IndexByteAt(a[1..], c, rest);
    }
  }

  lemma SplitAt(a: string, c: char, rest: string)
    requires c !in a
    ensures Split(a + [c] + rest, c) == [a] + Split(rest, c)
    ensures Split(a, c) == [a]
  {
    var s := a + [c] + rest;
    IndexByteAt(a, c, rest);
    assert s[..|a|] == a && s[|a| + 1..] == rest;
  }

  function Texts(properties: seq<Property>): seq<string> {
    seq(|properties|, i requires 0 <= i < |properties| => PropertyText(properties[i]))
  }

  lemma {:induction false} PropertiesSplit(properties: seq<Property>)
    requires forall i | 0 <= i < |properties| :: WritableProperty(properties[i])
    ensures Split(PropertiesText(properties), ',') == if properties == [] then [""] else Texts(properties)
    decreases |properties|
  {
    hide Split;
    if properties == [] {
      SplitAt("", ',', "");
    } else {
      var first, rest := PropertyText(properties[0]), properties[1..];
      assert ',' !in first;
      SplitAt(first, ',', PropertiesText(rest));
      if |properties| > 1 {
        PropertiesSplit(rest);
        assert PropertiesText(properties) == first + [','] + PropertiesText(rest);
        assert Texts(properties) == [first] + Texts(rest);
      } else {
        assert Texts(properties) == [first];
      }
    }
  }

  lemma {:induction false} PropertiesParse(properties: seq<Property>)
    requires forall i | 0 <= i < |properties| :: WritableProperty(properties[i])
    ensures HoldsAll(ParseProperties(Texts(properties)), properties)
    decreases |properties|
  {
    hide ParseProperties, HoldsAll, PropertyText, WritableProperty, IndexByte, Texts;
    if properties == [] {
      NoneHeld();
    } else {
      var n := |properties| - 1;
      var before, p := properties[..n], properties[n];
      PropertiesParse(before);
      TextsSnoc(properties);
      OneMoreParses(Texts(before), p);
      HoldsOneMore(ParseProperties(Texts(before)), before, p);
      assert before + [p] == properties;
    }
  }

  lemma NoneHeld()
    ensures HoldsAll(ParseProperties(Texts([])), [])
  {
    assert Texts([]) == [];
  }

  lemma TextsSnoc(properties: seq<Property>)
    requires properties != []
    ensures var n := |properties| - 1; Texts(properties) == Texts(properties[..n]) + [PropertyText(properties[n])]
  {}

  lemma OneMoreParses(pairs: seq<string>, p: Property)
    requires WritableProperty(p)
    ensures ParseProperties(pairs + [PropertyText(p)]) == ParseProperties(pairs)[p.key := p.value]
  {
    PropertySplits(p);
    hide PropertyText, WritableProperty, IndexByte;
    assert (pairs + [PropertyText(p)])[..|pairs|] == pairs;
  }

  lemma PropertySplits(p: Property)
    requires WritableProperty(p)
    ensures IndexByte(PropertyText(p), '=') == Some(|p.key|)
    ensures PropertyText(p)[..|p.key|] == p.key && PropertyText(p)[|p.key| + 1..] == p.value
  {
    IndexByteAt(p.key, '=', p.value);
  }

  lemma HoldsOneMore(m: map<string, string>, before: seq<Property>, p: Property)
    requires HoldsAll(m, before)
    ensures HoldsAll(m[p.key := p.value], before + [p])
  {
    var all, more := before + [p], m[p.key := p.value];
    forall k
      ensures k in more <==> exists i :: 0 <= i < |all| && all[i].key == k
    {
      if k in m {
        var i :| 0 <= i < |before| && before[i].key == k;
        assert all[i].key == k;
      }
      assert all[|before|] == p;
    }
    forall i | 0 <= i < |all| && LastOfKey(all, i)
      ensures more[all[i].key] == all[i].value
    {
      if i < |before| {
        assert all[|before|].key != all[i].key;
        assert LastOfKey(before, i) by {
          assert forall j | i < j < |before| :: all[j] == before[j];
        }
      }
    }
  }

  /** A written state is parsed to its name and exactly its properties. */
  lemma StateTextParses(name: string, properties: seq<Property>)
    requires Writable(name, properties)
    ensures var state := ParseBlockState(StateText(name, properties));
      Named(state.name, name) && HoldsAll(state.properties, properties)
  {
    hide Split, IndexByte, ParseProperties, HoldsAll;
    var raw, text := StateText(name, properties), PropertiesText(properties);
    IndexByteAt(name, '[', text + "]");
    assert raw == name + ['['] + (text + "]");
    assert raw[..|name|] == name && raw[|name| + 1..|raw| - 1] == text;
    PropertiesSplit(properties);
    PropertiesParse(properties);
    if properties == [] {
      NoPair();
      assert Texts(properties) == [];
    }
  }

  lemma NoPair()
    ensures ParseProperties([""]) == map[] && ParseProperties([]) == map[]
  {
    assert [""][..0] == [];
  }

  /** Anything that does not end in a bracketed part is all name. */
  lemma BareNameParses(raw: string)
    requires '[' !in raw || raw[|raw| - 1] != ']'
    ensures Named(ParseBlockState(raw).name, raw) && ParseBlockState(raw).properties == map[]
  {}

  /** The ids are exactly 0, 1, ..., n - 1 for some n. */
  ghost predicate Contiguous(input: map<string, int32>, n: int) {
    && (forall raw | raw in input :: 0 <= input[raw] < n)
    && forall i | 0 <= i < n :: Assigned(input, i)
  }

  ghost predicate Assigned(input: map<string, int32>, i: int) {
    exists raw :: raw in input && input[raw] == i
  }

  /** The palettes the source accepts.  Its length is maxID + 1 computed on int32. */
  ghost predicate GoodPalette(input: map<string, int32>) {
    exists n :: 0 <= n <= 0x7fff_ffff && Contiguous(input, n)
  }

  ghost predicate Filled(input: map<string, int32>, palette: seq<BlockState>) {
    forall i | 0 <= i < |palette| && palette[i].name != "" :: EntryFrom(input, i, palette[i])
  }

  ghost predicate EntryFrom(input: map<string, int32>, i: int, state: BlockState) {
    exists raw :: raw in input && input[raw] == i && state == ParseBlockState(raw)
  }

  /** The first of decodePalette's loops over the map, which comes in any order. */
  method MaxPaletteId(input: map<string, int32>) returns (maxID: int)
    ensures -2 <= maxID <= 0x7fff_ffff
    ensures maxID == -2 <==> exists raw :: raw in input && input[raw] < 0
    ensures maxID != -2 ==> forall raw | raw in input :: 0 <= input[raw] <= maxID
    ensures maxID >= 0 ==> Assigned(input, maxID)
  {
    maxID := -1;
    var todo := input.Keys;
    while todo != {}
      invariant todo <= input.Keys && -1 <= maxID <= 0x7fff_ffff
      invariant forall raw | raw in input.Keys - todo :: 0 <= input[raw] <= maxID
      invariant maxID >= 0 ==> Assigned(input, maxID)
      decreases todo
    {
      var raw :| raw in todo;
      if input[raw] < 0 {
        return -2;
      }
      if input[raw] > maxID {
        maxID := input[raw];
      }
      todo := todo - {raw};
    }
  }

  /** The second loop: of two keys with one id the later wins. */
  method FillPalette(input: map<string, int32>, n: nat) returns (palette: seq<BlockState>)
    requires forall raw | raw in input :: 0 <= input[raw] < n
    ensures |palette| == n && Filled(input, palette)
    ensures forall raw | raw in input :: palette[input[raw]].name != ""
  {
    palette := seq(n, _ => BlockState("", map[]));
    var todo := input.Keys;
    while todo != {}
      invariant todo <= input.Keys && |palette| == n && Filled(input, palette)
      invariant forall raw | raw in input.Keys - todo :: palette[input[raw]].name != ""
      decreases todo
    {
      var raw :| raw in todo;
      assert EntryFrom(input, input[raw], ParseBlockState(raw));
      palette := palette[input[raw] := ParseBlockState(raw)];
      todo := todo - {raw};
    }
  }

  lemma HoleBreaksContiguity(input: map<string, int32>, maxID: int, i: int)
    requires Assigned(input, maxID) && 0 <= i <= maxID && !Assigned(input, i)
    ensures forall n :: !Contiguous(input, n)
  {
    var raw :| raw in input && input[raw] == maxID;
    assert forall n :: Contiguous(input, n) ==> i < n;
  }

  lemma AllNamed(input: map<string, int32>, palette: seq<BlockState>)
    requires forall raw | raw in input :: 0 <= input[raw] < |palette|
    requires Filled(input, palette)
    requires forall i | 0 <= i < |palette| :: palette[i].name != ""
    ensures Contiguous(input, |palette|)
    ensures forall i | 0 <= i < |palette| :: EntryFrom(input, i, palette[i])
  {
    forall i | 0 <= i < |palette|
      ensures EntryFrom(input, i, palette[i]) && Assigned(input, i)
    {
      assert palette[i].name != "";
      var raw :| raw in input && input[raw] == i && palette[i] == ParseBlockState(raw);
    }
  }

  lemma Hole(input: map<string, int32>, palette: seq<BlockState>, maxID: int, i: nat)
    requires |palette| == maxID + 1 && Assigned(input, maxID)
    requires forall raw | raw in input :: 0 <= input[raw] < |palette| && palette[input[raw]].name != ""
    requires i < |palette| && palette[i].name == ""
    ensures forall n :: !Contiguous(input, n)
  {
    assert !Assigned(input, i);
    HoleBreaksContiguity(input, maxID, i);
  }

  /** The last loop, which looks for an entry that no key filled. */
  method FirstUnnamed(palette: seq<BlockState>) returns (i: nat)
    ensures i <= |palette| && forall j | 0 <= j < i :: palette[j].name != ""
    ensures i < |palette| ==> palette[i].name == ""
  {
    i := 0;
    while i < |palette| && palette[i].name != ""
      invariant i <= |palette| && forall j | 0 <= j < i :: palette[j].name != ""
    {
      i := i + 1;
    }
  }

  /** decodePalette succeeds exactly on contiguous ids, and every entry then comes from a key with its id. */
  method DecodePalette(input: map<string, int32>) returns (r: Result<seq<BlockState>, Error>)
    ensures r.Ok? <==> GoodPalette(input)
    ensures r.Ok? ==>
      && Contiguous(input, |r.value|)
      && forall i | 0 <= i < |r.value| :: EntryFrom(input, i, r.value[i])
    ensures r.Err? ==>
      || (r.error == NegativePaletteId && exists raw :: raw in input && input[raw] < 0)
      || (r.error == Panic && Assigned(input, 0x7fff_ffff))
      || (r.error == MissingPaletteEntry && forall n :: !Contiguous(input, n))
  {
    var maxID := MaxPaletteId(input);
    if maxID == -2 {
      return Err(NegativePaletteId);
    }
    if maxID == 0x7fff_ffff {
      return Err(Panic);  // make with the length maxID + 1, which is negative
    }
    var palette := FillPalette(input, maxID + 1);
    var hole := FirstUnnamed(palette);
    if hole < |palette| {
      Hole(input, palette, maxID, hole);
      return Err(MissingPaletteEntry);
    }
    AllNamed(input, palette);
    return Ok(palette);
  }

  // ----- storing blocks

  ghost predicate GoodSections(sections: seq<Section>) {
    && sections != []
    && Ascending(sections)
    && forall s | s in sections :: |s.ids| == SECTION_CELLS
  }

  ghost predicate WellFormed(chunks: map<ChunkPos, Chunk>) {
    forall pos | pos in chunks ::
      chunks[pos].x == pos.x && chunks[pos].z == pos.z && chunks[pos].minY == 0
      && GoodSections(chunks[pos].sections)
  }

  /** The palette id stored at a place, if its section exists. */
  ghost function CellAt(chunks: map<ChunkPos, Chunk>, l: Loc): Option<uint32> {
    if l.pos in chunks then SectionCell(chunks[l.pos].sections, l.y, l.index) else None
  }

  ghost function SectionCell(sections: seq<Section>, y: int32, index: int): Option<uint32> {
    match SectionAt(sections, y)
    case Some(s) => if 0 <= index < |s.ids| then Some(s.ids[index]) else None
    case None => None
  }

  /** What one write to cell (y, index) makes of a cell: a new section starts as zeroes. */
  ghost function Written(before: Option<uint32>, sameSection: bool, sameCell: bool, id: uint32): Option<uint32> {
    if sameSection && sameCell then Some(id)
    else if sameSection && before == None then Some(0)
    else before
  }

  /** sort.Slice by Y.  With distinct Ys only one order is sorted, so no sort can give another. */
  method SortSections(sections: seq<Section>) returns (sorted: seq<Section>)
    requires forall i, j | 0 <= i < j < |sections| :: sections[i].y != sections[j].y
    ensures Ascending(sorted)
    ensures forall s :: s in sorted <==> s in sections
  {
    sorted := [];
    for i := 0 to |sections|
      invariant Ascending(sorted)
      invariant forall s :: s in sorted <==> s in sections[..i]
    {
      var n := 0;
      while n < |sorted| && sorted[n].y < sections[i].y
        invariant n <= |sorted|
        invariant forall k | 0 <= k < n :: sorted[k].y < sections[i].y
      {
        n := n + 1;
      }
      assert forall k | 0 <= k < |sorted| :: sorted[k] in sections[..i];
      assert sections[..i + 1] == sections[..i] + [sections[i]];
      sorted := InsertAt(sorted, n, sections[i]);
    }
    assert sections[..|sections|] == sections;
  }

  function InsertAt(sorted: seq<Section>, n: nat, s: Section): (r: seq<Section>)
    requires n <= |sorted|
    ensures forall t :: t in r <==> t in sorted || t == s
    ensures Ascending(sorted)
            && (forall k | 0 <= k < n :: sorted[k].y < s.y)
            && (forall k | n <= k < |sorted| :: s.y < sorted[k].y)
            ==> Ascending(r)
  {
    var r := sorted[..n] + [s] + sorted[n..];
    assert forall t :: t in sorted <==> t in sorted[..n] || t in sorted[n..];
    r
  }

  /** The map of chunks that buildWorld fills. */
  class ChunkStore {
    var chunks: map<ChunkPos, Chunk>

    constructor ()
      ensures chunks == map[]
    {
      chunks := map[];
    }

    /** setBlock is an update of the map from places to ids; a write into a
        missing section brings the whole section into being as zeroes. */
    method SetBlock(x: int32, y: int32, z: int32, paletteID: uint32)
      requires WellFormed(chunks)
      modifies this
      ensures WellFormed(chunks)
      ensures forall l: Loc | 0 <= l.index < SECTION_CELLS ::
        var at := Locate(x, y, z);
        CellAt(chunks, l) ==
        Written(CellAt(old(chunks), l), l.pos == at.pos && l.y == at.y, l.index == at.index, paletteID)
      ensures Wrote(old(chunks), chunks, BlockWrite(x, y, z, paletteID))
    {
      hide Wrote, FloorDiv, Mod, SectionCell, CellAt, Written;
      var pos := ChunkPos(FloorDiv(x, 16), FloorDiv(z, 16));
      var sectionY := FloorDiv(y, 16);
      var chunk := if pos in chunks then chunks[pos] else Chunk(pos.x, pos.z, 0, []);
      ghost var before := chunk.sections;

      var sections, sectionIndex := WithSection(chunk.sections, sectionY);
      chunk := chunk.(sections := sections);

      ModExact(x); ModExact(y); ModExact(z);
      var index := SectionIndexInChunk(Mod(x, 16), Mod(y, 16), Mod(z, 16));
      UpdatedSection(sections, sectionIndex, index, paletteID);
      var section := chunk.sections[sectionIndex];
      section := section.(ids := section.ids[index := paletteID]);
      chunk := chunk.(sections := chunk.sections[sectionIndex := section]);
      SectionsAreWritten(before, sections, chunk.sections, sectionY, index, paletteID);
      WriteThrough(chunks, Locate(x, y, z), paletteID, before, chunk);
      chunks := chunks[pos := chunk];
      WroteIs(old(chunks), chunks, BlockWrite(x, y, z, paletteID));
    }
  }

  datatype BlockWrite = BlockWrite(x: int32, y: int32, z: int32, id: uint32)

  ghost predicate Wrote(before: map<ChunkPos, Chunk>, after: map<ChunkPos, Chunk>, w: BlockWrite) {
    && WellFormed(after)
    && forall l: Loc | 0 <= l.index < SECTION_CELLS ::
         var at := Locate(w.x, w.y, w.z);
         CellAt(after, l) == Written(CellAt(before, l), l.pos == at.pos && l.y == at.y, l.index == at.index, w.id)
  }

  lemma WroteIs(before: map<ChunkPos, Chunk>, after: map<ChunkPos, Chunk>, w: BlockWrite)
    requires WellFormed(after)
    requires forall l: Loc | 0 <= l.index < SECTION_CELLS ::
      var at := Locate(w.x, w.y, w.z);
      CellAt(after, l) == Written(CellAt(before, l), l.pos == at.pos && l.y == at.y, l.index == at.index, w.id)
    ensures Wrote(before, after, w)
  {}

  /** The stores that any number of setBlock calls go through. */
  ghost predicate WroteAll(stores: seq<map<ChunkPos, Chunk>>, writes: seq<BlockWrite>) {
    && |stores| == |writes| + 1
    && forall i | 0 <= i < |writes| :: Wrote(stores[i], stores[i + 1], writes[i])
  }

  predicate SameSection(w: BlockWrite, x: int32, y: int32, z: int32) {
    w.x / 16 == x / 16 && w.y / 16 == y / 16 && w.z / 16 == z / 16
  }

  /** What a block holds after the writes, given what it held before: the last id written to it, or
      zero if only its section has come into being. */
  function Final(writes: seq<BlockWrite>, x: int32, y: int32, z: int32, before: Option<uint32>): Option<uint32> {
    if writes == [] then before
    else
      var w := writes[|writes| - 1];
      var r := Final(writes[..|writes| - 1], x, y, z, before);
      if Hits(w, x, y, z) then Some(w.id)
      else if SameSection(w, x, y, z) && r == None then Some(0)
      else r
  }

  predicate Hits(w: BlockWrite, x: int32, y: int32, z: int32) {
    w.x == x && w.y == y && w.z == z
  }

  lemma {:induction false} FinalIsLast(writes: seq<BlockWrite>, x: int32, y: int32, z: int32, before: Option<uint32>,
                                       i: nat)
    requires i < |writes| && Hits(writes[i], x, y, z)
    requires forall j | i < j < |writes| :: !Hits(writes[j], x, y, z)
    ensures Final(writes, x, y, z, before) == Some(writes[i].id)
    decreases |writes|
  {
    if i < |writes| - 1 {
      FinalIsLast(writes[..|writes| - 1], x, y, z, before, i);
    }
  }

  lemma {:induction false} FinalUnwritten(writes: seq<BlockWrite>, x: int32, y: int32, z: int32, before: Option<uint32>)
    requires forall i | 0 <= i < |writes| :: !Hits(writes[i], x, y, z)
    ensures Final(writes, x, y, z, before)
         == if before == None && exists i :: 0 <= i < |writes| && SameSection(writes[i], x, y, z) then Some(0)
            else before
    decreases |writes|
  {
    if writes != [] {
      var n := |writes| - 1;
      FinalUnwritten(writes[..n], x, y, z, before);
      assert forall i | 0 <= i < n :: writes[..n][i] == writes[i];
    }
  }

  /** Of any writes, in any order, the last one to a block wins and no other block changes. */
  lemma {:induction false} LastWriteWins(stores: seq<map<ChunkPos, Chunk>>, writes: seq<BlockWrite>,
                                         x: int32, y: int32, z: int32)
    requires WroteAll(stores, writes) && Exact(x, y, z)
    requires forall i | 0 <= i < |writes| :: Exact(writes[i].x, writes[i].y, writes[i].z)
    ensures CellAt(stores[|writes|], Locate(x, y, z)) == Final(writes, x, y, z, CellAt(stores[0], Locate(x, y, z)))
    decreases |writes|
  {
    hide Locate, CellAt;
    if writes != [] {
      var n := |writes| - 1;
      LastWriteWins(stores[..n + 1], writes[..n], x, y, z);
      assert stores[..n + 1][n] == stores[n] && stores[..n + 1][0] == stores[0];
      WriteHits(writes[n], x, y, z);
      assert Wrote(stores[n], stores[n + 1], writes[n]);
    }
  }

  lemma WriteHits(w: BlockWrite, x: int32, y: int32, z: int32)
    requires Exact(x, y, z) && Exact(w.x, w.y, w.z)
    ensures var l, at := Locate(x, y, z), Locate(w.x, w.y, w.z);
      && (l.pos == at.pos && l.y == at.y <==> SameSection(w, x, y, z))
      && (l.pos == at.pos && l.y == at.y && l.index == at.index <==> Hits(w, x, y, z))
  {
    LocateExact(x, y, z);
    LocateExact(w.x, w.y, w.z);
    hide Locate;
    if Locate(x, y, z) == Locate(w.x, w.y, w.z) {
      LocateInjective(x, y, z, w.x, w.y, w.z);
    }
  }

  ghost predicate SectionsWritten(before: seq<Section>, after: seq<Section>, y: int32, index: int, id: uint32) {
    forall t: int32, i | 0 <= i < SECTION_CELLS ::
      SectionCell(after, t, i) == Written(SectionCell(before, t, i), t == y, i == index, id)
  }

  lemma WriteThrough(chunks: map<ChunkPos, Chunk>, at: Loc, id: uint32, before: seq<Section>, chunk: Chunk)
    requires WellFormed(chunks)
    requires before == if at.pos in chunks then chunks[at.pos].sections else []
    requires chunk.x == at.pos.x && chunk.z == at.pos.z && chunk.minY == 0 && GoodSections(chunk.sections)
    requires SectionsWritten(before, chunk.sections, at.y, at.index, id)
    ensures WellFormed(chunks[at.pos := chunk])
    ensures forall l: Loc | 0 <= l.index < SECTION_CELLS ::
      CellAt(chunks[at.pos := chunk], l) ==
      Written(CellAt(chunks, l), l.pos == at.pos && l.y == at.y, l.index == at.index, id)
  {}

  /** The section that setBlock writes into, appended and sorted in if there is none. */
  method WithSection(before: seq<Section>, y: int32) returns (sections: seq<Section>, i: nat)
    requires before == [] || GoodSections(before)
    ensures GoodSections(sections) && i < |sections| && sections[i].y == y
    ensures CellsWithSection(before, sections, y)
  {
    hide SectionCell;
    sections := before;
    var found;
    found, i := IndexOfSection(sections, y);
    if !found {
      sections := SortSections(before + [Section(y, seq(SECTION_CELLS, _ => 0))]);
      AppendedSection(before, y, sections);
      found, i := IndexOfSection(sections, y);
    }
  }

  /** As before, but for a section that is new and all zeroes. */
  ghost predicate CellsWithSection(before: seq<Section>, after: seq<Section>, y: int32) {
    forall t: int32, i | 0 <= i < SECTION_CELLS ::
      SectionCell(after, t, i)
      == if t == y && SectionAt(before, y) == None then Some(0) else SectionCell(before, t, i)
  }

  lemma SectionsAreWritten(before: seq<Section>, with: seq<Section>, after: seq<Section>, y: int32, index: nat, id: uint32)
    requires CellsWithSection(before, with, y) && (before == [] || GoodSections(before))
    requires forall t: int32, i | 0 <= i < SECTION_CELLS ::
      SectionCell(after, t, i) == if t == y && i == index then Some(id) else SectionCell(with, t, i)
    ensures SectionsWritten(before, after, y, index, id)
  {}

  /** The search loop of setBlock. */
  method IndexOfSection(sections: seq<Section>, y: int32) returns (found: bool, i: nat)
    ensures found <==> SectionAt(sections, y).Some?
    ensures found ==> i < |sections| && sections[i].y == y
  {
    for k := 0 to |sections|
      invariant forall j | 0 <= j < k :: sections[j].y != y
    {
      if sections[k].y == y {
        return true, k;
      }
    }
    return false, 0;
  }

  lemma AppendedSection(before: seq<Section>, y: int32, sorted: seq<Section>)
    requires before == [] || GoodSections(before)
    requires SectionAt(before, y) == None && Ascending(sorted)
    requires forall s :: s in sorted <==> s in before + [Section(y, seq(SECTION_CELLS, _ => 0))]
    ensures GoodSections(sorted) && SectionAt(sorted, y).Some?
    ensures forall t: int32, i | 0 <= i < SECTION_CELLS ::
      SectionCell(sorted, t, i) == if t == y then Some(0) else SectionCell(before, t, i)
  {
    var added := Section(y, seq(SECTION_CELLS, _ => 0));
    assert added in before + [added];
    SectionAtUnique(sorted, added);
    forall t: int32 | t != y
      ensures SectionAt(sorted, t) == SectionAt(before, t)
    {
      match SectionAt(before, t)
      case Some(s) => SectionAtUnique(sorted, s);
      case None =>
    }
  }

  lemma UpdatedSection(sections: seq<Section>, n: nat, index: nat, id: uint32)
    requires GoodSections(sections) && n < |sections| && index < SECTION_CELLS
    ensures var s := sections[n];
      var after := sections[n := s.(ids := s.ids[index := id])];
      && GoodSections(after)
      && forall t: int32, i | 0 <= i < SECTION_CELLS ::
           SectionCell(after, t, i) ==
           if t == s.y && i == index then Some(id) else SectionCell(sections, t, i)
  {
    var s := sections[n];
    var s' := s.(ids := s.ids[index := id]);
    var after := sections[n := s'];
    assert after[n] == s';
    SectionAtUnique(sections, s);
    SectionAtUnique(after, s');
    forall t: int32 | t != s.y
      ensures SectionAt(after, t) == SectionAt(sections, t)
    {
      match SectionAt(sections, t)
      case Some(u) =>
        var k :| 0 <= k < |sections| && sections[k] == u;
        assert after[k] == u;
        SectionAtUnique(after, u);
      case None =>
    }
  }

  // ----- building the world

  datatype SpongeSchematic = SpongeSchematic(
    width: int16, height: int16, length: int16, palette: map<string, int32>, blockData: seq<byte>)

  datatype Options = Options(worldID: string, dimension: Dimension)

  ghost function Volume(d: SpongeSchematic): int {
    d.height * d.length * d.width
  }

  ghost predicate InBox(d: SpongeSchematic, x: int, y: int, z: int) {
    0 <= x < d.width && 0 <= y < d.height && 0 <= z < d.length
  }

  ghost function Index(d: SpongeSchematic, x: int, y: int, z: int): int {
    (y * d.length + z) * d.width + x
  }

  lemma IndexInRange(d: SpongeSchematic, x: int, y: int, z: int)
    requires InBox(d, x, y, z)
    ensures 0 <= Index(d, x, y, z) < Volume(d)
  {
    MulLeft(d.length, y + 1, d.height);
    Distribute(d.length, 1, y, 1);
    var row := y * d.length + z;
    MulLeft(d.length, 0, y);
    MulLeft(d.width, 0, row);
    MulLeft(d.width, row + 1, d.height * d.length);
    Distribute(d.width, 1, row, 1);
  }

  /** The int32 block index is the true one exactly below two to the 31. */
  lemma BlockIndexExact(d: SpongeSchematic, x: int32, y: int32, z: int32)
    requires InBox(d, x, y, z)
    ensures BlockIndex(x, y, z, d.width, d.length) == Index(d, x, y, z) <==> Index(d, x, y, z) < 0x8000_0000
  {
    IndexInRange(d, x, y, z);
  }

  lemma {:induction false} IdsTakeBytes(data: seq<byte>)
    ensures DecodeIds(data).Ok? ==> |DecodeIds(data).value| <= |data|
    decreases |data|
  {
    if data != [] && Wire.DecodeVarInt(data).Ok? {
      IdsTakeBytes(Wire.DecodeVarInt(data).value.1);
    }
  }

  /** A schematic that Load has read has fewer than two to the 31 bytes of block data, as an NBT byte
      array has.  If they hold an id a block, buildWorld computes every index and coordinate right. */
  lemma LoadedIndicesExact(d: SpongeSchematic, ids: seq<uint32>, x: int, y: int, z: int)
    requires |d.blockData| < 0x8000_0000 && DecodeIds(d.blockData) == Ok(ids) && |ids| == Volume(d)
    requires InBox(d, x, y, z)
    ensures Volume(d) < 0x8000_0000 && Exact(x, y, z)
    ensures BlockIndex(x, y, z, d.width, d.length) == Index(d, x, y, z) < |ids|
  {
    IdsTakeBytes(d.blockData);
    IndexInRange(d, x, y, z);
    BlockIndexExact(d, x, y, z);
  }

  /** What a schematic must be for the source to load it. */
  ghost predicate Loadable(d: SpongeSchematic, ids: seq<uint32>, paletteSize: nat) {
    && d.width > 0 && d.height > 0 && d.length > 0
    && d.palette != map[]
    && GoodPalette(d.palette)
    && Contiguous(d.palette, paletteSize)
    && DecodeIds(d.blockData) == Ok(ids)
    && |ids| == Volume(d) <= 0x8000_0000
    && forall id | id in ids :: id < paletteSize
  }

  /** A section of the grid has a block of the schematic in it. */
  ghost predicate MeetsBox(d: SpongeSchematic, pos: ChunkPos, y: int32) {
    0 <= pos.x && pos.x * 16 < d.width && 0 <= y && y * 16 < d.height && 0 <= pos.z && pos.z * 16 < d.length
  }

  /** (x', y', z') comes before (x, y, z) in the loop order: by y, then z, then x. */
  ghost predicate Before(x': int, y': int, z': int, x: int, y: int, z: int) {
    y' < y || (y' == y && (z' < z || (z' == z && x' < x)))
  }

  /** The store holds the blocks before (x, y, z) and nothing else. */
  ghost predicate FilledUpTo(chunks: map<ChunkPos, Chunk>, d: SpongeSchematic, ids: seq<uint32>, x: int, y: int, z: int)
    requires |ids| == Volume(d)
  {
    && WellFormed(chunks)
    && (forall x': int32, y': int32, z': int32 | Exact(x', y', z') ::
          CellFilled(CellAt(chunks, Locate(x', y', z')), d, ids, x', y', z', x, y, z))
    && (forall l: Loc | CellAt(chunks, l).Some? :: MeetsBox(d, l.pos, l.y))
  }

  ghost predicate CellFilled(cell: Option<uint32>, d: SpongeSchematic, ids: seq<uint32>,
                             x': int, y': int, z': int, x: int, y: int, z: int)
    requires |ids| == Volume(d)
  {
    if InBox(d, x', y', z') && Before(x', y', z', x, y, z) then
      IndexInRange(d, x', y', z');
      cell == Some(ids[Index(d, x', y', z')])
    else
      cell == None || cell == Some(0)
  }

  lemma FillStep(before: map<ChunkPos, Chunk>, after: map<ChunkPos, Chunk>,
                 d: SpongeSchematic, ids: seq<uint32>, x: int32, y: int32, z: int32, id: uint32)
    requires |ids| == Volume(d) && InBox(d, x, y, z)
    requires 0 <= Index(d, x, y, z) < |ids| && id == ids[Index(d, x, y, z)]
    requires FilledUpTo(before, d, ids, x, y, z) && WellFormed(after)
    requires forall l: Loc | 0 <= l.index < SECTION_CELLS ::
      var at := Locate(x, y, z);
      CellAt(after, l) ==
      Written(CellAt(before, l), l.pos == at.pos && l.y == at.y, l.index == at.index, id)
    ensures FilledUpTo(after, d, ids, x + 1, y, z)
  {
    var at := Locate(x, y, z);
    forall x': int32, y': int32, z': int32 | Exact(x', y', z')
      ensures CellFilled(CellAt(after, Locate(x', y', z')), d, ids, x', y', z', x + 1, y, z)
    {
      assert CellFilled(CellAt(before, Locate(x', y', z')), d, ids, x', y', z', x, y, z);
      if Locate(x', y', z') == at {
        LocateInjective(x, y, z, x', y', z');
      }
    }
    FloorDivExact(x); FloorDivExact(y); FloorDivExact(z);
    forall l: Loc | CellAt(after, l).Some?
      ensures MeetsBox(d, l.pos, l.y)
    {
      assert 0 <= l.index < SECTION_CELLS;
      if CellAt(before, l).None? {
        assert l.pos == at.pos && l.y == at.y;
      }
    }
  }

  /** Past the last x of a row comes the first x of the next, and so on upwards. */
  lemma FillCarry(chunks: map<ChunkPos, Chunk>, d: SpongeSchematic, ids: seq<uint32>,
                  x: int, y: int, z: int, x2: int, y2: int, z2: int)
    requires |ids| == Volume(d) && FilledUpTo(chunks, d, ids, x, y, z)
    requires forall x', y', z' | InBox(d, x', y', z') :: Before(x', y', z', x, y, z) <==> Before(x', y', z', x2, y2, z2)
    ensures FilledUpTo(chunks, d, ids, x2, y2, z2)
  {
    forall x': int32, y': int32, z': int32 | Exact(x', y', z')
      ensures CellFilled(CellAt(chunks, Locate(x', y', z')), d, ids, x', y', z', x2, y2, z2)
    {
      assert CellFilled(CellAt(chunks, Locate(x', y', z')), d, ids, x', y', z', x, y, z);
    }
  }

  /** The cells of the loaded world: the schematic's ids in its box, palette entry 0 in
      what is left of the sections it touches, and no section anywhere else. */
  ghost function ExpectedCell(d: SpongeSchematic, ids: seq<uint32>, x: int32, y: int32, z: int32): Option<uint32>
    requires |ids| == Volume(d)
  {
    if InBox(d, x, y, z) then IndexInRange(d, x, y, z); Some(ids[Index(d, x, y, z)])
    else if MeetsBox(d, Locate(x, y, z).pos, Locate(x, y, z).y) then Some(0)
    else None
  }

  ghost predicate HoldsSchematic(chunks: map<ChunkPos, Chunk>, d: SpongeSchematic, ids: seq<uint32>)
    requires |ids| == Volume(d)
  {
    && WellFormed(chunks)
    && (forall x: int32, y: int32, z: int32 | Exact(x, y, z) ::
          CellAt(chunks, Locate(x, y, z)) == ExpectedCell(d, ids, x, y, z))
    && (forall l: Loc | CellAt(chunks, l).Some? :: MeetsBox(d, l.pos, l.y))
  }

  lemma FillDone(chunks: map<ChunkPos, Chunk>, d: SpongeSchematic, ids: seq<uint32>)
    requires |ids| == Volume(d) && FilledUpTo(chunks, d, ids, 0, d.height, 0)
    ensures HoldsSchematic(chunks, d, ids)
  {
    forall x: int32, y: int32, z: int32 | Exact(x, y, z)
      ensures CellAt(chunks, Locate(x, y, z)) == ExpectedCell(d, ids, x, y, z)
    {
      var l := Locate(x, y, z);
      assert CellFilled(CellAt(chunks, l), d, ids, x, y, z, 0, d.height, 0);
      if !InBox(d, x, y, z) && MeetsBox(d, l.pos, l.y) {
        CornerPresent(chunks, d, ids, l);
      }
    }
  }

  /** A touched section's first cell is a block, so the section exists and all its cells do. */
  lemma CornerPresent(chunks: map<ChunkPos, Chunk>, d: SpongeSchematic, ids: seq<uint32>, l: Loc)
    requires |ids| == Volume(d) && FilledUpTo(chunks, d, ids, 0, d.height, 0)
    requires MeetsBox(d, l.pos, l.y) && 0 <= l.index < SECTION_CELLS
    ensures CellAt(chunks, l).Some?
  {
    var cx: int32, cy: int32, cz: int32 := l.pos.x * 16, l.y * 16, l.pos.z * 16;
    var corner := Locate(cx, cy, cz);
    FloorDivExact(cx); FloorDivExact(cy); FloorDivExact(cz);
    assert corner.pos == l.pos && corner.y == l.y;
    assert CellFilled(CellAt(chunks, corner), d, ids, cx, cy, cz, 0, d.height, 0);
    assert CellAt(chunks, corner).Some?;
  }

  /** The index counts the blocks in loop order. */
  lemma IndexSteps(d: SpongeSchematic, x: int, y: int, z: int)
    ensures Index(d, x + 1, y, z) == Index(d, x, y, z) + 1
    ensures Index(d, d.width, y, z) == Index(d, 0, y, z + 1)
    ensures Index(d, 0, y, d.length) == Index(d, 0, y + 1, 0)
    ensures Index(d, 0, 0, 0) == 0 && Index(d, 0, d.height, 0) == Volume(d)
  {
    var l, w: int := d.length, d.width;
    assert (y * l + z + 1) * w == (y * l + z) * w + w;
    assert (y + 1) * l == y * l + l;
  }

  lemma ContiguousUnique(input: map<string, int32>, m: int, n: int)
    requires input != map[] && Contiguous(input, m) && Contiguous(input, n)
    ensures m == n
  {
    assert !Assigned(input, m) && !Assigned(input, n);
    var raw :| raw in input;
  }

  /** The dimension of a loaded world. */
  function ResolvedDimension(dimension: Dimension, height: int16): Dimension {
    if dimension.name == "" && dimension.environment == Unset then DimensionPreset(Overworld, height)
    else NormalizedDimension(dimension, height)
  }

  /** A world is what a schematic loads to. */
  ghost predicate Loads(d: SpongeSchematic, opts: Options, world: MemoryWorld) {
    && DecodeIds(d.blockData).Ok?
    && Loadable(d, DecodeIds(d.blockData).value, |world.palette|)
    && (forall i | 0 <= i < |world.palette| :: EntryFrom(d.palette, i, world.palette[i]))
    && HoldsSchematic(world.chunks, d, DecodeIds(d.blockData).value)
    && world.dimension == ResolvedDimension(opts.dimension, d.height)
  }

  lemma LoadableDetermined(d: SpongeSchematic, ids: seq<uint32>, n: nat, ids': seq<uint32>, paletteSize: nat)
    requires Loadable(d, ids, n)
    requires Contiguous(d.palette, paletteSize) && DecodeIds(d.blockData) == Ok(ids')
    ensures ids == ids' && n == paletteSize
  {
    ContiguousUnique(d.palette, paletteSize, n);
  }

  /** Loading fails once an id is outside the palette or an index cannot be computed. */
  lemma NotLoadable(d: SpongeSchematic, ids: seq<uint32>, paletteSize: nat, id: uint32)
    requires Contiguous(d.palette, paletteSize) && DecodeIds(d.blockData) == Ok(ids)
    requires Volume(d) > 0x8000_0000 || (id in ids && id >= paletteSize)
    ensures !exists ids', n :: Loadable(d, ids', n)
  {
    forall ids', n
      ensures !Loadable(d, ids', n)
    {
      if Loadable(d, ids', n) {
        LoadableDetermined(d, ids', n, ids, paletteSize);
        assert false;
      }
    }
  }

  /** buildWorld: which schematics load, and every cell of the world one loads to. */
  method BuildWorld(d: SpongeSchematic, opts: Options) returns (r: Result<MemoryWorld, Error>)
    ensures r.Ok? <==> exists ids, n :: Loadable(d, ids, n)
    ensures r.Ok? ==>
      && DecodeIds(d.blockData).Ok?
      && Loadable(d, DecodeIds(d.blockData).value, |r.value.palette|)
      && (forall i | 0 <= i < |r.value.palette| :: EntryFrom(d.palette, i, r.value.palette[i]))
      && HoldsSchematic(r.value.chunks, d, DecodeIds(d.blockData).value)
      && r.value.dimension == ResolvedDimension(opts.dimension, d.height)
      && r.value.worldID == if opts.worldID == "" then "default" else opts.worldID
    ensures r.Ok? ==> Loads(d, opts, r.value)
  {
    if d.width <= 0 || d.height <= 0 || d.length <= 0 {
      return Err(NonPositiveDimensions);
    }
    if d.palette == map[] {
      return Err(MissingPalette);
    }
    var palette :- DecodePalette(d.palette);
    MulLeft(d.height, 0, d.length);
    MulLeft(d.width, 0, d.height * d.length);
    var blockIDs :- DecodeBlockData(d.blockData, d.height * d.length * d.width);
    var worldID := if opts.worldID == "" then "default" else opts.worldID;
    var dimension := opts.dimension;
    if dimension.name == "" && dimension.environment == Unset {
      dimension := DimensionPreset(Overworld, d.height);
    } else {
      dimension := NormalizeDimension(dimension, d.height);
    }
    var chunks :- FillChunks(d, blockIDs, |palette|);
    assert Loadable(d, blockIDs, |palette|);
    return Ok(MemoryWorld(worldID, dimension, palette, chunks));
  }

  /** Up to the first index that int32 cannot hold, the bounds check finds exactly that one. */
  lemma IndexChecked(d: SpongeSchematic, x: int32, y: int32, z: int32)
    requires InBox(d, x, y, z) && Index(d, x, y, z) <= 0x8000_0000
    ensures var i := BlockIndex(x, y, z, d.width, d.length);
      && (0 <= i < Volume(d) <==> Index(d, x, y, z) < 0x8000_0000)
      && (0 <= i < Volume(d) ==> i == Index(d, x, y, z))
      && (!(0 <= i < Volume(d)) ==> Volume(d) > 0x8000_0000)
  {
    BlockIndexExact(d, x, y, z);
    IndexInRange(d, x, y, z);
    BlockIndexWraps(d, x, y, z);
    hide Index, Volume, BlockIndex;
  }

  lemma BlockIndexWraps(d: SpongeSchematic, x: int32, y: int32, z: int32)
    ensures BlockIndex(x, y, z, d.width, d.length) == Int32(Index(d, x, y, z))
  {}

  /** The body of the three loops. */
  method FillBlock(store: ChunkStore, d: SpongeSchematic, blockIDs: seq<uint32>, paletteSize: nat,
                   x: int32, y: int32, z: int32) returns (error: Option<Error>)
    requires d.width > 0 && d.height > 0 && d.length > 0 && |blockIDs| == Volume(d) && InBox(d, x, y, z)
    requires Contiguous(d.palette, paletteSize) && DecodeIds(d.blockData) == Ok(blockIDs)
    requires FilledUpTo(store.chunks, d, blockIDs, x, y, z) && Index(d, x, y, z) <= 0x8000_0000
    modifies store
    ensures error.None? ==> 0 <= Index(d, x, y, z) < |blockIDs| && Index(d, x, y, z) < 0x8000_0000
    ensures error.None? ==> blockIDs[Index(d, x, y, z)] < paletteSize
    ensures error.None? ==> FilledUpTo(store.chunks, d, blockIDs, x + 1, y, z)
    ensures error.Some? ==> !exists ids, n :: Loadable(d, ids, n)
  {
    hide Contiguous, Loadable, CellFilled, BlockIndex, Locate, CellAt, Written, DecodeIds, Wrote, MeetsBox;
    IndexChecked(d, x, y, z);
    hide Index, Volume, InBox;
    var i := BlockIndex(x, y, z, d.width, d.length);
    if !(0 <= i < |blockIDs|) {
      NotLoadable(d, blockIDs, paletteSize, 0);
      return Some(Panic);
    }
    var paletteID := blockIDs[i];
    if paletteID >= paletteSize {
      NotLoadable(d, blockIDs, paletteSize, paletteID);
      return Some(PaletteIdOutOfRange);
    }
    ghost var before := store.chunks;
    store.SetBlock(x, y, z, paletteID);
    FillStep(before, store.chunks, d, blockIDs, x, y, z, paletteID);
    return None;
  }

  lemma NothingFilled(chunks: map<ChunkPos, Chunk>, d: SpongeSchematic, ids: seq<uint32>)
    requires chunks == map[] && |ids| == Volume(d)
    ensures FilledUpTo(chunks, d, ids, 0, 0, 0)
  {}

  /** The three nested loops of buildWorld. */
  method FillChunks(d: SpongeSchematic, blockIDs: seq<uint32>, paletteSize: nat)
      returns (r: Result<map<ChunkPos, Chunk>, Error>)
    requires d.width > 0 && d.height > 0 && d.length > 0 && |blockIDs| == Volume(d)
    requires d.palette != map[] && Contiguous(d.palette, paletteSize) && DecodeIds(d.blockData) == Ok(blockIDs)
    ensures r.Ok? ==> HoldsSchematic(r.value, d, blockIDs) && Volume(d) <= 0x8000_0000
    ensures r.Ok? ==> forall id | id in blockIDs :: id < paletteSize
    ensures r.Err? ==> !exists ids, n :: Loadable(d, ids, n)
  {
    hide FilledUpTo, Contiguous, HoldsSchematic, Loadable;
    var store := new ChunkStore();
    var y: int32 := 0;
    IndexSteps(d, 0, 0, 0);
    NothingFilled(store.chunks, d, blockIDs);
    while y < d.height
      invariant 0 <= y <= d.height
      invariant FilledUpTo(store.chunks, d, blockIDs, 0, y, 0)
      invariant 0 <= Index(d, 0, y, 0) <= |blockIDs| && Index(d, 0, y, 0) <= 0x8000_0000
      invariant forall k | 0 <= k < Index(d, 0, y, 0) :: blockIDs[k] < paletteSize
    {
      var z: int32 := 0;
      while z < d.length
        invariant 0 <= z <= d.length
        invariant FilledUpTo(store.chunks, d, blockIDs, 0, y, z)
        invariant 0 <= Index(d, 0, y, z) <= |blockIDs| && Index(d, 0, y, z) <= 0x8000_0000
        invariant forall k | 0 <= k < Index(d, 0, y, z) :: blockIDs[k] < paletteSize
      {
        var x: int32 := 0;
        while x < d.width
          invariant 0 <= x <= d.width
          invariant FilledUpTo(store.chunks, d, blockIDs, x, y, z)
          invariant 0 <= Index(d, x, y, z) <= |blockIDs| && Index(d, x, y, z) <= 0x8000_0000
          invariant forall k | 0 <= k < Index(d, x, y, z) :: blockIDs[k] < paletteSize
        {
          var error := FillBlock(store, d, blockIDs, paletteSize, x, y, z);
          if error.Some? {
            return Err(error.value);
          }
          IndexSteps(d, x, y, z);
          x := x + 1;
        }
        FillCarry(store.chunks, d, blockIDs, d.width, y, z, 0, y, z + 1);
        IndexSteps(d, 0, y, z);
        z := z + 1;
      }
      FillCarry(store.chunks, d, blockIDs, 0, y, d.length, 0, y + 1, 0);
      IndexSteps(d, 0, y, 0);
      y := y + 1;
    }
    IndexSteps(d, 0, 0, 0);
    FillDone(store.chunks, d, blockIDs);
    return Ok(store.chunks);
  }
}
