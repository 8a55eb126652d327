/** world.go: dimensions, chunks and block states, before any protocol is chosen. */
module World {
  import opened Bits
  import opened Wrappers

  // ----- dimensions

  datatype Environment = Overworld | Nether | End | Unset | Other(environment: string)

  /** The fields that decide which sections a chunk has.  The others (logical
      height, light, time, effects) only fill registry entries. */
  datatype Dimension = Dimension(name: string, environment: Environment, minY: int32, height: int32)

  /** Go's integer division, which truncates towards zero. */
  function TruncDiv(v: int, d: int): (q: int)
    requires d > 0
  {
    if v >= 0 then v / d else -((-v) / d)
  }

  /** It is the quotient whose remainder has the sign of v, so it is v / d rounded up below zero. */
  lemma TruncDivRounds(v: int, d: int)
    requires d > 0
    ensures var r := v - TruncDiv(v, d) * d; -d < r < d && (v >= 0 ==> r >= 0) && (v <= 0 ==> r <= 0)
    ensures TruncDiv(v, d) == v / d <==> v >= 0 || v % d == 0
  {
    if v < 0 {
      var q, r := (-v) / d, (-v) % d;
      assert v == (-q) * d - r;
      if r == 0 {
        DivMod(v, d, -q, 0);
      } else {
        DivMod(v, d, -q - 1, d - r);
      }
    }
  }

  lemma DivMod(v: int, d: int, q: int, r: int)
    requires d > 0 && v == q * d + r && 0 <= r < d
    ensures v / d == q && v % d == r
  {
    var k := v / d - q;
    assert v / d * d + v % d == v;
    assert k * d == r - v % d;
    assert k > 0 ==> k * d >= d;
    assert k < 0 ==> k * d <= -d;
  }

  function NormalizeDimensionHeight(height: int32): int32 {
    if height <= 0 then 0
    else if height % 16 != 0 then Int32(height + (16 - height % 16))
    else height
  }

  function FallbackHeight(height: int32, fallback: int32): int32 {
    if height > 0 then height else fallback
  }

  function DimensionPreset(environment: Environment, height: int32): Dimension {
    var resolved := FallbackHeight(NormalizeDimensionHeight(height), 256);
    match environment
    case Nether => Dimension("minecraft:the_nether", Nether, 0, resolved)
    case End => Dimension("minecraft:the_end", End, 0, resolved)
    case _ => Dimension("minecraft:overworld", Overworld, 0, resolved)
  }

  function InferDimensionEnvironment(name: string): Environment {
    if name == "minecraft:the_nether" then Nether
    else if name == "minecraft:the_end" then End
    else Overworld
  }

  method NormalizeDimension(dimension: Dimension, schematicHeight: int32) returns (d: Dimension)
    ensures d == NormalizedDimension(dimension, schematicHeight)
  {
    d := dimension;
    if d.environment == Unset {
      d := d.(environment := InferDimensionEnvironment(d.name));
    }
    if d.name == "" {
      return DimensionPreset(d.environment, schematicHeight);
    }
    if d.height == 0 {
      d := d.(height := NormalizeDimensionHeight(schematicHeight));
    }
    if d.height == 0 {
      d := d.(height := 256);
    }
  }

  function NormalizedDimension(d: Dimension, schematicHeight: int32): Dimension {
    var env := if d.environment == Unset then InferDimensionEnvironment(d.name) else d.environment;
    if d.name == "" then DimensionPreset(env, schematicHeight)
    else
      var h := NormalizeDimensionHeight(schematicHeight);
      var height := if d.height != 0 then d.height else if h != 0 then h else 256;
      d.(environment := env, height := height)
  }

  /** The environment that goes by a name. */
  function EnvironmentNamed(name: string): Environment {
    match name
    case "minecraft:the_nether" => Nether
    case "minecraft:the_end" => End
    case _ => Overworld
  }

  /** With a name, what has been given is kept and a missing height is derived.  Without one, the
      preset of the environment takes the place of everything given. */
  lemma NormalizedMeans(d: Dimension, schematicHeight: int32)
    ensures var r := NormalizedDimension(d, schematicHeight);
      && r.environment != Unset && r.name != "" && r.height != 0
      && (d.name != "" ==>
            && r.name == d.name && r.minY == d.minY
            && r.environment == (if d.environment == Unset then EnvironmentNamed(d.name) else d.environment)
            && (d.height != 0 ==> r.height == d.height))
      && (d.name == "" ==>
            && r.minY == 0 && r.environment == EnvironmentNamed(r.name)
            && r.name in {"minecraft:overworld", "minecraft:the_nether", "minecraft:the_end"}
            && (d.environment in {Overworld, Nether, End} ==> r.environment == d.environment)
            && (d.environment !in {Overworld, Nether, End} ==> r.environment == Overworld))
      && (d.name == "" || d.height == 0 ==>
            && r.height % 16 == 0
            && (schematicHeight <= 0 ==> r.height == 256)
            && (0 < schematicHeight <= 0x7fff_fff0 ==> schematicHeight <= r.height < schematicHeight + 16))
  {
    if schematicHeight > 0 {
      HeightRoundsUp(schematicHeight);
    }
    assert 0x7fff_fff0 < schematicHeight ==> NormalizeDimensionHeight(schematicHeight) == -0x8000_0000;
  }

  /** Once is enough, whatever the height of a second schematic. */
  lemma NormalizedOnce(d: Dimension, schematicHeight: int32, other: int32)
    ensures var r := NormalizedDimension(d, schematicHeight); NormalizedDimension(r, other) == r
  {
    NormalizedMeans(d, schematicHeight);
  }

  /** What a caller gives with an empty name is lost, against the source's own comment. */
  lemma UnnamedLosesHeight()
    ensures NormalizedDimension(Dimension("", Nether, -64, 384), 10) == Dimension("minecraft:the_nether", Nether, 0, 16)
  {}

  /** Rounding up gives the least multiple of 16 that is not below the height,
      exactly for the heights whose next multiple still fits an int32. */
  lemma HeightRoundsUp(height: int32)
    requires height > 0
    ensures var h := NormalizeDimensionHeight(height);
            (h % 16 == 0 && height <= h < height + 16) <==> height <= 0x7fff_fff0
  {}

  // ----- chunks

  datatype BlockState = BlockState(name: string, properties: map<string, string>)

  datatype Section = Section(y: int32, ids: seq<uint32>)

  datatype Chunk = Chunk(x: int32, z: int32, minY: int32, sections: seq<Section>)

  datatype ChunkPos = ChunkPos(x: int32, z: int32)

  const SECTION_CELLS := 4096

  /** The first section with that Y. */
  function SectionAt(sections: seq<Section>, y: int): (s: Option<Section>)
    ensures s.Some? ==> s.value in sections && s.value.y == y
    ensures s.None? ==> forall t | t in sections :: t.y != y
  {
    if sections == [] then None
    else if sections[0].y == y then Some(sections[0])
    else SectionAt(sections[1..], y)
  }

  /** findSection of protocol47.go. */
  method FindSection(chunk: Chunk, y: int32) returns (s: Option<Section>)
    ensures s == SectionAt(chunk.sections, y)
  {
    for i := 0 to |chunk.sections|
      invariant SectionAt(chunk.sections, y) == SectionAt(chunk.sections[i..], y)
    {
      if chunk.sections[i].y == y {
        return Some(chunk.sections[i]);
      }
    }
    return None;
  }

  ghost predicate Ascending(sections: seq<Section>) {
    forall i, j | 0 <= i < j < |sections| :: sections[i].y < sections[j].y
  }

  /** In an ascending list the section with a given Y is the only one with that Y. */
  lemma {:induction false} SectionAtUnique(sections: seq<Section>, s: Section)
    requires Ascending(sections) && s in sections
    ensures SectionAt(sections, s.y) == Some(s)
  {
    if sections[0] != s {
      SectionAtUnique(sections[1..], s);
    }
  }

  datatype MemoryWorld = MemoryWorld(
    worldID: string, dimension: Dimension, palette: seq<BlockState>, chunks: map<ChunkPos, Chunk>)
}
