# limbgo in Dafny

limbgo is a limbo server for Minecraft written in Go. This project models the parts of it that carry
hard properties and proves those properties with Dafny 4.11 (`dafny verify dfyconfig.toml`).

| module | models |
|---|---|
| `Bits`, `Wrappers`, `Codec` | machine integers written out as arithmetic, options and results, runs of encoded items |
| `Wire` | VarInts, numbers, strings and packets of `internal/protocol/wire` |
| `World`, `Schematic` | dimensions, chunks and sections; loading a Sponge schematic into them |
| `ChunkData`, `LegacyChunks` | chunk bodies of the modern, 1.8, 1.12 and flat formats, with a reader for each |
| `Pipeline` | schematic to client, end to end |
| `MiniMessage`, `MiniMessagePrint`, `MiniMessageKeeps` | the parser, a printer it inverts, and what of an input a tree keeps |
| `MiniMessageColors`, `MiniMessageRender`, `MiniMessageText`, `MiniMessageStyle`, `MiniMessagePaint` | gradients, the renderer, what it shows or when it panics, in which style, and which colours it asks for |
| `Nbt`, `JsonNbt`, `GenNbt` | NBT trees with a reader; the JSON encoder and the registry generator's encoder |
| `Cfb8` | the cipher stream and the encrypted connection |
| `RateLimit`, `Server`, `ResourcePacks`, `Login`, `ProxyProtocol` | components with state, over whole runs |
| `ProtocolRanges` | the list of supported protocols as ranges |

Code that changes things in steps is a method or a class here, proved against a function on values; the
lemmas are about those functions. A reader written for the proof (a client's, or an NBT reader) is the
independent side of every round trip.

How the source is rendered:

- Bit operations are arithmetic: `x & 0x7f` is `x % 128`, a right shift a division, and an `|` a sum,
  with the proof that the parts do not overlap. Section masks (`bv32`) and cipher bytes (`bv8`) are bit vectors.
  Widths are explicit: `int32` is a subset type and sums wrap through `Int32` where the source's do.
- Ranging over a Go map is choosing elements in an arbitrary order, so every contract holds for every order.
  `sort.Slice` and `sort.Strings` are insertion sorts with the contract of a sort; with distinct keys there is
  only one result.
- MiniMessage works on runes where the source works on the bytes of UTF-8, and lower-cases ASCII only.
  Gradients are over `real`.
- The block-state table, block cipher, RSA, SHA-1, UUID functions, `net.ParseIP`, policies and verifiers are
  arbitrary functions. Time is an integer and 0 is Go's zero time. Failing writes and foreign answers are inputs.
- A panic is a result of its own: an error in `Schematic`, `Panic` or `None` in `MiniMessageRender`.

What the proofs found about the code:

- `floorDiv` is wrong within 15 of the least int32, and two far-apart blocks then share a cell; `blockIndex` wraps
  from two to the 31 on, and a schematic of a larger volume would make `buildWorld` panic. `Load` never gets to either: an
  NBT byte array has fewer than two to the 31 bytes, and the coordinates are from 0 to below 32767
  (`LoadedIndicesExact`).
- `NormalizeDimension` drops the minimum Y and the height that are given with an empty name.
- A section with more than sixteen states is not shown right: the index is cut to four bits. Protocol 47 cuts states to
  sixteen bits.
- `renderTranslation` panics on `lang_or`, `tr_or` and `translate_or` with exactly one argument, because it slices from
  2 to 1; also inside a hover text or the argument of another translation, which are parsed in turn.
- An unrecognised tag inside a gradient counts as one rune in the total but is coloured rune by rune, so the
  index can run past the total; the runes beyond it all get the last stop.
- A gradient over a single rune paints nothing.
- An unknown tag is shown as it was written, but the text inside it is not shown at all (`OnlyUnknownTagsHideNodes`).
- An encryption response whose token is empty is refused, because a `bytes.Reader` at its end reports the end even for no bytes.
  Encrypted bytes that are already buffered when the cipher is installed are lost, and up to sixteen behind them garbled
  under a 16-byte secret.
- Both NBT encoders write a text of 65536 bytes or more behind a cut length, and the generator writes a field of type
  end as its tag alone: such trees are not read back (`Nbt.RoundTripExactly`).
- `untrackConn` closes the socket before it takes the join. When the address connects again in between and resolves
  a join of its own, one of the two joins is lost; `TakesOwnExactly` and `ReleasedExactly` say when.
- `forgetResourcePack` deletes the UUID's index entry even for an id that is not live, and adding an id again with another hash
  leaves the old hash in the index; `RunAgrees` says exactly which updates keep the index right.
- Requests read the clock before they take the limiter's lock. A cleanup by a request with a later time can then admit one
  that would have been refused (`CleanupChangesAnswer`), and what an interval can serve depends on that lag too.

## Model

| member | source | states |
|---|---|---|
| Schematic.LocateExact | world/schematic/load.go:185-225 | on every coordinate that is not within 15 of the least int32, a block's chunk, section and cell are the floored quotients and remainders by 16 |
| Schematic.LocateInjective | world/schematic/load.go:185-225 | two blocks in that range never share a chunk, section and cell: the 3-D index split is injective |
| Schematic.LocateCollides | world/schematic/load.go:251-256 | outside that range it does fail: two far-apart coordinates are stored in one cell |
| Schematic.FloorDivExact | world/schematic/load.go:251-256 | floorDiv rounds down if and only if the value is at least -2147483632; below that the negation wraps |
| Schematic.ModExact | world/schematic/load.go:258-264 | mod is the non-negative remainder for every int32 |
| Schematic.IndexSplit | world/schematic/load.go:247-249 | the cell index is the three local coordinates as base-16 digits, y above z above x |
| Schematic.BlockIndexExact | world/schematic/load.go:243-245 | the int32 index of a block of the schematic is its place in y, z, x order if and only if that place is below two to the 31 |
| Schematic.IndexSteps | world/schematic/load.go:243-245 | the place goes up by one along x, from the end of a row to the next z, from the end of a layer to the next y, and from 0 to the volume |
| Schematic.LoadedIndicesExact | world/schematic/load.go:58-105 | with fewer than two to the 31 bytes of block data that hold an id a block, the volume is below two to the 31, and every index and coordinate buildWorld computes is exact |
| Schematic.ReadSchematicVarInt | world/schematic/load.go:169-183 | decodes the same numbers as a network VarInt reader, moves past exactly the bytes it used, and tells truncation from an overlong number |
| Schematic.DecodeBlockData | world/schematic/load.go:153-167 | succeeds exactly if the data is a run of VarInts of the expected number, and returns them |
| Schematic.DecodeIdsRoundTrip | world/schematic/load.go:153-167 | block data written as VarInts is read back exactly, so no ids run together |
| Schematic.ParseBlockState | world/schematic/load.go:131-151 | a parsed block state never has an empty name, on which decodePalette relies to see holes; what name and properties it has is StateTextParses and BareNameParses |
| Schematic.StateTextParses | world/schematic/load.go:131-151 | a state written as a name and bracketed pairs is parsed to that name, in the minecraft namespace if it has none, and exactly those properties, of a key written twice the later |
| Schematic.BareNameParses | world/schematic/load.go:131-151 | anything that has no bracket, or does not end in one, is all name and has no properties |
| Schematic.MaxPaletteId | world/schematic/load.go:108-116 | finds the greatest id of a map in any iteration order, or a negative id |
| Schematic.FillPalette | world/schematic/load.go:118-122 | every key puts a named entry at its id, and every named entry comes from a key with that id |
| Schematic.DecodePalette | world/schematic/load.go:107-129 | succeeds if and only if the ids are exactly 0 to n-1 with no negative one; every entry then comes from a key with its id; each failure names a real defect |
| Schematic.SortSections | world/schematic/load.go:185-225 | the sections sorted by Y: strictly ascending and the same set |
| Schematic.ChunkStore.SetBlock | world/schematic/load.go:185-225 | an update of the map from places to ids: the addressed cell changes, a missing section comes into being as 4096 zeroes, every other cell of every chunk stays; sections stay unique, ascending and 4096 long |
| Schematic.LastWriteWins | world/schematic/load.go:185-225 | after any writes at coordinates not within 15 of the least int32, each block holds what the last write to it says, and every other block what it held or the 0 its section came into being with |
| Schematic.FinalIsLast | world/schematic/load.go:185-264 | the last id written to a block is the one it holds |
| Schematic.FinalUnwritten | world/schematic/load.go:185-264 | a block not written to is unchanged, or 0 if its section was missing and another of its blocks was written |
| Schematic.FillStep | world/schematic/load.go:86-97 | one iteration of the innermost loop extends the filled part of the world by exactly one block |
| Schematic.FillDone | world/schematic/load.go:86-97 | when the loops end every cell of the world is what the schematic demands |
| Schematic.CornerPresent | world/schematic/load.go:86-97 | a section the schematic reaches into always has its first cell written, so it exists |
| Schematic.FillChunks | world/schematic/load.go:86-97 | the three nested loops give the world that holds the schematic, or an error only if the schematic cannot be loaded |
| Schematic.NotLoadable | world/schematic/load.go:58-105 | loading fails once an id is outside the palette or an index cannot be computed |
| Schematic.BuildWorld | world/schematic/load.go:58-105 | a schematic loads if and only if its sizes are positive, its palette contiguous, its data one VarInt a block, its ids inside the palette and its volume at most two to the 31; the world then has the schematic's id at each block, 0 in the rest of a touched section and nothing elsewhere |
| World.NormalizedMeans | world.go:111-135 | with a name, what is given is kept and a missing height derived; without one the environment's preset replaces minimum Y and height whatever was given; the height is never 0, and a derived one is the schematic's rounded up to 16, or 256 |
| World.NormalizedOnce | world.go:111-135 | normalising a second time, for any other schematic, changes nothing |
| World.UnnamedLosesHeight | world.go:109-117 | a concrete dimension whose explicit minimum Y and height are lost because its name is empty, against the source's own comment |
| World.HeightRoundsUp | world.go:148-156 | rounding gives the least multiple of 16 not below the height if and only if the height is at most 2147483632 |
| World.FindSection | protocol/limbo/protocol47.go:176-183 | the first section with that Y, or none if there is none |
| World.SectionAtUnique | protocol/limbo/protocol47.go:176-183 | in an ascending list each section is the one found under its Y |
| World.TruncDivRounds | protocol/limbo/protocol766_data.go:149-161 | Go's division: the remainder has the sign of the number, so a negative minimum Y that is no multiple of 16 is rounded up, and the division is the floor if and only if it need not round |
| ChunkData.LocalPaletteProperties | protocol/limbo/protocol766_data.go:201-216 | the local palette has no duplicates and holds exactly air and the section's states |
| ChunkData.BuildLocalPalette | protocol/limbo/protocol766_data.go:201-216 | the loop with its seen map gives that palette; buildLocalPalette340 has the same body |
| ChunkData.PackSectionPaletteIndices | protocol/limbo/protocol766_data.go:218-233 | the array of 256 words is the packing of the cells' palette indices, missing cells as air; packSectionPaletteIndices340 has the same body |
| ChunkData.AppendNibble | protocol/limbo/protocol766_data.go:218-233 | putting one more nibble into a word keeps all before it and adds the new one at its slot |
| ChunkData.PackingLossless | protocol/limbo/protocol766_data.go:218-233 | nibble i of the packed words is the i-th index, for all 4096 cells |
| ChunkData.SeenExactlyUpToSixteen | protocol/limbo/protocol766_data.go:218-233 | a client sees every one of the 4096 cells right if and only if the section has at most sixteen states, air included: beyond that the index is cut to four bits |
| ChunkData.NonAirBlockCount | protocol/limbo/protocol766_data.go:235-246 | counts the ids whose protocol state is not air |
| ChunkData.NonZeroCells | protocol/limbo/protocol766_data.go:235-246 | for a section of at most 4096 ids that is the number of cells a client sees that are not air |
| ChunkData.VarIntsRoundTrip | protocol/limbo/protocol766_data.go:173-191 | a run of palette entries is read back, whatever follows |
| ChunkData.LongsRoundTrip | protocol/limbo/protocol766_data.go:173-191 | a run of words is read back, whatever follows |
| ChunkData.ContainerRoundTrip | protocol/limbo/protocol766_data.go:173-191 | any palette with any indices into it is read back as the cells, with or without the length fields, whatever follows |
| ChunkData.WriteBlockStates766 | protocol/limbo/protocol766_data.go:173-191 | appends the container of the section, always with four bits an entry, its palette, the length field if the protocol has one, and 256 words |
| ChunkData.BlockStatesRoundTrip | protocol/limbo/protocol766_data.go:173-191 | a reader of the container gets the cells a client sees and takes exactly the container's bytes |
| ChunkData.WriteSection766 | protocol/limbo/protocol766_data.go:163-171 | appends the counts, the block states and the biomes, as the protocol version's flags say |
| ChunkData.WriteBiomes766 | protocol/limbo/protocol766_data.go:193-199 | appends the single-value biome container |
| ChunkData.BiomesRoundTrip | protocol/limbo/protocol766_data.go:193-199 | a reader finds biome 0 and takes exactly those bytes |
| ChunkData.SectionRoundTrip | protocol/limbo/protocol766_data.go:163-171 | a whole section is read back, both header counts, cells and biome, whatever follows |
| ChunkData.EncodeChunkDataModern | protocol/limbo/protocol766_data.go:149-161 | the chunk body is the sections from the dimension's lowest up, one for each 16 blocks of height; what state each id is sent as is Pipeline.SentIsShown |
| ChunkData.ChunkRoundTrip | protocol/limbo/protocol766_data.go:149-161 | the body is read back section by section and to its last byte |
| Pipeline.ChunkPresent | world/schematic/load.go:58-105 | a chunk is stored if and only if the schematic reaches under or over it |
| Pipeline.SchematicToClient | protocol/limbo/protocol766_data.go:149-161 | for every block position of a stored chunk, decoding the chunk's bytes shows a section if and only if the dimension covers it, whose header is its number of non-air cells; with at most sixteen states the cell shows the schematic's protocol state, palette entry 0 in the rest of a touched section, air elsewhere |
| Pipeline.DefaultDimensionCovers | world.go:148-156 | with the default dimension no section of the schematic is lost |
| Pipeline.SentIsShown | protocol/limbo/protocol47.go:185-194 | the state sent for an id is the table's for that palette entry, air for an unknown entry or an id outside the palette, and nothing else shows the same |
| Pipeline.FewAreSixteen | protocol/limbo/protocol766_data.go:201-216 | a local palette has at most sixteen entries if and only if sixteen states, air among them, are enough to show every id of the section |
| Pipeline.EntryIsWritten | world/schematic/load.go:107-129 | in a loaded world the entry of an id written as a name and properties has that name and exactly those properties |
| Pipeline.EveryBlockReachesTheClient | world/schematic/load.go:58-105 | end to end with the default dimension, in terms of the block-state table and the loaded palette alone: if the section has at most sixteen states with air, the cell a client reads for a block of the schematic is what the table has for the palette entry of the block's id, and air if the table has nothing |
| Pipeline.EveryBlockReachesALegacyClient | protocol/limbo/protocol47.go:123-183 | end to end for protocol 47, the paletted and the flat formats, in terms of the table and the loaded palette alone: a block of the schematic is in a section that is read if and only if it is below 256, and its cell is then what the table has for its palette entry, if the format can hold the section's states |
| LegacyChunks.SectionMask | protocol/limbo/protocol340.go:107-115 | bit y of the mask is set if and only if the chunk has a section with that Y in 0 to 15 |
| LegacyChunks.SetBits | protocol/limbo/protocol340.go:136-147 | the set bits in ascending order, each once |
| LegacyChunks.OrBit | protocol/limbo/protocol340.go:107-115 | setting a bit sets that bit and no other |
| LegacyChunks.EncodeChunkData47 | protocol/limbo/protocol47.go:154-174 | the masked sections as big-endian shorts with their light, then 256 biome bytes |
| LegacyChunks.WriteSection340 | protocol/limbo/protocol340.go:149-168 | one section in the paletted form with its light |
| LegacyChunks.EncodeChunkData340 | protocol/limbo/protocol340.go:136-147 | the masked sections in the paletted form, then 256 biome bytes |
| LegacyChunks.WriteSectionFlatSolid | protocol/limbo/protocol_flat.go:209-212 | one section in the flat form with its block count |
| LegacyChunks.EncodeChunkDataFlat | protocol/limbo/protocol_flat.go:188-207 | the masked sections as the config's flags say, then the biomes the config asks for |
| LegacyChunks.LowCellsExact | protocol/limbo/protocol47.go:154-174 | shorts keep every cell if and only if every state is below 65536 |
| LegacyChunks.LegacySectionRoundTrip | protocol/limbo/protocol340.go:149-168 | in each of the formats a section is read back, whatever follows |
| LegacyChunks.MaskedRoundTrip | protocol/limbo/protocol340.go:136-147 | a reader driven by the mask gets one section for each set bit and stops where the trailing bytes start |
| LegacyChunks.LegacySeenExact | protocol/limbo/protocol340.go:170-185 | the cells read are the chunk's if and only if the format can hold the section's states; the flat block count is the number of non-air cells |
| LegacyChunks.LegacyChunkRoundTrip | protocol/limbo/protocol47.go:123-174 | with the mask the server sends, the sections read are exactly the Ys in 0 to 15 present, in ascending order, with all their cells where the format can hold them and with dark light, and nothing but the trailing bytes is left |
| LegacyChunks.FlatChunkRoundTrip | protocol/limbo/protocol_flat.go:188-207 | a client that goes by its version's flags reads the sections with a block count or with light, all cells if there are at most sixteen states, and 256 times biome 1 or no biomes, to the last byte |
| MiniMessage.FindTagEnd | minimessage/minimessage.go:126-154 | the first > outside quotes, with backslash escapes inside them |
| MiniMessage.SplitArgs | minimessage/minimessage.go:176-217 | the parts between colons outside quotes, unescaped, or an error for a quote left open |
| MiniMessage.ParseRawTag | minimessage/minimessage.go:156-174 | name, arguments and self-closing mark, or an error |
| MiniMessage.Parse | minimessage/minimessage.go:58-124 | parsing ends, at a position from its start to the input's length, and with no closing tag it has consumed the whole input |
| MiniMessage.ParseNodes | minimessage/minimessage.go:58-124 | the loop with its nested calls computes from any position the parse that NothingIsLost, TextAlone and PrintThenParse are about |
| MiniMessagePrint.SplitFailsOnOpenQuote | minimessage/minimessage.go:176-217 | splitArgs fails if and only if a quote is left open |
| MiniMessagePrint.TagEndClosesQuotes | minimessage/minimessage.go:126-154 | findTagEnd stops only where no quote is open |
| MiniMessagePrint.TrimKeepsClosed | minimessage/minimessage.go:156-174 | trimming white space never opens a quote |
| MiniMessagePrint.SlicesSplit | minimessage/minimessage.go:156-174 | on a slice cut by findTagEnd the unterminated-quote error never comes, whatever parseTag trims off; so a slice is a tag if and only if its name is not empty |
| MiniMessagePrint.PrintedTagParses | minimessage/minimessage.go:156-174 | a printed tag is parsed back: its name, every argument unquoted, and its raw text |
| MiniMessagePrint.ElementParses | minimessage/minimessage.go:58-124 | a printed element is parsed back wherever it stands, then the parse goes on behind it |
| MiniMessagePrint.NodesParse | minimessage/minimessage.go:58-124 | at every depth printed nodes are parsed back up to the closing tag |
| MiniMessagePrint.PrintThenParse | minimessage/minimessage.go:18-25 | printing any normal tree and parsing it gives the same tree |
| MiniMessagePrint.PrintInjective | minimessage/minimessage.go:18-25 | so no two normal trees print alike |
| MiniMessageKeeps.NothingIsLost | minimessage/minimessage.go:58-124 | for every input the tree spells the input: its texts in order, up to escaping backslashes, and each tag as it is written before its nodes; only a closing tag that closes an open one of its name is in no node |
| MiniMessageKeeps.ParseSpells | minimessage/minimessage.go:58-124 | the same from any position, up to the closing tag that is looked for or the end of the input |
| MiniMessageKeeps.TextAlone | minimessage/minimessage.go:85-99 | without backslashes, an input is one text, unchanged, if and only if no slice of it that findTagEnd cuts is an opening tag: malformed tags, and closing tags that close nothing, are kept as they are written |
| MiniMessageKeeps.EveryFormParses | minimessage/minimessage.go:156-174 | a tag in any letter case, with white space around it, with a slash before or behind, is the tag of its lower-case name and its arguments, a closing tag if and only if the slash is before, and closing itself if it is behind |
| MiniMessageKeeps.EitherQuote | minimessage/minimessage.go:176-217 | whatever stands in single or double quotes, with that quote and backslashes escaped, is one argument and ends no tag |
| MiniMessageRender.CountVisibleRunes | minimessage/minimessage.go:486-499 | the loop computes the rune total a transform is given |
| MiniMessageRender.Transform.Color | minimessage/minimessage.go:235-239 | a colour call answers for the index it is given, and is recorded |
| MiniMessageRender.RenderTextParts | minimessage/minimessage.go:455-470 | the loop that moves the colour index computes the parts, the new index and the colour calls |
| MiniMessageRender.ParseOrText | minimessage/minimessage.go:29-35 | a nested text is parsed and rendered, or panics |
| MiniMessageRender.ParseSize | minimessage/minimessage.go:58-124 | a parsed tree is no larger than its text, so nesting texts in arguments ends |
| MiniMessageRender.RenderTranslationTag | minimessage/minimessage.go:390-405 | the arguments rendered one by one, or a panic for the slice that is out of range |
| MiniMessageRender.RenderHover | minimessage/minimessage.go:368-383 | the text of a hover tag, or the name of its entity, parsed and rendered |
| MiniMessageRender.RenderNodes | minimessage/minimessage.go:241-260 | the loop that threads style and index through nested tags computes the rendering, panics included |
| MiniMessageRender.RenderOne | minimessage/minimessage.go:262-320 | one tag's parts, next style, moved index, or a panic, as in the rendering that StyledAsWritten, TextPreserved and IndexAdvances are about |
| MiniMessageText.PanicsExactly | minimessage/minimessage.go:241-260 | rendering panics if and only if some tag it comes to, at any nesting, in hover texts and translation arguments too, is a lang_or, tr_or or translate_or with exactly one argument; style and transform make no difference |
| MiniMessageText.TextPanicsExactly | minimessage/minimessage.go:18-35 | the same for a text that is parsed first |
| MiniMessageText.FallbackOfOnePanics | minimessage/minimessage.go:390-405 | for every argument, lang_or with that argument panics, and so does every hover over text whose hover text it is, though that tree has recognised tags only |
| MiniMessageText.TextPreserved | minimessage/minimessage.go:241-260 | for every style and transform, rendering that does not panic shows the visible text, in order |
| MiniMessageText.SourceTextPreserved | minimessage/minimessage.go:262-320 | a tree of recognised tags shows exactly its source text, if and only if no tag met in its hover texts breaks it |
| MiniMessageStyle.StyledAsWritten | minimessage/minimessage.go:241-383 | for every tree, style and transform, the rendered components are the shown texts and translations in order, and each has the style its tags say: its colour, each decoration, font, insertion, click and hover are those of the innermost tag around it that says something of them, or of the style outside; painted runes have the colour of their place; behind an element the style is the one before it, and behind a reset empty |
| MiniMessageStyle.TextStyledAsWritten | minimessage/minimessage.go:18-35 | the same for a text that is parsed first, which is an empty text, the one component, or all of them as one |
| MiniMessageStyle.InnerChanges | minimessage/minimessage.go:322-388 | inside a tag whose nodes are rendered the style differs by just what the tag says, under each of the written names, with an exclamation mark or the argument false for off |
| MiniMessageStyle.InnermostDecides | minimessage/minimessage.go:322-388 | the tag that decides is the one that says something while none inside it does |
| MiniMessageStyle.ChildrenShownExactly | minimessage/minimessage.go:262-320 | the nodes of a tag are rendered if and only if it says something, or is a gradient, a rainbow, a transition, or a click or hover with an action and a value; any other tag is shown as written |
| MiniMessageStyle.OnlyUnknownTagsHideNodes | minimessage/minimessage.go:58-124 | in every parsed tree the only tags with nodes that are not rendered are unknown ones; a reset, a line break, a translation or a tag without effect never has nodes |
| MiniMessageStyle.ColoursInOrder | minimessage/minimessage.go:511-519 | the colours among arguments are those of each argument that is a colour, in order |
| MiniMessageStyle.JoinedSplits | minimessage/minimessage.go:363-385 | arguments without quotes and colons, joined for a hover or click value, are split into the same arguments again |
| MiniMessagePaint.IndexAdvances | minimessage/minimessage.go:455-470 | the colour index moves by exactly the runes consumed, and the colours asked for are those of the indices it moves over, across all nesting |
| MiniMessagePaint.TransformIndices | minimessage/minimessage.go:271-308 | inside a gradient or rainbow the indices asked for are 0, 1, 2 and so on up to the runes consumed, or none if one rune was counted |
| MiniMessagePaint.IndexBelowTotal | minimessage/minimessage.go:455-499 | all of them are below the total if and only if no more runes are consumed than counted, or one was counted |
| MiniMessagePaint.RecognisedBelowTotal | minimessage/minimessage.go:486-499 | so they are with recognised tags inside |
| MiniMessagePaint.LiteralOverruns | minimessage/minimessage.go:486-499 | a gradient over "ab" and an unknown tag: seven indices asked for out of a total of three, and the rendered runes from the third on all have the last stop |
| MiniMessagePaint.RunPainted | minimessage/minimessage.go:241-260 | text, line breaks, literal and style tags under a transform are painted rune by rune as one run, whatever the nesting |
| MiniMessagePaint.QuietTransform | minimessage/minimessage.go:455-463 | a transform that counted one rune leaves everything as it is without it |
| MiniMessagePaint.GradientPaints | minimessage/minimessage.go:271-283 | each rune of such a run in a gradient has the colour of its place among the runes counted, and those beyond them the last stop |
| MiniMessagePaint.GradientReachesItsEnds | minimessage/minimessage.go:271-283 | over non-empty plain text a gradient paints its first rune in its first stop and its last in its last if and only if there is more than one rune; a single rune is left as it is without the gradient |
| MiniMessageColors.MixBetween | minimessage/minimessage.go:619-626 | an interpolated channel lies between the two it is made of |
| MiniMessageColors.GradientPosBounds | minimessage/minimessage.go:576-590 | the position among the stops stays within them, 0 at the first index and the last stop from the last index on |
| MiniMessageColors.GradientEnds | minimessage/minimessage.go:576-590 | the first index gets the first stop and the last index the last stop |
| MiniMessageColors.GradientIsBlend | minimessage/minimessage.go:494-532 | before the last index each channel is the whole-number quotient of the weighted sum of the two stops it is between, the stop and the weight being quotient and remainder of the index times the gaps by the total less one |
| MiniMessageColors.LastStop | minimessage/minimessage.go:576-590 | and so does every index beyond |
| Nbt.RoundTripExactly | tools/mcregistry-gen/main.go:529-653 | a tree of any of the thirteen tags is read back, as payload and with its tag, whatever follows it, if and only if it is within the format's limits: texts and names below 65536 bytes, counts below two to the 31, lists of one tag, no field of type end |
| Nbt.ReadFits | tools/mcregistry-gen/main.go:558-653 | whatever the bytes, what a reader makes of them is within those limits and has the tag it was read under |
| Nbt.FullRoundTrip | protocol/limbo/modern_nbt.go:132-140 | after fullNBT the same bytes are read in named form, with an empty name |
| JsonNbt.WriteAnonymousJSONNBT | protocol/limbo/play_events.go:966-1009 | succeeds if and only if the value has a tree, and then appends that tree's bytes |
| JsonNbt.WriteJSONNBTPayload | protocol/limbo/play_events.go:1020-1058 | the same for a payload under a given tag, with nulls, bad numbers and tags that do not fit the value |
| JsonNbt.WriteEntries | protocol/limbo/play_events.go:1011-1029 | the fields of an object in the order the map is ranged over |
| JsonNbt.WriteJSONListPayload | protocol/limbo/play_events.go:1067-1082 | a list under the tag of its first value, into which every other value is written as if it were of that tag, or an error |
| JsonNbt.SucceedsExactly | protocol/limbo/play_events.go:1020-1058 | under a tag a value is written if and only if every number under a number tag, all the way down, has a value of that kind |
| JsonNbt.TopSucceedsExactly | protocol/limbo/play_events.go:966-1009 | the same for a whole value, but that a null is an empty compound and a number without a value is an error |
| JsonNbt.OtherKinds | protocol/limbo/play_events.go:1020-1058 | under the tag of another kind a value is written as nothing of that kind, and is an error only under the tag of a number |
| JsonNbt.WellFormed | protocol/limbo/play_events.go:966-1009 | whatever the value, mixed lists and nulls included, and whatever the map order, the bytes are read as one tree to their last byte, whatever follows, if and only if the texts, names and lists that are written are within the format's limits; and then also after fullNBT |
| JsonNbt.SameExactly | protocol/limbo/play_events.go:1020-1058 | under any tag the tree is the value if and only if the value is faithful and the tag its own |
| JsonNbt.FaithfulExactly | protocol/limbo/play_events.go:966-1009 | reading gives the value back if and only if its lists are of one tag throughout, it has no null, and its integers fit int32 |
| JsonNbt.Int32Exact | protocol/limbo/play_events.go:1117-1135 | an integer survives if and only if it fits int32 |
| GenNbt.PairDenotes | tools/mcregistry-gen/main.go:710-736 | a pair of integers is read as a 64-bit integer if and only if it is its upper and its lower half, in that order |
| GenNbt.AllInts | tools/mcregistry-gen/main.go:748-764 | an array has a value if and only if each of its numbers has one |
| GenNbt.LessMeans | tools/mcregistry-gen/main.go:611-615 | one name comes before another if and only if it has the smaller byte where they first differ, or ends there |
| GenNbt.LessTotal | tools/mcregistry-gen/main.go:611-615 | the order names are sorted by is total and strict |
| GenNbt.SortedUnique | tools/mcregistry-gen/main.go:611-615 | a set of names has only one sorted order, so the map's order does not show |
| GenNbt.SortStrings | tools/mcregistry-gen/main.go:611-615 | the names sorted, and the same names |
| GenNbt.WritePayload | tools/mcregistry-gen/main.go:558-653 | for all thirteen tags: succeeds if and only if the raw value has a tree under the tag, and then appends its bytes; which values have one is EncodedExactly, and what the tree says TreeSays |
| GenNbt.WriteListPayload | tools/mcregistry-gen/main.go:655-675 | the element tag, the count and the elements |
| GenNbt.WriteFields | tools/mcregistry-gen/main.go:606-621 | the fields of a compound in the order of their names |
| GenNbt.TreeSays | tools/mcregistry-gen/main.go:558-653 | the tree written says exactly the raw value - integers read signed at the width of their tag, float bits, text, arrays and lists element by element, compounds entry by entry - if and only if each integer fits its width |
| GenNbt.EncodedExactly | tools/mcregistry-gen/main.go:558-653 | a value is encoded under a tag if and only if it has the kind of value the tag asks for, all the way down |
| GenNbt.CompoundIsItsMap | tools/mcregistry-gen/main.go:606-621 | a compound is encoded if and only if each entry is, and its fields are then the map's entries, each once, in the order of their names |
| GenNbt.EncodeAnonymousNBT | tools/mcregistry-gen/main.go:529-543 | the bytes are a function of the value alone, and there are none for a root that is no compound |
| GenNbt.GeneratedRoundTrip | tools/mcregistry-gen/main.go:529-543 | every value that is encoded is read back as its tree, of every tag, whatever follows, if and only if its texts and arrays are within the format's limits and it has no field of type end |
| Cfb8.DecryptEncrypt | protocol/limbo/session_auth.go:235-247 | for every block function and vector, decrypting undoes encrypting |
| Cfb8.EncryptDecrypt | protocol/limbo/session_auth.go:235-247 | and encrypting undoes decrypting |
| Cfb8.CipherBytes | protocol/limbo/session_auth.go:235-247 | each byte of ciphertext is the byte of plaintext against the first byte of the encrypted register, which is the last bytes of the vector and the ciphertext before it (section 6.3 of NIST SP 800-38A) |
| Cfb8.TransformedSplit | protocol/limbo/session_auth.go:235-247 | a second call goes on as one call over both parts would, in output and in register |
| Cfb8.ChunkingInvisible | protocol/limbo/session_auth.go:235-247 | how a stream is cut into calls does not matter, in either direction |
| Cfb8.PeersAgree | protocol/limbo/session_auth.go:203-215 | whatever is written in some chunks is read back in any others |
| Cfb8.PrefixDecrypts | protocol/limbo/session_auth.go:203-209 | what has arrived so far decrypts to what was written first |
| Cfb8.Stream.constructor | protocol/limbo/session_auth.go:224-233 | the register is a copy of the vector |
| Cfb8.Stream.Shift | protocol/limbo/session_auth.go:235-247 | the register becomes the last bytes of itself and the ciphertext byte |
| Cfb8.Stream.XORKeyStream | protocol/limbo/session_auth.go:235-247 | writes the transform of the source to the target and nowhere else, also when both are one array, and leaves the register at the last bytes of the vector and the ciphertext |
| Cfb8.EncryptedConn.constructor | protocol/limbo/session_auth.go:191-201 | both directions start from the shared secret, on registers of their own |
| Cfb8.EncryptedConn.Read | protocol/limbo/session_auth.go:203-209 | decrypts in place; over all calls the caller has got the decryption of everything delivered |
| Cfb8.EncryptedConn.Write | protocol/limbo/session_auth.go:211-215 | the transport is given the ciphertext that goes on from all written before, of which it takes as much as it does; the caller's buffer is not changed |
| Cfb8.PlainReader.Encrypt | protocol/limbo/session_auth.go:63-67 | the encrypted connection reads on from the transport, and what the plaintext reader has buffered is left behind |
| Cfb8.SwitchStartsBehindTheBuffer | protocol/limbo/session_auth.go:63-67 | when the client's part of the login has been read, the encrypted reader reads what the client encrypted if and only if nothing of it is buffered in the plaintext reader; otherwise those bytes are lost and what follows is read right from as many bytes on as the register holds |
| Cfb8.Resynchronises | protocol/limbo/session_auth.go:235-247 | a decrypting stream that starts late is right again after as many bytes as the register holds |
| RateLimit.RateLimiter.constructor | rate_limit.go:35-50 | non-positive settings become the defaults |
| RateLimit.RateLimiter.Allow | rate_limit.go:53-78 | the answer and the whole new table, cleanup included |
| RateLimit.RateLimiter.Cleanup | rate_limit.go:80-86 | exactly the entries whose window has run out go, in any map order |
| RateLimit.TableAgrees | rate_limit.go:53-86 | over any run in which no request has read the clock before a cleanup it comes after, the table holds for each key what that key alone would have without cleanup, up to entries that have run out |
| RateLimit.LagIsAGap | rate_limit.go:57-60 | the lag by which the lock order may differ from the clock's bounds how far before a cleanup a later request can have read the clock; with no lag, not at all |
| RateLimit.CleanupChanges | rate_limit.go:80-86 | otherwise a cleanup turns a refusal into an admission, and never the reverse, if and only if the key's entry is full and ends after the request's time but not after the cleanup's |
| RateLimit.AnswersAreSolo | rate_limit.go:53-86 | in those runs neither cleanup nor other keys change any answer |
| RateLimit.CountsBounded | rate_limit.go:53-78 | no entry ever counts more than the limit |
| RateLimit.CleanupChangesAnswer | rate_limit.go:74-86 | a run with a lag of 1, for every window, in which a cleanup changes an answer |
| RateLimit.TableHoldsLast | rate_limit.go:53-78 | in every run the table's entry for a key is the one it was last given, if cleanup has left it |
| RateLimit.Continues | rate_limit.go:63-72 | in every run a request goes on in its key's window, or begins one no earlier than the end of that, less the gap |
| RateLimit.CountIsServed | rate_limit.go:53-78 | in every run an entry counts no more than its key was served since the window began, less the lag |
| RateLimit.ServedIsCounted | rate_limit.go:53-78 | and no fewer than since it began and the gap, for a gap of at most the window; so exactly that number with no lag |
| RateLimit.AtMostTwiceServed | rate_limit.go:53-78 | no closed interval as long as the window, less the lag and twice the gap by which requests may have read the clock before cleanups they come after, serves one key more than twice the limit |
| RateLimit.AtMostTwiceServedAnyway | rate_limit.go:53-78 | in every run no closed interval as long as the window less three times the lag does |
| RateLimit.GapMatters | rate_limit.go:53-86 | a run with a lag of 1 in which the bound for a gap of 0 fails |
| RateLimit.RefusedOnlyWhenFull | rate_limit.go:53-78 | in every run a request is refused only if its key was served the whole limit less than one window, and the lag, before |
| Server.Server.Listen | server.go:83-91 | a closed server closes the new listener and keeps its tables |
| Server.Server.TrackConn | server.go:213-221 | a closed server closes the connection and tracks nothing |
| Server.Server.UntrackConn | server.go:223-229 | undisturbed: closed, forgotten, and the join under its key released once if there is one |
| Server.Server.ReleaseJoin | server.go:231-249 | takes the join out of the table and releases that one |
| Server.Server.ResolveJoin | server.go:180-206 | a target without a world is an error, and one that names no world to spawn in names its own; anything else it says is kept; the join is recorded only on success and only for a resolver that releases |
| Server.Server.Shutdown | server.go:127-160 | closes the listener and exactly the connections tracked, once |
| Server.StepKeepsConns | server.go:127-229 | every mutex step keeps every tracked connection in the table, in Shutdown's snapshot or closed, and lets none in once closed |
| Server.StepKeepsJoins | server.go:180-249 | every mutex step that accepts no address whose join is still waiting keeps the table at the last join of each handler that has not taken it yet, and nothing else |
| Server.ShutdownClosesAll | server.go:127-160 | in every interleaving, once Shutdown's snapshot is closed every connection that was tracked is closed, and so will be any tracked later |
| Server.TableIsLastTouch | server.go:180-249 | in every interleaving the entry under a key is what the last resolve or take under it left |
| Server.TakesOwnExactly | server.go:231-249 | in every interleaving, what a handler takes is the last join resolved for its own connection if and only if no other connection has resolved or taken under its key since; and nothing, if none was resolved, if and only if no other connection's join is waiting there |
| Server.ReleasesWhatItTook | server.go:231-249 | each handler releases exactly what it took, once |
| Server.TakenByOne | server.go:231-249 | no join is taken twice, in any run |
| Server.ReleasedExactly | server.go:180-249 | a resolved join is ever taken if and only if the next step under its key is a take and not another resolve |
| Server.OwnJoinReleasedOnce | server.go:231-249 | in every interleaving in which no address comes back before its join is taken, each handler releases exactly the last join resolved for its own connection |
| Server.NothingIsLeft | server.go:223-249 | in every interleaving, when all handlers have returned both tables are empty and every connection closed |
| Server.UntrackUninterrupted | server.go:223-229 | the four steps of untrackConn, undisturbed, are the method above |
| Server.ReusedAddressLosesAJoin | server.go:223-229 | a run in which an address comes back between the close and the release: the first handler releases the second one's join and the first join is lost |
| ResourcePacks.PlaySession.AddResourcePack | protocol/limbo/play_events.go:98-106 | nothing is remembered of a pack that could not be sent |
| ResourcePacks.PlaySession.RemoveResourcePack | protocol/limbo/play_events.go:108-116 | nor forgotten |
| ResourcePacks.PlaySession.Remember | protocol/limbo/play_events.go:145-158 | pack, index and last id after an add |
| ResourcePacks.PlaySession.Forget | protocol/limbo/play_events.go:160-172 | pack and index after a removal; the last id is any pack left, or none |
| ResourcePacks.PlaySession.ReadResourcePackResponse | protocol/limbo/play_events.go:174-215 | the event of an answer in each of the three namings - player, id, pack, status, code and protocol - or the error |
| ResourcePacks.RememberAgrees | protocol/limbo/play_events.go:145-158 | adding keeps index and packs in agreement if and only if the pack has an id, shares no name with another live pack, and keeps the names of the pack it replaces |
| ResourcePacks.ForgetAgrees | protocol/limbo/play_events.go:160-172 | removing does if and only if the pack is live or its UUID names none |
| ResourcePacks.RunAgrees | protocol/limbo/play_events.go:145-172 | over any run the index agrees all along if and only if each update is one of those |
| ResourcePacks.DistinctNamesAgree | protocol/limbo/play_events.go:145-172 | so it does when no two ids in use share a UUID or a hash and each id keeps one hash |
| ResourcePacks.RemovingNothingLosesAName | protocol/limbo/play_events.go:160-172 | a removal of an id that is not live loses the name of a live pack whose hash is that id's UUID |
| ResourcePacks.ChangedHashIsStale | protocol/limbo/play_events.go:145-158 | a pack added again with another hash and removed is still named by its first hash |
| ResourcePacks.AnswerFindsPack | protocol/limbo/play_events.go:174-215 | a live pack is found by the bytes of its UUID or of its hash, an answer that names none finds a live pack, and the status is the one of its code |
| ResourcePacks.OnlyLivePacksFound | protocol/limbo/play_events.go:197-206 | a name finds a live pack if and only if it is one of its names or its own id |
| ResourcePacks.AnswerNamesItself | protocol/limbo/play_events.go:174-215 | a hash that is in no index entry is taken for a pack's id, and any bytes behind an answer make it an error |
| Login.ReadLoginByteArray | protocol/limbo/session_auth.go:148-159 | a length that fits, and the bytes; an empty array at the very end is an error |
| Login.ReadEncryptionResponse | protocol/limbo/session_auth.go:101-138 | both arrays decrypted, with the flag byte of two versions and no trailing bytes |
| Login.ResponseRoundTrip | protocol/limbo/session_auth.go:101-138 | a client's response is read back if and only if its token is not empty, is flagged on the two versions that have a flag, and has nothing behind it; each other case is the error the source returns |
| Login.HandshakenMeans | protocol/limbo/session_auth.go:22-76 | a client's response makes the handshake if and only if it holds the encrypted secret and the token that was sent, encrypted, and the secret has the length of a key |
| Login.ResolveLoginDecision | protocol/limbo/router.go:221-240 | the decision policy before the login policy before the fixed mode |
| Login.Decided | protocol/limbo/router.go:242-250 | a decision has a mode, and a profile only in offline mode |
| Login.DecisionPrecedence | protocol/limbo/router.go:221-240 | for every policy and mode, which of them decides, that no mode is offline mode, and that only there a profile counts |
| Login.Connection.WriteEncryptionRequest | protocol/limbo/session_auth.go:78-99 | the request packet sent |
| Login.RequestRoundTrip | protocol/limbo/session_auth.go:78-99 | a client reads the server id, the key and the token, in that order, and from protocol 766 on one byte more |
| Login.Connection.PerformOnlineSessionAuth | protocol/limbo/session_auth.go:22-76 | there is an encrypted connection if and only if the client returned the token and a secret that makes a cipher; a profile if and only if the verifier vouched for it on the proof from that secret; ErrInvalidLogin over the cipher exactly if the verifier did not vouch |
| Login.Connection.ServeLogin | protocol/limbo/router.go:85-194 | the log of the login: the adapter is reached by exactly the player and connection admitted, last and at most once; after a handshake come its four steps and one end over its cipher; without one an authenticated mode ends refused over the plain connection; an unknown mode does nothing |
| Login.VerifiedIsVouched | protocol/limbo/router.go:131-161 | a verified player is served only after the token check and a complete verified profile for the digest of server id, secret and key with the name, address, protocol and host asked for, over the cipher of that secret |
| Login.OfflineModeAdmits | protocol/limbo/router.go:131-133 | offline mode admits exactly the unverified player of the given profile, or where it says nothing of the name asked for and the offline UUID of the name; never the UUID that was claimed |
| Login.RefusedHybridPlayer | protocol/limbo/router.go:144-158 | hybrid mode admits an unverified player exactly if the verifier refused, and then the offline player of the name asked for |
| Login.AdmittedOnce | protocol/limbo/router.go:131-161 | no login admits two players, or one over two connections |
| Login.OnlineLog | protocol/limbo/router.go:134-143 | in online mode the log ends at an adapter if and only if the token came back and the verifier vouched; the token, the cipher, the question to the verifier and the adapter come in that order, and the player is verified |
| Login.HybridLog | protocol/limbo/router.go:144-158 | in hybrid mode it does if and only if the token came back and the verifier vouched or refused, in the same order and over the cipher; the player is verified if and only if it vouched |
| Login.StaysEncrypted | protocol/limbo/router.go:131-161 | in every mode, after the cipher is installed nothing is served or refused over the plain connection or another cipher, and nothing is over a cipher that was not installed |
| ProxyProtocol.ReadProxyProtocolHeader | proxy_protocol.go:210-223 | the header and exactly its bytes taken from the stream |
| ProxyProtocol.ReadV1Header | proxy_protocol.go:225-268 | the same for the line form |
| ProxyProtocol.ReadV2Header | proxy_protocol.go:270-336 | the same for the binary form |
| ProxyProtocol.NoHeaderTakesNothing | proxy_protocol.go:210-223 | exactly when a stream has no header, and then nothing is taken |
| ProxyProtocol.LineTakesItself | proxy_protocol.go:225-268 | a line header takes one CR LF line of at most 107 bytes |
| ProxyProtocol.BinaryTakesItself | proxy_protocol.go:270-336 | a binary header takes 16 bytes and its length field's number more |
| ProxyProtocol.SuffixInvisible | proxy_protocol.go:210-223 | a header is read the same whatever follows it |
| ProxyProtocol.AddressesRoundTrip | proxy_protocol.go:270-336 | IPv4 and IPv6 addresses and ports come back, with any extensions and anything behind |
| ProxyProtocol.LocalRoundTrip | proxy_protocol.go:297-299 | a LOCAL command has no addresses |
| ProxyProtocol.BinaryOutcome | proxy_protocol.go:270-336 | for every command, family and payload: whether the header is accepted, and whether it then has addresses |
| ProxyProtocol.LineRoundTrip | proxy_protocol.go:225-268 | a written line comes back if it is at most 107 bytes long and is refused otherwise |
| ProxyProtocol.LineOutcome | proxy_protocol.go:225-268 | of the lines made of words: UNKNOWN is accepted without addresses whatever follows it, and else exactly six words with a TCP family, two addresses and two ports below 65536; the rest is malformed |
| ProxyProtocol.ProxyConn.EnsureHeader | proxy_protocol.go:172-180 | the header is read once and the outcome kept |
| ProxyProtocol.ProxyConn.Read | proxy_protocol.go:133-138 | however many bytes are ready, over all calls the caller gets the stream without its header, in order and without a gap, or never a byte |
| ProxyProtocol.ProxyConn.RemoteAddr | proxy_protocol.go:140-146 | the address of a trusted header, before as after any read, or the connection's own |
| ProxyProtocol.ProxyConn.LocalAddr | proxy_protocol.go:148-154 | the same for the other end |
| ProtocolRanges.FormatProtocolRanges | protocol/limbo/router.go:295-313 | the loop writes the ranges of the list |
| ProtocolRanges.RangesDenote | protocol/limbo/router.go:295-313 | the ranges hold exactly the protocols of the list, sorted or not, unless the greatest int32 is followed by the least |
| ProtocolRanges.SortedIsCanonical | protocol/limbo/router.go:283-313 | from a sorted list come ascending ranges with at least one number missing between any two |
| ProtocolRanges.CanonicalUnique | protocol/limbo/router.go:295-313 | there is only one such list of ranges for a set |
| ProtocolRanges.TextOfSet | protocol/limbo/router.go:283-313 | so the ranges depend only on which protocols are supported |
| ProtocolRanges.RangesRead | protocol/limbo/router.go:295-320 | the text of any ranges is read back as those ranges |
| ProtocolRanges.TextSaysTheSet | protocol/limbo/router.go:283-320 | two sorted lists have the same text if and only if they hold the same protocols |
| Wire.WriteVarInt | internal/protocol/wire/varint.go:30-41 | appends the base-128 digits of the value's 32 bits |
| Wire.ReadVarInt | internal/protocol/wire/varint.go:14-27 | the number the bytes denote, its upper bits cut off at 32, and exactly its bytes; or too few or more than five bytes |
| Wire.VarIntLen | internal/protocol/wire/varint.go:44-53 | the number of bytes WriteVarInt writes |
| Wire.EncodeVarIntShape | internal/protocol/wire/varint.go:30-41 | least significant seven bits first, the high bit on all but the last byte, and no more bytes than needed |
| Wire.VarIntRoundTrip | internal/protocol/wire/varint.go:14-41 | every 32-bit value is read back, whatever follows |
| Wire.VarIntPrefixFree | internal/protocol/wire/varint.go:30-41 | no value's bytes start another's |
| Wire.WriteShort | internal/protocol/wire/number.go:24-29 | two bytes, most significant first |
| Wire.WriteInt | internal/protocol/wire/number.go:40-45 | four bytes, most significant first |
| Wire.WriteLong | internal/protocol/wire/number.go:73-78 | eight bytes, most significant first |
| Bits.BigEndianRoundTrip | internal/protocol/wire/number.go:24-78 | such bytes denote the number they were made from |
| Wire.WriteString | internal/protocol/wire/string.go:30-40 | a length and the bytes |
| Wire.ReadString | internal/protocol/wire/string.go:9-27 | the string and exactly its bytes, or an error for a length out of range |
| Wire.StringRoundTrip | internal/protocol/wire/string.go:9-40 | for every limit, a string comes back if and only if it is no longer than four times the limit computed on int32 |
| Wire.WritePacket | internal/protocol/wire/packet.go:48-66 | a length, an id and the data |
| Wire.ReadPacket | internal/protocol/wire/packet.go:19-45 | the packet and exactly its frame, or an error |
| Wire.PacketRoundTrip | internal/protocol/wire/packet.go:19-66 | a packet comes back, whatever follows, if and only if it fits the size limit |
| Wire.PacketStreamRoundTrip | internal/protocol/wire/packet.go:19-66 | any run of packets comes back to the last byte if and only if each fits the limit |

## Left out

- Sockets, deadlines, keep-alive, HTTP, the session server, RSA, AES, SHA-1, MD5, gzip, zip, base64 and JSON parsing: foreign code or I/O.
- The login, join, position, light and heightmap packets, status JSON, dialogs, configuration and version tables: no hard property.
- The block-state and packet-id tables: arbitrary functions.
- Waiting for handlers in Shutdown: `wg.Add` comes after trackConn outside the lock, so no such property holds.
- Invalid UTF-8 in MiniMessage, and lower-casing beyond ASCII.
- Rounding in gradients; NBT floats are bit patterns.
- Running out of memory.
- Fields of a dimension other than name, environment, minimum Y and height.
- Colour names and codes, rainbow hues, the colour a transition picks, key, UUID and number parsing and click events in the renderer are arbitrary functions. A text node is not empty; the parser makes no other. A panic by exhausting the stack on deep nesting is not modelled.
- nbtWriter's methods, which write the same format as the two encoders.
- `strings.Fields` splits on ASCII white space only here; a PROXY line with other Unicode spaces in it is not modelled.
- trusts and parseTrustedProxy: whether an upstream is trusted is an input, and so is the rejection by wrap.
- Login.Connection.ServeLogin: starts when the login request has been read and ends at the adapter; the protocol policy, readLoginStart, the choice of an adapter by version and the refusal of a version without one come before and after it.
- remoteAddrKey and rateLimitKey: keys are inputs.
- The nil RateLimiter, which allows everything.
- JsonNbt.FaithfulExactly: the value is what the JSON parser made of the text; numbers carry what Int64 and Float64 return.
- Server.OwnJoinReleasedOnce: the release of a join may fail, which the source only logs.
