/** NBT trees, how they are written, and how a reader takes them back. */
module Nbt {
  import opened Bits
  import opened Wrappers

  const TAG_END: byte := 0
  const TAG_BYTE: byte := 1
  const TAG_SHORT: byte := 2
  const TAG_INT: byte := 3
  const TAG_LONG: byte := 4
  const TAG_FLOAT: byte := 5
  const TAG_DOUBLE: byte := 6
  const TAG_BYTE_ARRAY: byte := 7
  const TAG_STRING: byte := 8
  const TAG_LIST: byte := 9
  const TAG_COMPOUND: byte := 10
  const TAG_INT_ARRAY: byte := 11
  const TAG_LONG_ARRAY: byte := 12

  /** Floats are kept as their bits. */
  datatype Tree =
    | End
    | Byte(b: byte)
    | Short(s: uint16)
    | Int(i: uint32)
    | Long(l: uint64)
    | Float(f: uint32)
    | Double(d: uint64)
    | ByteArray(bytes: seq<byte>)
    | String(text: seq<byte>)
    | List(elem: byte, items: seq<Tree>)
    | Compound(fields: seq<Field>)
    | IntArray(ints: seq<uint32>)
    | LongArray(longs: seq<uint64>)

  datatype Field = Field(name: seq<byte>, value: Tree)

  function TagOf(t: Tree): byte {
    match t
    case End => TAG_END
    case Byte(_) => TAG_BYTE
    case Short(_) => TAG_SHORT
    case Int(_) => TAG_INT
    case Long(_) => TAG_LONG
    case Float(_) => TAG_FLOAT
    case Double(_) => TAG_DOUBLE
    case ByteArray(_) => TAG_BYTE_ARRAY
    case String(_) => TAG_STRING
    case List(_, _) => TAG_LIST
    case Compound(_) => TAG_COMPOUND
    case IntArray(_) => TAG_INT_ARRAY
    case LongArray(_) => TAG_LONG_ARRAY
  }

  // ----- writing

  /** The length on two bytes, which cuts it off at sixteen bits, and then the whole text. */
  function StringBytes(text: seq<byte>): seq<byte> {
    BigEndian(2, Uint16(|text|)) + text
  }

  function CountBytes(n: nat): seq<byte> {
    BigEndian(4, Uint32(n))
  }

  /** A tree without its tag. */
  function Payload(t: Tree): seq<byte>
    decreases t, 1
  {
    match t
    case End => []
    case Byte(b) => [b]
    case Short(s) => BigEndian(2, s)
    case Int(i) => BigEndian(4, i)
    case Long(l) => BigEndian(8, l)
    case Float(f) => BigEndian(4, f)
    case Double(d) => BigEndian(8, d)
    case ByteArray(bytes) => CountBytes(|bytes|) + bytes
    case String(text) => StringBytes(text)
    case List(elem, items) => [elem] + CountBytes(|items|) + Items(items)
    case Compound(fields) => Fields(fields) + [TAG_END]
    case IntArray(ints) => CountBytes(|ints|) + Words(4, ints)
    case LongArray(longs) => CountBytes(|longs|) + Words(8, longs)
  }

  function Items(items: seq<Tree>): seq<byte>
    decreases items, 0
  {
    if items == [] then [] else Items(items[..|items| - 1]) + Payload(items[|items| - 1])
  }

  function Fields(fields: seq<Field>): seq<byte>
    decreases fields, 0
  {
    if fields == [] then [] else Fields(fields[..|fields| - 1]) + FieldBytes(fields[|fields| - 1])
  }

  /** A field of type end is its tag alone. */
  function FieldBytes(f: Field): seq<byte>
    decreases f, 0
  {
    if f.value == End then [TAG_END] else [TagOf(f.value)] + StringBytes(f.name) + Payload(f.value)
  }

  function Words(width: nat, words: seq<nat>): seq<byte> {
    if words == [] then [] else Words(width, words[..|words| - 1]) + BigEndian(width, words[|words| - 1])
  }

  // ----- reading

  function ReadNumber(width: nat, s: seq<byte>): (r: Option<(nat, seq<byte>)>)
    ensures r.Some? ==> r.value.0 < Pow(0x100, width) && |r.value.1| == |s| - width
  {
    if |s| < width then None
    else
      FromBigEndianRoundTrip(s[..width]);
      Some((FromBigEndian(s[..width]), s[width..]))
  }

  function ReadString(s: seq<byte>): (r: Option<(seq<byte>, seq<byte>)>)
    ensures r.Some? ==> |r.value.1| < |s|
  {
    match ReadNumber(2, s)
    case None => None
    case Some((n, rest)) => if n <= |rest| then Some((rest[..n], rest[n..])) else None
  }

  function ReadWords(width: nat, n: nat, s: seq<byte>): (r: Option<(seq<nat>, seq<byte>)>)
    ensures r.Some? ==> |r.value.1| <= |s| && forall i | 0 <= i < |r.value.0| :: r.value.0[i] < Pow(0x100, width)
    decreases n, |s|
  {
    if n == 0 then Some(([], s))
    else match ReadNumber(width, s)
      case None => None
      case Some((w, rest)) =>
        match ReadWords(width, n - 1, rest)
        case None => None
        case Some((ws, end)) => Some(([w] + ws, end))
  }

  /** A signed count; negative ones are refused. */
  function ReadCount(s: seq<byte>): (r: Option<(nat, seq<byte>)>)
    ensures r.Some? ==> |r.value.1| < |s|
  {
    match ReadNumber(4, s)
    case None => None
    case Some((n, rest)) => if n < 0x8000_0000 then Some((n, rest)) else None
  }

  /** The payload of a tree with the given tag, and what follows it. */
  function Read(tag: byte, s: seq<byte>): (r: Option<(Tree, seq<byte>)>)
    ensures r.Some? ==> |r.value.1| <= |s|
    decreases |s|, 1, 0
  {
    if tag == TAG_LIST then
      if s == [] then None
      else match ReadCount(s[1..])
        case None => None
        case Some((n, rest)) =>
          match ReadItems(s[0], n, rest)
          case None => None
          case Some((items, end)) => Some((List(s[0], items), end))
    else if tag == TAG_COMPOUND then
      match ReadFields(s)
      case None => None
      case Some((fields, end)) => Some((Compound(fields), end))
    else ReadLeaf(tag, s)
  }

  function ReadLeaf(tag: byte, s: seq<byte>): (r: Option<(Tree, seq<byte>)>)
    ensures r.Some? ==> |r.value.1| <= |s|
  {
    PowBytes();
    if tag == TAG_END then Some((End, s))
    else if tag == TAG_BYTE then
      match ReadNumber(1, s) case None => None case Some((n, rest)) => Some((Byte(n), rest))
    else if tag == TAG_SHORT then
      match ReadNumber(2, s) case None => None case Some((n, rest)) => Some((Short(n), rest))
    else if tag == TAG_INT then
      match ReadNumber(4, s) case None => None case Some((n, rest)) => Some((Int(n), rest))
    else if tag == TAG_LONG then
      match ReadNumber(8, s) case None => None case Some((n, rest)) => Some((Long(n), rest))
    else if tag == TAG_FLOAT then
      match ReadNumber(4, s) case None => None case Some((n, rest)) => Some((Float(n), rest))
    else if tag == TAG_DOUBLE then
      match ReadNumber(8, s) case None => None case Some((n, rest)) => Some((Double(n), rest))
    else if tag == TAG_STRING then
      match ReadString(s) case None => None case Some((text, rest)) => Some((String(text), rest))
    else ReadArray(tag, s)
  }

  function ReadArray(tag: byte, s: seq<byte>): (r: Option<(Tree, seq<byte>)>)
    ensures r.Some? ==> |r.value.1| <= |s|
  {
    PowBytes();
    match ReadCount(s)
    case None => None
    case Some((n, rest)) =>
      if tag == TAG_BYTE_ARRAY then
        if n <= |rest| then Some((ByteArray(rest[..n]), rest[n..])) else None
      else if tag == TAG_INT_ARRAY then
        match ReadWords(4, n, rest) case None => None case Some((ws, end)) => Some((IntArray(ws), end))
      else if tag == TAG_LONG_ARRAY then
        match ReadWords(8, n, rest) case None => None case Some((ws, end)) => Some((LongArray(ws), end))
      else None
  }

  function ReadItems(tag: byte, n: nat, s: seq<byte>): (r: Option<(seq<Tree>, seq<byte>)>)
    ensures r.Some? ==> |r.value.1| <= |s|
    decreases |s|, 2, n
  {
    if n == 0 then Some(([], s))
    else match Read(tag, s)
      case None => None
      case Some((t, rest)) =>
        match ReadItems(tag, n - 1, rest)
        case None => None
        case Some((ts, end)) => Some(([t] + ts, end))
  }

  /** Fields up to the end tag. */
  function ReadFields(s: seq<byte>): (r: Option<(seq<Field>, seq<byte>)>)
    ensures r.Some? ==> |r.value.1| <= |s|
    decreases |s|, 0, 0
  {
    if s == [] then None
    else if s[0] == TAG_END then Some(([], s[1..]))
    else match ReadString(s[1..])
      case None => None
      case Some((name, afterName)) =>
        match Read(s[0], afterName)
        case None => None
        case Some((t, rest)) =>
          match ReadFields(rest)
          case None => None
          case Some((more, end)) => Some(([Field(name, t)] + more, end))
  }

  /** The anonymous form: a tag and its payload. */
  function Anonymous(t: Tree): seq<byte> {
    [TagOf(t)] + Payload(t)
  }

  function ReadAnonymous(s: seq<byte>): Option<(Tree, seq<byte>)> {
    if s == [] then None else Read(s[0], s[1..])
  }

  /** The named form: a tag, a name and the payload. */
  function ReadNamed(s: seq<byte>): Option<(Field, seq<byte>)> {
    if s == [] then None
    else match ReadString(s[1..])
      case None => None
      case Some((name, rest)) =>
        match Read(s[0], rest)
        case None => None
        case Some((t, end)) => Some((Field(name, t), end))
  }

  // ----- round trip

  /** Texts below 65536 bytes, counts below two to the 31, lists of one tag, no unnamed fields. */
  predicate Fits(t: Tree)
    decreases t, 1
  {
    match t
    case ByteArray(bytes) => |bytes| < 0x8000_0000
    case String(text) => |text| < 0x1_0000
    case List(elem, items) => |items| < 0x8000_0000 && ItemsFit(elem, items)
    case Compound(fields) => FieldsFit(fields)
    case IntArray(ints) => |ints| < 0x8000_0000
    case LongArray(longs) => |longs| < 0x8000_0000
    case _ => true
  }

  predicate ItemsFit(elem: byte, items: seq<Tree>)
    decreases items, 0
  {
    forall i | 0 <= i < |items| :: TagOf(items[i]) == elem && Fits(items[i])
  }

  predicate FieldsFit(fields: seq<Field>)
    decreases fields, 0
  {
    forall i | 0 <= i < |fields| :: |fields[i].name| < 0x1_0000 && fields[i].value != End && Fits(fields[i].value)
  }

  lemma ItemsFitSnoc(elem: byte, items: seq<Tree>, t: Tree)
    ensures ItemsFit(elem, items + [t]) <==> ItemsFit(elem, items) && TagOf(t) == elem && Fits(t)
  {
    hide Fits;
    var all := items + [t];
    assert all[|items|] == t && forall i | 0 <= i < |items| :: all[i] == items[i];
  }

  lemma FieldsFitSnoc(fields: seq<Field>, f: Field)
    ensures FieldsFit(fields + [f]) <==> FieldsFit(fields) && |f.name| < 0x1_0000 && f.value != End && Fits(f.value)
  {
    hide Fits;
    var all := fields + [f];
    assert all[|fields|] == f && forall i | 0 <= i < |fields| :: all[i] == fields[i];
  }

  lemma NumberRoundTrip(width: nat, n: nat, suffix: seq<byte>)
    requires n < Pow(0x100, width)
    ensures ReadNumber(width, BigEndian(width, n) + suffix) == Some((n, suffix))
  {
    hide BigEndian, Pow;
    var s := BigEndian(width, n) + suffix;
    assert s[..width] == BigEndian(width, n) && s[width..] == suffix;
    BigEndianRoundTrip(width, n);
  }

  lemma StringRoundTrip(text: seq<byte>, suffix: seq<byte>)
    requires |text| < 0x1_0000
    ensures ReadString(StringBytes(text) + suffix) == Some((text, suffix))
  {
    hide BigEndian, ReadNumber;
    PowBytes();
    assert StringBytes(text) + suffix == BigEndian(2, |text|) + (text + suffix);
    NumberRoundTrip(2, |text|, text + suffix);
  }

  lemma CountRoundTrip(n: nat, suffix: seq<byte>)
    requires n < 0x8000_0000
    ensures ReadCount(CountBytes(n) + suffix) == Some((n, suffix))
  {
    hide BigEndian, ReadNumber;
    PowBytes();
    NumberRoundTrip(4, n, suffix);
  }

  lemma {:induction false} WordsCons(width: nat, words: seq<nat>)
    requires words != []
    ensures Words(width, words) == BigEndian(width, words[0]) + Words(width, words[1..])
  {
    hide BigEndian;
    if |words| > 1 {
      WordsCons(width, words[..|words| - 1]);
      assert words[..|words| - 1][1..] == words[1..][..|words| - 2];
    } else {
      assert words[..0] == [] && words[1..] == [];
    }
  }

  lemma {:induction false} WordsRoundTrip(width: nat, words: seq<nat>, suffix: seq<byte>)
    requires forall i | 0 <= i < |words| :: words[i] < Pow(0x100, width)
    ensures ReadWords(width, |words|, Words(width, words) + suffix) == Some((words, suffix))
    decreases |words|
  {
    hide BigEndian, Pow, ReadNumber;
    if words == [] {
      assert [] + suffix == suffix;
    } else {
      var tail := Words(width, words[1..]) + suffix;
      WordsCons(width, words);
      assert Words(width, words) + suffix == BigEndian(width, words[0]) + tail;
      NumberRoundTrip(width, words[0], tail);
      WordsRoundTrip(width, words[1..], suffix);
      assert [words[0]] + words[1..] == words;
    }
  }

  lemma {:induction false} ItemsCons(items: seq<Tree>)
    requires items != []
    ensures Items(items) == Payload(items[0]) + Items(items[1..])
    decreases |items|
  {
    hide Payload;
    if |items| > 1 {
      ItemsCons(items[..|items| - 1]);
      assert items[..|items| - 1][1..] == items[1..][..|items| - 2];
    } else {
      assert items[..0] == [] && items[1..] == [];
    }
  }

  lemma {:induction false} FieldsCons(fields: seq<Field>)
    requires fields != []
    ensures Fields(fields) == FieldBytes(fields[0]) + Fields(fields[1..])
    decreases |fields|
  {
    hide FieldBytes;
    if |fields| > 1 {
      FieldsCons(fields[..|fields| - 1]);
      assert fields[..|fields| - 1][1..] == fields[1..][..|fields| - 2];
    } else {
      assert fields[..0] == [] && fields[1..] == [];
    }
  }

  /** A tree that fits is read back exactly, whatever follows it. */
  lemma {:induction false} RoundTrip(t: Tree, suffix: seq<byte>)
    requires Fits(t)
    ensures Read(TagOf(t), Payload(t) + suffix) == Some((t, suffix))
    decreases t, 1
  {
    hide Items, Fields, ReadItems, ReadFields, ReadLeaf, ItemsFit, FieldsFit;
    match t
    case List(elem, items) =>
      var tail := Items(items) + suffix;
      var s := Payload(t) + suffix;
      assert s == [elem] + (CountBytes(|items|) + tail);
      assert s[1..] == CountBytes(|items|) + tail;
      CountRoundTrip(|items|, tail);
      ItemsRoundTrip(elem, items, suffix);
    case Compound(fields) =>
      assert Payload(t) + suffix == Fields(fields) + ([TAG_END] + suffix);
      FieldsRoundTrip(fields, suffix);
    case _ => LeafRoundTrip(t, suffix);
  }

  lemma LeafRoundTrip(t: Tree, suffix: seq<byte>)
    requires Fits(t) && !t.List? && !t.Compound?
    ensures ReadLeaf(TagOf(t), Payload(t) + suffix) == Some((t, suffix))
  {
    hide BigEndian, ReadNumber, ReadString, ReadWords, StringBytes, CountBytes, ReadCount, Words;
    PowBytes();
    match t
    case End => assert [] + suffix == suffix;
    case Byte(b) =>
      OneByte(b);
      NumberRoundTrip(1, b, suffix);
    case Short(n) => NumberRoundTrip(2, n, suffix);
    case Int(n) => NumberRoundTrip(4, n, suffix);
    case Long(n) => NumberRoundTrip(8, n, suffix);
    case Float(n) => NumberRoundTrip(4, n, suffix);
    case Double(n) => NumberRoundTrip(8, n, suffix);
    case String(text) => StringRoundTrip(text, suffix);
    case ByteArray(bytes) =>
      assert Payload(t) + suffix == CountBytes(|bytes|) + (bytes + suffix);
      CountRoundTrip(|bytes|, bytes + suffix);
    case IntArray(ints) =>
      assert Payload(t) + suffix == CountBytes(|ints|) + (Words(4, ints) + suffix);
      CountRoundTrip(|ints|, Words(4, ints) + suffix);
      WordsRoundTrip(4, ints, suffix);
    case LongArray(longs) =>
      assert Payload(t) + suffix == CountBytes(|longs|) + (Words(8, longs) + suffix);
      CountRoundTrip(|longs|, Words(8, longs) + suffix);
      WordsRoundTrip(8, longs, suffix);
  }

  lemma OneByte(b: byte)
    ensures BigEndian(1, b) == [b]
  {
    assert BigEndian(0, b / 0x100) == [];
  }

  lemma {:induction false} ItemsRoundTrip(elem: byte, items: seq<Tree>, suffix: seq<byte>)
    requires ItemsFit(elem, items)
    ensures ReadItems(elem, |items|, Items(items) + suffix) == Some((items, suffix))
    decreases items, 0
  {
    hide Payload, Read, Fits;
    if items == [] {
      assert [] + suffix == suffix;
    } else {
      var tail := Items(items[1..]) + suffix;
      ItemsCons(items);
      assert Items(items) + suffix == Payload(items[0]) + tail;
      RoundTrip(items[0], tail);
      ItemsRoundTrip(elem, items[1..], suffix);
      assert [items[0]] + items[1..] == items;
    }
  }

  lemma {:induction false} FieldsRoundTrip(fields: seq<Field>, suffix: seq<byte>)
    requires FieldsFit(fields)
    ensures ReadFields(Fields(fields) + ([TAG_END] + suffix)) == Some((fields, suffix))
    decreases fields, 0
  {
    hide Payload, Read, Fits, StringBytes, ReadString;
    if fields == [] {
      assert [] + ([TAG_END] + suffix) == [TAG_END] + suffix;
    } else {
      var f := fields[0];
      var tail := Fields(fields[1..]) + ([TAG_END] + suffix);
      FieldsCons(fields);
      var s := Fields(fields) + ([TAG_END] + suffix);
      assert s == [TagOf(f.value)] + (StringBytes(f.name) + (Payload(f.value) + tail));
      assert s[1..] == StringBytes(f.name) + (Payload(f.value) + tail);
      StringRoundTrip(f.name, Payload(f.value) + tail);
      RoundTrip(f.value, tail);
      FieldsRoundTrip(fields[1..], suffix);
      assert [Field(f.name, f.value)] + fields[1..] == fields;
    }
  }

  /** What is read always fits, and has the tag it is read under. */
  lemma {:induction false} ReadFits(tag: byte, s: seq<byte>)
    ensures Read(tag, s).Some? ==> Fits(Read(tag, s).value.0) && TagOf(Read(tag, s).value.0) == tag
    decreases |s|, 1, 0
  {
    hide ReadItems, ReadFields, ReadLeaf, ItemsFit, FieldsFit, ReadNumber;
    if tag == TAG_LIST {
      if s != [] && ReadCount(s[1..]).Some? {
        ReadItemsFit(s[0], ReadCount(s[1..]).value.0, ReadCount(s[1..]).value.1);
      }
    } else if tag == TAG_COMPOUND {
      ReadFieldsFit(s);
    } else {
      ReadLeafFits(tag, s);
    }
  }

  lemma ReadLeafFits(tag: byte, s: seq<byte>)
    requires tag != TAG_LIST && tag != TAG_COMPOUND
    ensures ReadLeaf(tag, s).Some? ==> Fits(ReadLeaf(tag, s).value.0) && TagOf(ReadLeaf(tag, s).value.0) == tag
  {
    hide ReadNumber, ReadWords;
    PowBytes();
    ReadWordsCount(4, s);
    ReadWordsCount(8, s);
  }

  lemma ReadWordsCount(width: nat, s: seq<byte>)
    ensures ReadCount(s).Some? ==>
      var (n, rest) := ReadCount(s).value;
      n < 0x8000_0000 && (ReadWords(width, n, rest).Some? ==> |ReadWords(width, n, rest).value.0| == n)
  {
    if ReadCount(s).Some? {
      WordsCount(width, ReadCount(s).value.0, ReadCount(s).value.1);
    }
  }

  lemma {:induction false} WordsCount(width: nat, n: nat, s: seq<byte>)
    ensures ReadWords(width, n, s).Some? ==> |ReadWords(width, n, s).value.0| == n
    decreases n
  {
    hide ReadNumber;
    if n > 0 && ReadNumber(width, s).Some? {
      WordsCount(width, n - 1, ReadNumber(width, s).value.1);
    }
  }

  lemma {:induction false} ReadItemsFit(tag: byte, n: nat, s: seq<byte>)
    ensures ReadItems(tag, n, s).Some? ==>
      ItemsFit(tag, ReadItems(tag, n, s).value.0) && |ReadItems(tag, n, s).value.0| == n
    decreases |s|, 2, n
  {
    hide Read, Fits;
    if n > 0 {
      ReadFits(tag, s);
      if Read(tag, s).Some? {
        ReadItemsFit(tag, n - 1, Read(tag, s).value.1);
      }
    }
  }

  lemma {:induction false} ReadFieldsFit(s: seq<byte>)
    ensures ReadFields(s).Some? ==> FieldsFit(ReadFields(s).value.0)
    decreases |s|, 0, 0
  {
    hide Read, Fits, ReadString;
    if s != [] && s[0] != TAG_END && ReadString(s[1..]).Some? {
      var (name, afterName) := ReadString(s[1..]).value;
      NameFits(s[1..]);
      ReadFits(s[0], afterName);
      if Read(s[0], afterName).Some? {
        ReadFieldsFit(Read(s[0], afterName).value.1);
      }
    }
  }

  lemma NameFits(s: seq<byte>)
    ensures ReadString(s).Some? ==> |ReadString(s).value.0| < 0x1_0000
  {
    hide ReadNumber;
    PowBytes();
  }

  /** A tree is read back, whatever follows it, exactly if it fits. */
  lemma RoundTripExactly(t: Tree, suffix: seq<byte>)
    ensures Read(TagOf(t), Payload(t) + suffix) == Some((t, suffix)) <==> Fits(t)
    ensures ReadAnonymous(Anonymous(t) + suffix) == Some((t, suffix)) <==> Fits(t)
  {
    hide Read, Payload, Fits;
    if Fits(t) {
      RoundTrip(t, suffix);
    }
    ReadFits(TagOf(t), Payload(t) + suffix);
    assert (Anonymous(t) + suffix)[1..] == Payload(t) + suffix;
  }

  /** The anonymous form of a tree that fits is read back whatever follows it. */
  lemma AnonymousRoundTrip(t: Tree, suffix: seq<byte>)
    requires Fits(t)
    ensures ReadAnonymous(Anonymous(t) + suffix) == Some((t, suffix))
  {
    hide Read, Payload;
    assert (Anonymous(t) + suffix)[1..] == Payload(t) + suffix;
    RoundTrip(t, suffix);
  }

  /** fullNBT: an empty name after the tag. */
  function FullNBT(anonymous: seq<byte>): seq<byte> {
    if anonymous == [] then [] else [anonymous[0], 0, 0] + anonymous[1..]
  }

  /** What was written anonymously is read by name, with the empty name, after fullNBT. */
  lemma FullRoundTrip(t: Tree, suffix: seq<byte>)
    requires Fits(t)
    ensures ReadNamed(FullNBT(Anonymous(t)) + suffix) == Some((Field([], t), suffix))
  {
    hide Read, Payload, ReadString;
    var s := FullNBT(Anonymous(t)) + suffix;
    assert Anonymous(t)[1..] == Payload(t);
    assert s[1..] == [0, 0] + (Payload(t) + suffix);
    assert StringBytes([]) == [0, 0] by {
      assert BigEndian(1, 0) == [0] by { OneByte(0); }
    }
    StringRoundTrip([], Payload(t) + suffix);
    RoundTrip(t, suffix);
  }
}
