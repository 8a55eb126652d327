/** The JSON to NBT encoder of protocol/limbo/play_events.go. */
module JsonNbt {
  import opened Bits
  import opened Wrappers
  import opened Nbt
  import Wire

  /** A decoded JSON value.  An object is its entries in the order the map iteration gives them,
      which may be any; a number is what its Int64 and Float64 make of it. */
  datatype Json =
    | Object(entries: seq<Entry>)
    | Array(values: seq<Json>)
    | Text(text: seq<byte>)
    | Bool(b: bool)
    | Number(n: Number)
    | Null

  datatype Entry = Entry(key: seq<byte>, value: Json)

  /** Whether the text has one of ".eE", and the values of Int64 and Float64, the latter as the
      bits of its float32; None is their error. */
  datatype Number = Num(fractional: bool, int64: Option<int64>, float: Option<uint32>)

  function NumberTag(n: Number): Option<byte> {
    if n.fractional then if n.float.Some? then Some(TAG_FLOAT) else None
    else if n.int64.Some? then Some(TAG_INT) else None
  }

  /** jsonNBTTag. */
  function JsonTag(v: Json): (tag: byte)
    ensures tag != TAG_END
  {
    match v
    case Object(_) => TAG_COMPOUND
    case Array(_) => TAG_LIST
    case Bool(_) => TAG_BYTE
    case Number(n) => if NumberTag(n).Some? then NumberTag(n).value else TAG_STRING
    case _ => TAG_STRING
  }

  // ----- what is written, as a tree

  /** The tree written for a value under a tag that may be another kind's; None is an error. */
  function ConvertAs(tag: byte, v: Json): Option<Tree>
    decreases v, 2
  {
    if tag == TAG_COMPOUND then
      if v.Object? then
        match ConvertEntries(v.entries)
        case Some(fields) => Some(Compound(fields))
        case None => None
      else Some(Compound([]))
    else if tag == TAG_LIST then
      if v.Array? then ConvertList(v.values) else Some(List(TAG_END, []))
    else if tag == TAG_STRING then Some(String(if v.Text? then v.text else []))
    else if tag == TAG_BYTE then Some(Byte(if v == Bool(true) then 1 else 0))
    else if tag == TAG_INT then
      if v.Number? && v.n.int64.Some? then Some(Int(Uint32(v.n.int64.value))) else None
    else if tag == TAG_FLOAT then
      if v.Number? && v.n.float.Some? then Some(Float(v.n.float.value)) else None
    else None
  }

  function ConvertList(values: seq<Json>): Option<Tree>
    decreases values, 1
  {
    var childTag := if values == [] then TAG_END else JsonTag(values[0]);
    match ConvertItems(childTag, values)
    case Some(items) => Some(List(childTag, items))
    case None => None
  }

  function ConvertItems(tag: byte, values: seq<Json>): (r: Option<seq<Tree>>)
    ensures r.Some? ==> |r.value| == |values|
    decreases values, 0
  {
    if values == [] then Some([])
    else match ConvertItems(tag, values[..|values| - 1])
      case None => None
      case Some(before) =>
        match ConvertAs(tag, values[|values| - 1])
        case Some(t) => Some(before + [t])
        case None => None
  }

  function ConvertEntries(entries: seq<Entry>): (r: Option<seq<Field>>)
    ensures r.Some? ==> |r.value| == |entries|
    decreases entries, 0
  {
    if entries == [] then Some([])
    else match ConvertEntries(entries[..|entries| - 1])
      case None => None
      case Some(before) =>
        var e := entries[|entries| - 1];
        match ConvertAs(JsonTag(e.value), e.value)
        case Some(t) => Some(before + [Field(e.key, t)])
        case None => None
  }

  /** The tree of writeAnonymousJSONNBT: a null is an empty compound, a bad number an error. */
  function Convert(v: Json): Option<Tree> {
    match v
    case Null => Some(Compound([]))
    case Number(n) => if NumberTag(n).Some? then ConvertAs(NumberTag(n).value, v) else None
    case _ => ConvertAs(JsonTag(v), v)
  }

  // ----- the writers

  method WriteRawNBTString(out: Wire.Buffer, value: seq<byte>)
    modifies out
    ensures out.contents == old(out.contents) + StringBytes(value)
  {
    out.Write(BigEndian(2, Uint16(|value|)));
    out.Write(value);
  }

  /** The tag and the payload of a value; what was written before an error stays. */
  method WriteAnonymousJSONNBT(out: Wire.Buffer, value: Json) returns (ok: bool)
    modifies out
    ensures ok <==> Convert(value).Some?
    ensures ok ==> out.contents == old(out.contents) + Anonymous(Convert(value).value)
  {
    hide ConvertEntries, ConvertItems, Fields, Items;
    match value
    case Object(_) =>
      out.WriteByte(TAG_COMPOUND);
      ok := WriteJSONNBTPayload(out, TAG_COMPOUND, value);
    case Array(values) =>
      out.WriteByte(TAG_LIST);
      ok := WriteJSONListPayload(out, values);
    case Number(n) =>
      var tag := NumberTag(n);
      if tag == None {
        return false;
      }
      out.WriteByte(tag.value);
      ok := WriteJSONNBTPayload(out, tag.value, value);
    case _ =>
      WriteAnonymousLeaf(out, value);
      ok := true;
  }

  /** The cases of a text, a boolean and a null. */
  method WriteAnonymousLeaf(out: Wire.Buffer, value: Json)
    requires value.Text? || value.Bool? || value.Null?
    modifies out
    ensures Convert(value).Some? && out.contents == old(out.contents) + Anonymous(Convert(value).value)
  {
    if value.Text? {
      out.WriteByte(TAG_STRING);
      WriteRawNBTString(out, value.text);
    } else if value.Bool? {
      out.WriteByte(TAG_BYTE);
      out.WriteByte(if value.b then 1 else 0);
    } else {
      out.WriteByte(TAG_COMPOUND);
      out.WriteByte(TAG_END);
      EmptyCompound();
    }
  }

  lemma EmptyCompound()
    ensures Payload(Compound([])) == [TAG_END]
  {
    assert Fields([]) == [];
  }

  lemma EmptyList()
    ensures Payload(List(TAG_END, [])) == [TAG_END] + CountBytes(0)
  {
    assert Items([]) == [];
  }

  method WriteJSONNBTPayload(out: Wire.Buffer, tag: byte, value: Json) returns (ok: bool)
    requires tag in {TAG_COMPOUND, TAG_LIST, TAG_STRING, TAG_BYTE, TAG_INT, TAG_FLOAT}
    modifies out
    ensures ok <==> ConvertAs(tag, value).Some?
    ensures ok ==> out.contents == old(out.contents) + Payload(ConvertAs(tag, value).value)
    decreases value, 2
  {
    hide BigEndian, ConvertItems;
    if tag == TAG_COMPOUND {
      if value.Object? {
        ok := WriteEntries(out, value.entries);
        if !ok {
          return;
        }
      } else {
        EmptyCompound();
      }
      out.WriteByte(TAG_END);
      return true;
    }
    if tag == TAG_LIST {
      if value.Array? {
        ok := WriteJSONListPayload(out, value.values);
      } else {
        out.WriteByte(TAG_END);
        Wire.WriteInt(out, 0);
        EmptyList();
        ok := true;
      }
      return;
    }
    if tag == TAG_STRING {
      WriteRawNBTString(out, if value.Text? then value.text else []);
      return true;
    }
    if tag == TAG_BYTE {
      out.WriteByte(if value.Bool? && value.b then 1 else 0);
      return true;
    }
    if tag == TAG_INT {
      if !value.Number? || value.n.int64 == None {
        return false;
      }
      Wire.WriteInt(out, Int32(value.n.int64.value));
      return true;
    }
    if !value.Number? || value.n.float == None {
      return false;
    }
    Wire.WriteInt(out, Int32(value.n.float.value));
    return true;
  }

  /** The loop over an object's entries, with writeNamedJSONNBT as its body. */
  method WriteEntries(out: Wire.Buffer, entries: seq<Entry>) returns (ok: bool)
    modifies out
    ensures ok <==> ConvertEntries(entries).Some?
    ensures ok ==> out.contents == old(out.contents) + Fields(ConvertEntries(entries).value)
    decreases entries, 1
  {
    hide ConvertAs, Payload, StringBytes, ConvertEntries, Fields;
    EntriesStart(entries);
    for i := 0 to |entries|
      invariant ConvertEntries(entries[..i]).Some?
      invariant out.contents == old(out.contents) + Fields(ConvertEntries(entries[..i]).value)
    {
      var e := entries[i];
      EntriesStep(entries, i);
      ghost var before := out.contents;
      var tag := JsonTag(e.value);
      out.WriteByte(tag);
      WriteRawNBTString(out, e.key);
      ok := WriteJSONNBTPayload(out, tag, e.value);
      if !ok {
        EntriesFail(entries, i + 1);
        return false;
      }
      assert out.contents == before + FieldBytes(Field(e.key, ConvertAs(tag, e.value).value));
    }
    assert entries[..|entries|] == entries;
    return true;
  }

  lemma EntriesStart(entries: seq<Entry>)
    ensures ConvertEntries(entries[..0]) == Some([]) && Fields([]) == []
  {}

  /** One more entry is one more field, or the failure of the whole. */
  lemma EntriesStep(entries: seq<Entry>, i: nat)
    requires i < |entries| && ConvertEntries(entries[..i]).Some?
    ensures var t := ConvertAs(JsonTag(entries[i].value), entries[i].value);
      && (t.None? ==> ConvertEntries(entries[..i + 1]) == None)
      && (t.Some? ==>
            && TagOf(t.value) == JsonTag(entries[i].value)
            && ConvertEntries(entries[..i + 1]).Some?
            && Fields(ConvertEntries(entries[..i + 1]).value)
               == Fields(ConvertEntries(entries[..i]).value) + FieldBytes(Field(entries[i].key, t.value)))
  {
    hide ConvertAs, FieldBytes, JsonTag;
    var tag := JsonTag(entries[i].value);
    assert entries[..i + 1][..i] == entries[..i];
    if ConvertAs(tag, entries[i].value).Some? {
      TagOfConverted(tag, entries[i].value);
      var before := ConvertEntries(entries[..i]).value;
      var field := Field(entries[i].key, ConvertAs(tag, entries[i].value).value);
      assert (before + [field])[..i] == before;
    }
  }

  method WriteJSONListPayload(out: Wire.Buffer, values: seq<Json>) returns (ok: bool)
    modifies out
    ensures ok <==> ConvertList(values).Some?
    ensures ok ==> out.contents == old(out.contents) + Payload(ConvertList(values).value)
    decreases values, 1
  {
    hide ConvertAs, BigEndian, ConvertItems, Items;
    var childTag := if values == [] then TAG_END else JsonTag(values[0]);
    ghost var start := out.contents;
    out.WriteByte(childTag);
    Wire.WriteInt(out, Int32(|values|));
    ghost var head: seq<byte> := [childTag] + CountBytes(|values|);
    assert out.contents == start + head;
    ItemsStart(childTag, values);
    for i := 0 to |values|
      invariant ConvertItems(childTag, values[..i]).Some?
      invariant out.contents == start + (head + Items(ConvertItems(childTag, values[..i]).value))
    {
      ItemsStep(childTag, values, i);
      ok := WriteJSONNBTPayload(out, childTag, values[i]);
      if !ok {
        ItemsFail(childTag, values, i + 1);
        return false;
      }
    }
    assert values[..|values|] == values;
    return true;
  }

  lemma ItemsStart(tag: byte, values: seq<Json>)
    ensures ConvertItems(tag, values[..0]) == Some([]) && Items([]) == []
  {}

  lemma ItemsStep(tag: byte, values: seq<Json>, i: nat)
    requires i < |values| && ConvertItems(tag, values[..i]).Some?
    ensures var t := ConvertAs(tag, values[i]);
      && (t.None? ==> ConvertItems(tag, values[..i + 1]) == None)
      && (t.Some? ==>
            && ConvertItems(tag, values[..i + 1]).Some?
            && Items(ConvertItems(tag, values[..i + 1]).value)
               == Items(ConvertItems(tag, values[..i]).value) + Payload(t.value))
  {
    hide ConvertAs, Payload;
    assert values[..i + 1][..i] == values[..i];
    if ConvertAs(tag, values[i]).Some? {
      var before := ConvertItems(tag, values[..i]).value;
      assert (before + [ConvertAs(tag, values[i]).value])[..i] == before;
    }
  }

  lemma {:induction false} EntriesFail(entries: seq<Entry>, n: nat)
    requires n <= |entries| && ConvertEntries(entries[..n]) == None
    ensures ConvertEntries(entries) == None
    decreases |entries| - n
  {
    if n == |entries| {
      assert entries[..n] == entries;
    } else {
      assert entries[..n + 1][..n] == entries[..n];
      EntriesFail(entries, n + 1);
    }
  }

  lemma {:induction false} ItemsFail(tag: byte, values: seq<Json>, n: nat)
    requires n <= |values| && ConvertItems(tag, values[..n]) == None
    ensures ConvertItems(tag, values) == None
    decreases |values| - n
  {
    if n == |values| {
      assert values[..n] == values;
    } else {
      assert values[..n + 1][..n] == values[..n];
      ItemsFail(tag, values, n + 1);
    }
  }

  lemma TagOfConverted(tag: byte, v: Json)
    requires ConvertAs(tag, v).Some?
    ensures TagOf(ConvertAs(tag, v).value) == tag
  {}

  // ----- every success is well formed

  /** Of what is written under a tag: texts and names below 65536 bytes, lists below two to the 31 values. */
  predicate SmallAs(tag: byte, v: Json)
    decreases v, 1
  {
    if tag == TAG_COMPOUND && v.Object? then SmallEntries(v.entries)
    else if tag == TAG_LIST && v.Array? then
      |v.values| < 0x8000_0000 && SmallValues(if v.values == [] then TAG_END else JsonTag(v.values[0]), v.values)
    else if tag == TAG_STRING && v.Text? then |v.text| < 0x1_0000
    else true
  }

  predicate SmallEntries(entries: seq<Entry>)
    decreases entries, 0
  {
    forall i | 0 <= i < |entries| ::
      |entries[i].key| < 0x1_0000 && SmallAs(JsonTag(entries[i].value), entries[i].value)
  }

  predicate SmallValues(tag: byte, values: seq<Json>)
    decreases values, 0
  {
    forall i | 0 <= i < |values| :: SmallAs(tag, values[i])
  }

  predicate Small(v: Json) {
    v == Null || SmallAs(JsonTag(v), v)
  }

  lemma {:induction false} ConvertedFits(tag: byte, v: Json)
    requires ConvertAs(tag, v).Some?
    ensures Fits(ConvertAs(tag, v).value) <==> SmallAs(tag, v)
    decreases v, 1
  {
    hide ItemsFit, FieldsFit;
    if tag == TAG_COMPOUND {
      if v.Object? {
        EntriesFit(v.entries);
      } else {
        NothingFits();
      }
    } else if tag == TAG_LIST {
      if v.Array? {
        ConvertedItemsFit(if v.values == [] then TAG_END else JsonTag(v.values[0]), v.values);
      } else {
        NothingFits();
      }
    }
  }

  lemma NothingFits()
    ensures FieldsFit([]) && ItemsFit(TAG_END, [])
  {}

  lemma {:induction false} EntriesFit(entries: seq<Entry>)
    requires ConvertEntries(entries).Some?
    ensures FieldsFit(ConvertEntries(entries).value) <==> SmallEntries(entries)
    decreases entries, 0
  {
    hide ConvertAs, Fits, SmallAs, JsonTag;
    if entries != [] {
      var n := |entries| - 1;
      var e := entries[n];
      var t := ConvertAs(JsonTag(e.value), e.value).value;
      EntriesFit(entries[..n]);
      ConvertedFits(JsonTag(e.value), e.value);
      TagOfConverted(JsonTag(e.value), e.value);
      FieldsFitSnoc(ConvertEntries(entries[..n]).value, Field(e.key, t));
      SmallEntriesSnoc(entries[..n], e);
      assert entries == entries[..n] + [e];
    }
  }

  lemma SmallEntriesSnoc(entries: seq<Entry>, e: Entry)
    ensures SmallEntries(entries + [e])
      <==> SmallEntries(entries) && |e.key| < 0x1_0000 && SmallAs(JsonTag(e.value), e.value)
  {
    hide SmallAs, JsonTag;
    var all := entries + [e];
    assert all[|entries|] == e && forall i | 0 <= i < |entries| :: all[i] == entries[i];
  }

  lemma {:induction false} ConvertedItemsFit(tag: byte, values: seq<Json>)
    requires ConvertItems(tag, values).Some?
    ensures ItemsFit(tag, ConvertItems(tag, values).value) <==> SmallValues(tag, values)
    decreases values, 0
  {
    hide ConvertAs, Fits, SmallAs;
    if values != [] {
      var n := |values| - 1;
      var v := values[n];
      ConvertedItemsFit(tag, values[..n]);
      ConvertedFits(tag, v);
      TagOfConverted(tag, v);
      ItemsFitSnoc(tag, ConvertItems(tag, values[..n]).value, ConvertAs(tag, v).value);
      SmallValuesSnoc(tag, values[..n], v);
      assert values == values[..n] + [v];
    }
  }

  lemma SmallValuesSnoc(tag: byte, values: seq<Json>, v: Json)
    ensures SmallValues(tag, values + [v]) <==> SmallValues(tag, values) && SmallAs(tag, v)
  {
    hide SmallAs;
    var all := values + [v];
    assert all[|values|] == v && forall i | 0 <= i < |values| :: all[i] == values[i];
  }

  /** Whatever the value - mixed lists and nulls included - and whatever the map order, the bytes written
      are read back as one tree, to their last byte, whatever follows, exactly if the value is small; and
      then also after fullNBT. */
  lemma WellFormed(v: Json, suffix: seq<byte>)
    requires Convert(v).Some?
    ensures ReadAnonymous(Anonymous(Convert(v).value) + suffix) == Some((Convert(v).value, suffix)) <==> Small(v)
    ensures Small(v) ==>
      ReadNamed(FullNBT(Anonymous(Convert(v).value)) + suffix) == Some((Field([], Convert(v).value), suffix))
  {
    if v == Null {
      NothingFits();
      assert Fits(Compound([]));
    } else {
      ConvertedFits(JsonTag(v), v);
    }
    hide Convert, ConvertAs, SmallAs, Fits, ReadAnonymous, ReadNamed, Anonymous, FullNBT;
    RoundTripExactly(Convert(v).value, suffix);
    if Small(v) {
      FullRoundTrip(Convert(v).value, suffix);
    }
  }

  // ----- when the tree is the value

  /** The tree says what the value says. */
  predicate Same(v: Json, t: Tree)
    decreases v, 1
  {
    match v
    case Object(entries) => t.Compound? && SameEntries(entries, t.fields)
    case Array(values) => t.List? && SameValues(values, t.items)
    case Text(text) => t == String(text)
    case Bool(b) => t == Byte(if b then 1 else 0)
    case Number(n) =>
      if n.fractional then n.float.Some? && t == Float(n.float.value)
      else n.int64.Some? && t.Int? && Int32(t.i) == n.int64.value
    case Null => false
  }

  predicate SameEntries(entries: seq<Entry>, fields: seq<Field>)
    decreases entries, 0
  {
    && |entries| == |fields|
    && (entries == [] ||
        var n := |entries| - 1;
        && SameEntries(entries[..n], fields[..n])
        && fields[n].name == entries[n].key && Same(entries[n].value, fields[n].value))
  }

  predicate SameValues(values: seq<Json>, items: seq<Tree>)
    decreases values, 0
  {
    && |values| == |items|
    && (values == [] ||
        var n := |values| - 1; SameValues(values[..n], items[..n]) && Same(values[n], items[n]))
  }

  /** No nulls, only numbers an int32 or a float32 takes, and lists of one tag. */
  predicate Faithful(v: Json)
    decreases v, 1
  {
    match v
    case Object(entries) => FaithfulEntries(entries)
    case Array(values) =>
      FaithfulValues(values) && forall i | 0 <= i < |values| :: JsonTag(values[i]) == JsonTag(values[0])
    case Number(n) =>
      if n.fractional then n.float.Some?
      else n.int64.Some? && -0x8000_0000 <= n.int64.value < 0x8000_0000
    case Null => false
    case _ => true
  }

  predicate FaithfulEntries(entries: seq<Entry>)
    decreases entries, 0
  {
    forall i | 0 <= i < |entries| :: Faithful(entries[i].value)
  }

  predicate FaithfulValues(values: seq<Json>)
    decreases values, 0
  {
    forall i | 0 <= i < |values| :: Faithful(values[i])
  }

  /** Under any tag: the value is written and the tree is the same exactly if the value is
      faithful and the tag its own. */
  lemma {:induction false} SameExactly(tag: byte, v: Json)
    ensures (ConvertAs(tag, v).Some? && Same(v, ConvertAs(tag, v).value))
            <==> (Faithful(v) && tag == JsonTag(v))
    decreases v, 2
  {
    match v
    case Object(entries) => SameEntriesExactly(entries);
    case Array(values) =>
      if values == [] {
        assert ConvertItems(TAG_END, values) == Some([]);
      } else {
        SameValuesExactly(JsonTag(values[0]), values);
      }
    case Number(n) => Int32Exact(n);
    case _ =>
  }

  lemma Int32Exact(n: Number)
    ensures n.int64.Some? ==>
      (Int32(Uint32(n.int64.value)) == n.int64.value <==> -0x8000_0000 <= n.int64.value < 0x8000_0000)
  {}

  lemma {:induction false} SameEntriesExactly(entries: seq<Entry>)
    ensures (ConvertEntries(entries).Some? && SameEntries(entries, ConvertEntries(entries).value))
            <==> FaithfulEntries(entries)
    decreases entries, 0
  {
    hide ConvertAs, Same, Faithful;
    if entries != [] {
      var n := |entries| - 1;
      SameEntriesExactly(entries[..n]);
      SameExactly(JsonTag(entries[n].value), entries[n].value);
      assert entries == entries[..n] + [entries[n]];
      if ConvertEntries(entries).Some? {
        assert ConvertEntries(entries).value[..n] == ConvertEntries(entries[..n]).value;
      }
    }
  }

  lemma {:induction false} SameValuesExactly(tag: byte, values: seq<Json>)
    ensures (ConvertItems(tag, values).Some? && SameValues(values, ConvertItems(tag, values).value))
            <==> (FaithfulValues(values) && forall i | 0 <= i < |values| :: JsonTag(values[i]) == tag)
    decreases values, 0
  {
    hide ConvertAs, Same, Faithful, JsonTag;
    if values != [] {
      var n := |values| - 1;
      SameValuesExactly(tag, values[..n]);
      SameExactly(tag, values[n]);
      assert values == values[..n] + [values[n]];
      if ConvertItems(tag, values).Some? {
        assert ConvertItems(tag, values).value[..n] == ConvertItems(tag, values[..n]).value;
      }
    }
  }

  /** Reading what was written gives the same tree exactly for the faithful values. */
  lemma FaithfulExactly(v: Json)
    ensures (Convert(v).Some? && Same(v, Convert(v).value)) <==> Faithful(v)
  {
    SameExactly(JsonTag(v), v);
    if v.Number? && NumberTag(v.n) == None {
      assert !Faithful(v);
    }
  }

  // ----- values of another kind

  /** A list is written under the tag of its first value.  A value of another kind is then written as
      nothing of that tag: no entries, no values, no text, false.  Only a number has to be one. */
  lemma OtherKinds(v: Json)
    ensures !v.Object? ==> ConvertAs(TAG_COMPOUND, v) == Some(Compound([]))
    ensures !v.Array? ==> ConvertAs(TAG_LIST, v) == Some(List(TAG_END, []))
    ensures !v.Text? ==> ConvertAs(TAG_STRING, v) == Some(String([]))
    ensures !v.Bool? ==> ConvertAs(TAG_BYTE, v) == Some(Byte(0))
    ensures !v.Number? ==> ConvertAs(TAG_INT, v) == None && ConvertAs(TAG_FLOAT, v) == None
  {}

  /** What is under a number's tag is a number with a value of that kind, all the way down. */
  predicate Succeeds(tag: byte, v: Json)
    decreases v, 1
  {
    if tag == TAG_INT then v.Number? && v.n.int64.Some?
    else if tag == TAG_FLOAT then v.Number? && v.n.float.Some?
    else if tag == TAG_COMPOUND && v.Object? then EntriesSucceed(v.entries)
    else if tag == TAG_LIST && v.Array? then
      v.values == [] || ValuesSucceed(JsonTag(v.values[0]), v.values)
    else true
  }

  predicate EntriesSucceed(entries: seq<Entry>)
    decreases entries, 0
  {
    forall i | 0 <= i < |entries| :: Succeeds(JsonTag(entries[i].value), entries[i].value)
  }

  predicate ValuesSucceed(tag: byte, values: seq<Json>)
    decreases values, 0
  {
    forall i | 0 <= i < |values| :: Succeeds(tag, values[i])
  }

  /** Those are the values that are written; a bad number in an object or a list is written as an empty
      text, and alone it is an error. */
  lemma {:induction false} SucceedsExactly(tag: byte, v: Json)
    requires tag in {TAG_COMPOUND, TAG_LIST, TAG_STRING, TAG_BYTE, TAG_INT, TAG_FLOAT}
    ensures ConvertAs(tag, v).Some? <==> Succeeds(tag, v)
    decreases v, 1
  {
    if tag == TAG_COMPOUND && v.Object? {
      EntriesSucceedExactly(v.entries);
    } else if tag == TAG_LIST && v.Array? {
      if v.values == [] {
        assert ConvertItems(TAG_END, v.values) == Some([]);
      } else {
        TagsOfValues(v.values[0]);
        ValuesSucceedExactly(JsonTag(v.values[0]), v.values);
      }
    }
  }

  lemma TagsOfValues(v: Json)
    ensures JsonTag(v) in {TAG_COMPOUND, TAG_LIST, TAG_STRING, TAG_BYTE, TAG_INT, TAG_FLOAT}
    ensures v.Text? || v == Null ==> JsonTag(v) == TAG_STRING
    ensures v.Number? && v.n.fractional ==> JsonTag(v) == if v.n.float.Some? then TAG_FLOAT else TAG_STRING
    ensures v.Number? && !v.n.fractional ==> JsonTag(v) == if v.n.int64.Some? then TAG_INT else TAG_STRING
  {}

  lemma {:induction false} EntriesSucceedExactly(entries: seq<Entry>)
    ensures ConvertEntries(entries).Some? <==> EntriesSucceed(entries)
    decreases entries, 0
  {
    hide ConvertAs, Succeeds, JsonTag;
    if entries != [] {
      var n := |entries| - 1;
      EntriesSucceedExactly(entries[..n]);
      TagsOfValues(entries[n].value);
      SucceedsExactly(JsonTag(entries[n].value), entries[n].value);
      assert forall i | 0 <= i < n :: entries[..n][i] == entries[i];
      if EntriesSucceed(entries[..n]) && ConvertAs(JsonTag(entries[n].value), entries[n].value).Some? {
        assert forall i | 0 <= i < n :: Succeeds(JsonTag(entries[..n][i].value), entries[..n][i].value);
      }
    }
  }

  lemma {:induction false} ValuesSucceedExactly(tag: byte, values: seq<Json>)
    requires tag in {TAG_COMPOUND, TAG_LIST, TAG_STRING, TAG_BYTE, TAG_INT, TAG_FLOAT}
    ensures ConvertItems(tag, values).Some? <==> ValuesSucceed(tag, values)
    decreases values, 0
  {
    hide ConvertAs, Succeeds;
    if values != [] {
      var n := |values| - 1;
      ValuesSucceedExactly(tag, values[..n]);
      SucceedsExactly(tag, values[n]);
      assert forall i | 0 <= i < n :: values[..n][i] == values[i];
    }
  }

  /** At the top a null is an empty compound, and a bad number an error. */
  lemma TopSucceedsExactly(v: Json)
    ensures v == Null ==> Convert(v) == Some(Compound([]))
    ensures v != Null ==>
      (Convert(v).Some? <==> Succeeds(JsonTag(v), v) && !(v.Number? && JsonTag(v) == TAG_STRING))
    ensures v != Null && Convert(v).Some? ==> Convert(v) == ConvertAs(JsonTag(v), v)
  {
    TagsOfValues(v);
    SucceedsExactly(JsonTag(v), v);
  }
}
