/** The registry generator's NBT encoder, tools/mcregistry-gen/main.go. */
module GenNbt {
  import opened Bits
  import opened Wrappers
  import opened Nbt
  import Wire

  type Name = seq<byte>

  /** A number literal: its Int64, and its Float64 as the bits of its float32 and of itself. */
  datatype Num = Num(int64: Option<int64>, floats: Option<(uint32, uint64)>)

  /** A raw JSON message is what each decoder makes of it; None, NoFields and NoList are their errors. */
  datatype Raw = Raw(number: Option<Num>, numbers: Option<seq<Num>>, text: Option<seq<byte>>,
                     fields: FieldMap, list: ListValue)

  datatype FieldMap = NoFields | FieldMap(entries: map<Name, Value>)

  datatype ListValue = NoList | ListValue(typ: Option<byte>, values: seq<Raw>)

  /** A type name, as the tag that tagID gives it, and a raw value. */
  datatype Value = Value(typ: Option<byte>, raw: Raw)

  // ----- integers

  /** A number, or a pair of its upper and lower 32 bits. */
  function IntValue(raw: Raw): Option<int64> {
    if raw.number.Some? then raw.number.value.int64
    else if raw.numbers.Some? && |raw.numbers.value| == 2 then
      var hi, lo := raw.numbers.value[0].int64, raw.numbers.value[1].int64;
      if hi.Some? && lo.Some? then Some(Int64(Uint32(hi.value) * 0x1_0000_0000 + Uint32(lo.value))) else None
    else None
  }

  /** A pair says a 64-bit integer exactly if it is its upper and its lower half, in that order. */
  lemma PairDenotes(raw: Raw, v: int64, hi: Num, lo: Num)
    requires raw.number == None && raw.numbers == Some([hi, lo]) && hi.int64.Some? && lo.int64.Some?
    ensures IntValue(raw) == Some(v)
      <==> Uint32(hi.int64.value) == Uint64(v) / 0x1_0000_0000 && Uint32(lo.int64.value) == Uint64(v) % 0x1_0000_0000
  {
    var u := Uint32(hi.int64.value) * 0x1_0000_0000 + Uint32(lo.int64.value);
    assert u / 0x1_0000_0000 == Uint32(hi.int64.value) && u % 0x1_0000_0000 == Uint32(lo.int64.value);
    assert Uint64(Int64(u)) == u && Int64(Uint64(v)) == v;
  }

  function IntArrayValue(raw: Raw): Option<seq<int64>> {
    if raw.numbers == None then None else AllInts(raw.numbers.value)
  }

  function AllInts(numbers: seq<Num>): (r: Option<seq<int64>>)
    ensures r.Some? <==> forall i | 0 <= i < |numbers| :: numbers[i].int64.Some?
    ensures r.Some? ==> |r.value| == |numbers| && forall i | 0 <= i < |numbers| :: r.value[i] == numbers[i].int64.value
  {
    if numbers == [] then Some([])
    else match AllInts(numbers[..|numbers| - 1])
      case None => None
      case Some(before) =>
        match numbers[|numbers| - 1].int64
        case Some(v) => Some(before + [v])
        case None => None
  }

  // ----- names in order

  /** Go's order on strings. */
  predicate Less(a: Name, b: Name) {
    if b == [] then false
    else if a == [] then true
    else a[0] < b[0] || (a[0] == b[0] && Less(a[1..], b[1..]))
  }

  /** Up to k the same, and then the first ends or has the smaller byte. */
  predicate FirstDiffer(a: Name, b: Name, k: int) {
    && 0 <= k <= |a| && k < |b| && a[..k] == b[..k]
    && (k == |a| || a[k] < b[k])
  }

  /** Go's order of strings: at the first difference the smaller byte comes first, and a beginning
      comes before the whole. */
  lemma {:induction false} LessMeans(a: Name, b: Name)
    ensures Less(a, b) <==> exists k :: FirstDiffer(a, b, k)
  {
    if a == [] || b == [] {
      assert b != [] ==> FirstDiffer([], b, 0);
    } else {
      FirstDifferNext(a, b);
      if a[0] == b[0] {
        LessMeans(a[1..], b[1..]);
        if k :| FirstDiffer(a[1..], b[1..], k) {
          assert FirstDiffer(a, b, k + 1);
        }
      } else if a[0] < b[0] {
        assert FirstDiffer(a, b, 0);
      }
    }
  }

  lemma FirstDifferNext(a: Name, b: Name)
    requires a != [] && b != []
    ensures forall k :: FirstDiffer(a, b, k) <==>
      if k == 0 then a[0] < b[0] else a[0] == b[0] && FirstDiffer(a[1..], b[1..], k - 1)
  {
    forall k
      ensures FirstDiffer(a, b, k) <==>
        if k == 0 then a[0] < b[0] else a[0] == b[0] && FirstDiffer(a[1..], b[1..], k - 1)
    {
      if 0 < k <= |a| && k < |b| {
        assert a[..k] == [a[0]] + a[1..][..k - 1] && b[..k] == [b[0]] + b[1..][..k - 1];
        assert a[..k] == b[..k] <==> a[0] == b[0] && a[1..][..k - 1] == b[1..][..k - 1] by {
          if a[..k] == b[..k] {
            assert a[..k][1..] == a[1..][..k - 1] && b[..k][1..] == b[1..][..k - 1];
            assert a[..k][0] == b[..k][0];
          }
        }
      }
    }
  }

  lemma {:induction false} LessTransitive(a: Name, b: Name, c: Name)
    requires Less(a, b) && Less(b, c)
    ensures Less(a, c)
    decreases |a|
  {
    if a != [] && a[0] == b[0] == c[0] {
      LessTransitive(a[1..], b[1..], c[1..]);
    }
  }

  lemma {:induction false} LessTotal(a: Name, b: Name)
    ensures Less(a, b) || a == b || Less(b, a)
    ensures !(Less(a, b) && Less(b, a)) && !Less(a, a)
    decreases |a|
  {
    if a != [] && b != [] && a[0] == b[0] {
      LessTotal(a[1..], b[1..]);
      assert a == [a[0]] + a[1..] && b == [b[0]] + b[1..];
    }
    if a != [] {
      LessTotal(a[1..], a[1..]);
    }
  }

  ghost predicate Sorted(names: seq<Name>) {
    forall i, j | 0 <= i < j < |names| :: Less(names[i], names[j])
  }

  ghost predicate Lists(names: seq<Name>, s: set<Name>) {
    forall n: Name :: n in names <==> n in s
  }

  /** Only one order of a set of names is sorted. */
  lemma {:induction false} SortedUnique(a: seq<Name>, b: seq<Name>, s: set<Name>)
    requires Sorted(a) && Lists(a, s) && Sorted(b) && Lists(b, s)
    ensures a == b
    decreases |a|
  {
    if a == [] {
      if b != [] {
        FirstListed(b, s);
      }
    } else {
      assert a[0] in b && b != [] && b[0] in a;
      var i :| 0 <= i < |b| && b[i] == a[0];
      var j :| 0 <= j < |a| && a[j] == b[0];
      LessTotal(a[0], b[0]);
      assert a[0] == b[0];
      RestLists(a, s);
      RestLists(b, s);
      SortedUnique(a[1..], b[1..], s - {a[0]});
    }
  }

  lemma FirstListed(b: seq<Name>, s: set<Name>)
    requires Lists(b, s) && b != []
    ensures b[0] in s
  {
    assert b[0] in b;
  }

  lemma RestLists(a: seq<Name>, s: set<Name>)
    requires a != [] && Sorted(a) && Lists(a, s)
    ensures Sorted(a[1..]) && Lists(a[1..], s - {a[0]})
  {
    forall n: Name
      ensures n in a[1..] <==> n in s - {a[0]}
    {
      LessTotal(a[0], a[0]);
      if n in a[1..] {
        var i :| 0 <= i < |a[1..]| && a[1..][i] == n;
        assert Less(a[0], a[i + 1]);
      }
      if n in s && n != a[0] {
        assert n in a;
        var i :| 0 <= i < |a| && a[i] == n;
        assert a[1..][i - 1] == n;
      }
    }
  }

  /** Adding a name to a sorted list. */
  function Insert(names: seq<Name>, n: Name): seq<Name> {
    if names == [] then [n]
    else if Less(names[0], n) then [names[0]] + Insert(names[1..], n)
    else [n] + names
  }

  lemma {:induction false} InsertSorted(names: seq<Name>, n: Name)
    requires Sorted(names) && n !in names
    ensures Sorted(Insert(names, n))
    ensures forall m :: m in Insert(names, n) <==> m in names || m == n
    decreases |names|
  {
    if names != [] {
      if Less(names[0], n) {
        InsertSorted(names[1..], n);
        var rest := Insert(names[1..], n);
        forall i | 0 <= i < |rest|
          ensures Less(names[0], rest[i])
        {
          assert rest[i] in rest;
          if rest[i] != n {
            var j :| 0 <= j < |names[1..]| && names[1..][j] == rest[i];
          }
        }
        assert names == [names[0]] + names[1..];
      } else {
        assert names[0] in names;
        LessTotal(names[0], n);
        forall i | 0 <= i < |names|
          ensures Less(n, names[i])
        {
          if i > 0 {
            LessTransitive(n, names[0], names[i]);
          }
        }
      }
    }
  }

  /** sort.Strings, by insertion.  With distinct names every sort gives this. */
  method SortStrings(names: seq<Name>) returns (sorted: seq<Name>)
    requires forall i, j | 0 <= i < j < |names| :: names[i] != names[j]
    ensures Sorted(sorted) && forall n :: n in sorted <==> n in names
  {
    sorted := [];
    for i := 0 to |names|
      invariant Sorted(sorted) && forall n :: n in sorted <==> n in names[..i]
    {
      assert names[..i + 1] == names[..i] + [names[i]];
      assert names[i] !in names[..i];
      InsertSorted(sorted, names[i]);
      sorted := Insert(sorted, names[i]);
    }
    assert names[..|names|] == names;
  }

  lemma {:induction false} SortedExists(s: set<Name>) returns (names: seq<Name>)
    ensures Sorted(names) && Lists(names, s)
    decreases |s|
  {
    names := [];
    if s != {} {
      var n :| n in s;
      var rest := SortedExists(s - {n});
      InsertSorted(rest, n);
      names := Insert(rest, n);
    }
  }

  ghost function SortedNames(s: set<Name>): (names: seq<Name>)
    ensures Sorted(names) && Lists(names, s)
  {
    assert exists names :: Sorted(names) && Lists(names, s) by {
      var names := SortedExists(s);
    }
    var names :| Sorted(names) && Lists(names, s);
    names
  }

  // ----- what is written, as a tree

  /** The tree of a raw value under a tag; None is an error.  Fields come in the order of their names. */
  ghost function TreeOf(tag: byte, raw: Raw): Option<Tree>
    decreases raw, 2, 0
  {
    if tag == TAG_END then Some(End)
    else if tag in {TAG_BYTE, TAG_SHORT, TAG_INT, TAG_LONG} then
      match IntValue(raw) case None => None case Some(v) => Some(IntTree(tag, v))
    else if tag == TAG_FLOAT || tag == TAG_DOUBLE then
      if raw.number.Some? && raw.number.value.floats.Some? then
        var (f, d) := raw.number.value.floats.value;
        Some(if tag == TAG_FLOAT then Float(f) else Double(d))
      else None
    else if tag == TAG_STRING then
      match raw.text case None => None case Some(text) => Some(String(text))
    else if tag == TAG_LIST then
      if raw.list.ListValue? && raw.list.typ.Some? then
        match ItemTrees(raw.list.typ.value, raw, |raw.list.values|)
        case None => None
        case Some(items) => Some(List(raw.list.typ.value, items))
      else None
    else if tag == TAG_COMPOUND then
      if raw.fields.FieldMap? then
        match FieldTrees(raw, SortedNames(raw.fields.entries.Keys))
        case None => None
        case Some(fields) => Some(Compound(fields))
      else None
    else if tag in {TAG_BYTE_ARRAY, TAG_INT_ARRAY, TAG_LONG_ARRAY} then
      match IntArrayValue(raw) case None => None case Some(vs) => Some(ArrayTree(tag, vs))
    else None
  }

  /** Two's complement at the width of the tag. */
  function IntTree(tag: byte, v: int64): Tree {
    if tag == TAG_BYTE then Byte(v % 0x100)
    else if tag == TAG_SHORT then Short(Uint16(v))
    else if tag == TAG_INT then Int(Uint32(v))
    else Long(Uint64(v))
  }

  function ArrayTree(tag: byte, vs: seq<int64>): Tree {
    if tag == TAG_BYTE_ARRAY then ByteArray(seq(|vs|, i requires 0 <= i < |vs| => vs[i] % 0x100))
    else if tag == TAG_INT_ARRAY then IntArray(seq(|vs|, i requires 0 <= i < |vs| => Uint32(vs[i])))
    else LongArray(seq(|vs|, i requires 0 <= i < |vs| => Uint64(vs[i])))
  }

  /** The first n items of a list. */
  ghost function ItemTrees(tag: byte, raw: Raw, n: nat): (r: Option<seq<Tree>>)
    requires raw.list.ListValue? && n <= |raw.list.values|
    ensures r.Some? ==> |r.value| == n
    decreases raw, 1, n
  {
    if n == 0 then Some([])
    else match ItemTrees(tag, raw, n - 1)
      case None => None
      case Some(before) =>
        match TreeOf(tag, raw.list.values[n - 1])
        case Some(t) => Some(before + [t])
        case None => None
  }

  ghost function FieldTrees(raw: Raw, names: seq<Name>): (r: Option<seq<Field>>)
    requires raw.fields.FieldMap? && forall n | n in names :: n in raw.fields.entries
    ensures r.Some? ==> |r.value| == |names|
    decreases raw, 0, |names|
  {
    if names == [] then Some([])
    else
      var n := |names| - 1;
      assert names[n] in names;
      match FieldTrees(raw, names[..n])
      case None => None
      case Some(before) =>
        var value := raw.fields.entries[names[n]];
        if value.typ == None then None
        else match TreeOf(value.typ.value, value.raw)
          case Some(t) => Some(before + [Field(names[n], t)])
          case None => None
  }

  // ----- the writers

  method WriteWords(buf: Wire.Buffer, width: nat, words: seq<nat>)
    modifies buf
    ensures buf.contents == old(buf.contents) + Words(width, words)
  {
    hide BigEndian;
    for i := 0 to |words|
      invariant buf.contents == old(buf.contents) + Words(width, words[..i])
    {
      assert words[..i + 1][..i] == words[..i];
      buf.Write(BigEndian(width, words[i]));
    }
    assert words[..|words|] == words;
  }

  method WritePayload(buf: Wire.Buffer, tag: byte, raw: Raw) returns (ok: bool)
    modifies buf
    ensures ok <==> TreeOf(tag, raw).Some?
    ensures ok ==> buf.contents == old(buf.contents) + Payload(TreeOf(tag, raw).value)
    decreases raw, 2, 0
  {
    hide BigEndian, Words, ItemTrees, FieldTrees, Items, Fields;
    if tag == TAG_END {
      return true;
    }
    if tag in {TAG_BYTE, TAG_SHORT, TAG_INT, TAG_LONG} {
      var v := IntValue(raw);
      if v == None {
        return false;
      }
      if tag == TAG_BYTE {
        buf.WriteByte(v.value % 0x100);
      } else if tag == TAG_SHORT {
        buf.Write(BigEndian(2, Uint16(v.value)));
      } else if tag == TAG_INT {
        buf.Write(BigEndian(4, Uint32(v.value)));
      } else {
        buf.Write(BigEndian(8, Uint64(v.value)));
      }
      return true;
    }
    if tag == TAG_FLOAT || tag == TAG_DOUBLE {
      if raw.number == None || raw.number.value.floats == None {
        return false;
      }
      var (f, d) := raw.number.value.floats.value;
      buf.Write(if tag == TAG_FLOAT then BigEndian(4, f) else BigEndian(8, d));
      return true;
    }
    if tag == TAG_STRING {
      if raw.text == None {
        return false;
      }
      buf.Write(BigEndian(2, Uint16(|raw.text.value|)));
      buf.Write(raw.text.value);
      return true;
    }
    if tag == TAG_LIST {
      ok := WriteListPayload(buf, raw);
      return;
    }
    if tag == TAG_COMPOUND {
      if raw.fields.NoFields? {
        return false;
      }
      ok := WriteFields(buf, raw);
      if ok {
        buf.WriteByte(TAG_END);
      }
      return;
    }
    if tag in {TAG_BYTE_ARRAY, TAG_INT_ARRAY, TAG_LONG_ARRAY} {
      var values := IntArrayValue(raw);
      if values == None {
        return false;
      }
      WriteArray(buf, tag, values.value);
      return true;
    }
    return false;
  }

  method WriteArray(buf: Wire.Buffer, tag: byte, values: seq<int64>)
    requires tag in {TAG_BYTE_ARRAY, TAG_INT_ARRAY, TAG_LONG_ARRAY}
    modifies buf
    ensures buf.contents == old(buf.contents) + Payload(ArrayTree(tag, values))
  {
    hide BigEndian, Words;
    buf.Write(CountBytes(|values|));
    if tag == TAG_BYTE_ARRAY {
      ghost var bytes := ArrayTree(tag, values).bytes;
      ghost var head := buf.contents;
      for i := 0 to |values|
        invariant buf.contents == head + bytes[..i]
      {
        buf.WriteByte(values[i] % 0x100);
      }
      assert bytes[..|values|] == bytes;
    } else if tag == TAG_INT_ARRAY {
      WriteWords(buf, 4, seq(|values|, i requires 0 <= i < |values| => Uint32(values[i])));
      assert ArrayTree(tag, values).ints == seq(|values|, i requires 0 <= i < |values| => Uint32(values[i]));
    } else {
      WriteWords(buf, 8, seq(|values|, i requires 0 <= i < |values| => Uint64(values[i])));
      assert ArrayTree(tag, values).longs == seq(|values|, i requires 0 <= i < |values| => Uint64(values[i]));
    }
  }

  method WriteListPayload(buf: Wire.Buffer, raw: Raw) returns (ok: bool)
    modifies buf
    ensures ok <==> TreeOf(TAG_LIST, raw).Some?
    ensures ok ==> buf.contents == old(buf.contents) + Payload(TreeOf(TAG_LIST, raw).value)
    decreases raw, 1, 0
  {
    hide BigEndian, ItemTrees, Items;
    if raw.list.NoList? || raw.list.typ == None {
      return false;
    }
    var tag := raw.list.typ.value;
    ghost var start := buf.contents;
    buf.WriteByte(tag);
    buf.Write(CountBytes(|raw.list.values|));
    ghost var head: seq<byte> := [tag] + CountBytes(|raw.list.values|);
    assert buf.contents == start + head;
    ItemsStart(tag, raw);
    for i := 0 to |raw.list.values|
      invariant ItemTrees(tag, raw, i).Some?
      invariant buf.contents == start + (head + Items(ItemTrees(tag, raw, i).value))
    {
      ItemsStep(tag, raw, i);
      ok := WritePayload(buf, tag, raw.list.values[i]);
      if !ok {
        ItemsFail(tag, raw, i + 1);
        return false;
      }
    }
    return true;
  }

  lemma ItemsStart(tag: byte, raw: Raw)
    requires raw.list.ListValue?
    ensures ItemTrees(tag, raw, 0) == Some([]) && Items([]) == []
  {}

  lemma ItemsStep(tag: byte, raw: Raw, i: nat)
    requires raw.list.ListValue? && i < |raw.list.values| && ItemTrees(tag, raw, i).Some?
    ensures var t := TreeOf(tag, raw.list.values[i]);
      && (t.None? ==> ItemTrees(tag, raw, i + 1) == None)
      && (t.Some? ==>
            && ItemTrees(tag, raw, i + 1).Some?
            && Items(ItemTrees(tag, raw, i + 1).value) == Items(ItemTrees(tag, raw, i).value) + Payload(t.value))
  {
    hide TreeOf, Payload;
    if TreeOf(tag, raw.list.values[i]).Some? {
      var before := ItemTrees(tag, raw, i).value;
      assert (before + [TreeOf(tag, raw.list.values[i]).value])[..i] == before;
    }
  }

  lemma {:induction false} ItemsFail(tag: byte, raw: Raw, n: nat)
    requires raw.list.ListValue? && n <= |raw.list.values| && ItemTrees(tag, raw, n) == None
    ensures ItemTrees(tag, raw, |raw.list.values|) == None
    decreases |raw.list.values| - n
  {
    if n < |raw.list.values| {
      ItemsFail(tag, raw, n + 1);
    }
  }

  /** The compound case: the names come from the map in any order and are sorted, and then each
      field is written as writeNamedValue does. */
  method WriteFields(buf: Wire.Buffer, raw: Raw) returns (ok: bool)
    requires raw.fields.FieldMap?
    modifies buf
    ensures ok <==> FieldTrees(raw, SortedNames(raw.fields.entries.Keys)).Some?
    ensures ok ==> buf.contents == old(buf.contents) + Fields(FieldTrees(raw, SortedNames(raw.fields.entries.Keys)).value)
    decreases raw, 1, 0
  {
    hide BigEndian, TreeOf, Payload, FieldTrees, Fields, StringBytes, Sorted, Lists, Less;
    var names := NamesInOrder(raw.fields.entries.Keys);
    FieldsStart(raw);
    assert names[..0] == [];
    for i := 0 to |names|
      invariant FieldTrees(raw, names[..i]).Some?
      invariant buf.contents == old(buf.contents) + Fields(FieldTrees(raw, names[..i]).value)
    {
      assert names[i] in names;
      FieldsStep(raw, names, i);
      var value := raw.fields.entries[names[i]];
      if value.typ == None {
        FieldsFail(raw, names, i + 1);
        return false;
      }
      ghost var before := buf.contents;
      buf.WriteByte(value.typ.value);
      if value.typ.value != TAG_END {
        WriteName(buf, names[i]);
        ok := WritePayload(buf, value.typ.value, value.raw);
        if !ok {
          FieldsFail(raw, names, i + 1);
          return false;
        }
      } else {
        EndTree(value.raw);
      }
      assert buf.contents == before + FieldBytes(Field(names[i], TreeOf(value.typ.value, value.raw).value));
    }
    assert names[..|names|] == names;
    return true;
  }

  method WriteName(buf: Wire.Buffer, name: Name)
    modifies buf
    ensures buf.contents == old(buf.contents) + StringBytes(name)
  {
    buf.Write(BigEndian(2, Uint16(|name|)));
    buf.Write(name);
  }

  method NamesInOrder(keys: set<Name>) returns (names: seq<Name>)
    ensures names == SortedNames(keys)
    ensures forall n :: n in names <==> n in keys
  {
    var unsorted := NamesOf(keys);
    names := SortStrings(unsorted);
    SortedUnique(names, SortedNames(keys), keys);
  }

  /** The keys of a map, in whatever order they come. */
  method NamesOf(keys: set<Name>) returns (names: seq<Name>)
    ensures Lists(names, keys) && forall i, j | 0 <= i < j < |names| :: names[i] != names[j]
  {
    names := [];
    var todo := keys;
    while todo != {}
      invariant todo <= keys && Lists(names, keys - todo)
      invariant forall i, j | 0 <= i < j < |names| :: names[i] != names[j]
      decreases todo
    {
      var n :| n in todo;
      assert n !in names;
      names := names + [n];
      todo := todo - {n};
    }
  }

  lemma FieldsStart(raw: Raw)
    requires raw.fields.FieldMap?
    ensures FieldTrees(raw, []) == Some([]) && Fields([]) == []
  {}

  lemma EndTree(raw: Raw)
    ensures TreeOf(TAG_END, raw) == Some(End)
  {}

  lemma TagOfTree(tag: byte, raw: Raw)
    requires TreeOf(tag, raw).Some?
    ensures TagOf(TreeOf(tag, raw).value) == tag
  {}

  lemma FieldsStep(raw: Raw, names: seq<Name>, i: nat)
    requires raw.fields.FieldMap? && i < |names| && forall n | n in names :: n in raw.fields.entries
    requires FieldTrees(raw, names[..i]).Some?
    ensures names[i] in names
    ensures var value := raw.fields.entries[names[i]];
      && (value.typ == None || TreeOf(value.typ.value, value.raw) == None ==> FieldTrees(raw, names[..i + 1]) == None)
      && (value.typ.Some? && TreeOf(value.typ.value, value.raw).Some? ==>
            var t := TreeOf(value.typ.value, value.raw).value;
            && TagOf(t) == value.typ.value
            && FieldTrees(raw, names[..i + 1]).Some?
            && Fields(FieldTrees(raw, names[..i + 1]).value)
               == Fields(FieldTrees(raw, names[..i]).value) + FieldBytes(Field(names[i], t)))
  {
    hide TreeOf, FieldBytes;
    assert names[i] in names && names[..i + 1][..i] == names[..i];
    var value := raw.fields.entries[names[i]];
    if value.typ.Some? && TreeOf(value.typ.value, value.raw).Some? {
      TagOfTree(value.typ.value, value.raw);
      var before := FieldTrees(raw, names[..i]).value;
      var field := Field(names[i], TreeOf(value.typ.value, value.raw).value);
      assert (before + [field])[..i] == before;
    }
  }

  lemma {:induction false} FieldsFail(raw: Raw, names: seq<Name>, n: nat)
    requires raw.fields.FieldMap? && n <= |names| && forall m | m in names :: m in raw.fields.entries
    requires FieldTrees(raw, names[..n]) == None
    ensures FieldTrees(raw, names) == None
    decreases |names| - n
  {
    if n == |names| {
      assert names[..n] == names;
    } else {
      assert names[..n + 1][..n] == names[..n];
      FieldsFail(raw, names, n + 1);
    }
  }

  /** The root must be a compound. */
  ghost function Root(value: Value): Option<Tree> {
    if value.typ == Some(TAG_COMPOUND) then TreeOf(TAG_COMPOUND, value.raw) else None
  }

  /** The bytes are a function of the value, though the source ranges over its maps in any order. */
  method EncodeAnonymousNBT(value: Value) returns (r: Option<seq<byte>>)
    ensures Root(value) == None ==> r == None
    ensures Root(value).Some? ==> r == Some(Anonymous(Root(value).value))
  {
    hide Payload;
    if value.typ != Some(TAG_COMPOUND) {
      return None;
    }
    var buf := new Wire.Buffer();
    buf.WriteByte(TAG_COMPOUND);
    assert buf.contents == [TAG_COMPOUND];
    var ok := WritePayload(buf, TAG_COMPOUND, value.raw);
    if !ok {
      return None;
    }
    TagOfTree(TAG_COMPOUND, value.raw);
    assert buf.contents == Anonymous(Root(value).value);
    return Some(buf.contents);
  }

  // ----- round trip

  /** Texts and names below 65536 bytes, arrays below two to the 31, and no field of type end. */
  predicate Small(tag: byte, raw: Raw)
    decreases raw, 2, 0
  {
    if tag == TAG_STRING then raw.text.Some? ==> |raw.text.value| < 0x1_0000
    else if tag in {TAG_BYTE_ARRAY, TAG_INT_ARRAY, TAG_LONG_ARRAY} then
      raw.numbers.Some? ==> |raw.numbers.value| < 0x8000_0000
    else if tag == TAG_LIST then
      raw.list.ListValue? && raw.list.typ.Some? ==>
        && |raw.list.values| < 0x8000_0000
        && forall i | 0 <= i < |raw.list.values| :: Small(raw.list.typ.value, raw.list.values[i])
    else if tag == TAG_COMPOUND then
      raw.fields.FieldMap? ==>
        forall n | n in raw.fields.entries :: SmallField(raw, n)
    else true
  }

  predicate SmallField(raw: Raw, n: Name)
    requires raw.fields.FieldMap? && n in raw.fields.entries
    decreases raw, 1, 0
  {
    var value := raw.fields.entries[n];
    |n| < 0x1_0000 && (value.typ.Some? ==> value.typ.value != TAG_END && Small(value.typ.value, value.raw))
  }

  /** What is encoded fits exactly if it is small. */
  lemma {:induction false} TreeFits(tag: byte, raw: Raw)
    requires TreeOf(tag, raw).Some?
    ensures Fits(TreeOf(tag, raw).value) <==> Small(tag, raw)
    decreases raw, 2, 0
  {
    hide ItemTrees, FieldTrees, ItemsFit, FieldsFit, SmallField;
    if tag == TAG_LIST {
      ItemTreesFit(raw.list.typ.value, raw, |raw.list.values|);
    } else if tag == TAG_COMPOUND {
      var names := SortedNames(raw.fields.entries.Keys);
      FieldTreesFit(raw, names);
      assert forall n :: n in names <==> n in raw.fields.entries;
    }
  }

  lemma {:induction false} ItemTreesFit(tag: byte, raw: Raw, n: nat)
    requires raw.list.ListValue? && n <= |raw.list.values| && ItemTrees(tag, raw, n).Some?
    ensures ItemsFit(tag, ItemTrees(tag, raw, n).value) <==> forall i | 0 <= i < n :: Small(tag, raw.list.values[i])
    decreases raw, 1, n
  {
    hide TreeOf, Fits, Small;
    if n > 0 {
      var before, t := ItemTrees(tag, raw, n - 1).value, TreeOf(tag, raw.list.values[n - 1]).value;
      ItemTreesFit(tag, raw, n - 1);
      TreeFits(tag, raw.list.values[n - 1]);
      TagOfTree(tag, raw.list.values[n - 1]);
      ItemsFitSnoc(tag, before, t);
    }
  }

  lemma {:induction false} FieldTreesFit(raw: Raw, names: seq<Name>)
    requires raw.fields.FieldMap? && forall n | n in names :: n in raw.fields.entries
    requires FieldTrees(raw, names).Some?
    ensures FieldsFit(FieldTrees(raw, names).value) <==> forall n | n in names :: SmallField(raw, n)
    decreases raw, 1, |names|
  {
    hide TreeOf, Fits, Small;
    if names != [] {
      var n := |names| - 1;
      assert names[n] in names && names == names[..n] + [names[n]];
      var value := raw.fields.entries[names[n]];
      var t := TreeOf(value.typ.value, value.raw).value;
      FieldTreesFit(raw, names[..n]);
      TreeFits(value.typ.value, value.raw);
      TagOfTree(value.typ.value, value.raw);
      FieldsFitSnoc(FieldTrees(raw, names[..n]).value, Field(names[n], t));
      assert t == End <==> value.typ.value == TAG_END by {
        EndTag(t);
      }
    }
  }

  lemma EndTag(t: Tree)
    ensures t == End <==> TagOf(t) == TAG_END
  {}

  lemma {:induction false} FieldTreesAt(raw: Raw, names: seq<Name>)
    requires raw.fields.FieldMap? && forall n | n in names :: n in raw.fields.entries
    ensures FieldTrees(raw, names).Some? <==> forall i | 0 <= i < |names| :: FieldTree(raw, names[i]).Some?
    ensures FieldTrees(raw, names).Some? ==>
      forall i | 0 <= i < |names| ::
        FieldTrees(raw, names).value[i].name == names[i]
        && FieldTree(raw, names[i]) == Some(FieldTrees(raw, names).value[i].value)
    decreases |names|
  {
    hide TreeOf;
    if names != [] {
      var n := |names| - 1;
      assert names[n] in names;
      FieldTreesAt(raw, names[..n]);
      if FieldTrees(raw, names).None? && FieldTrees(raw, names[..n]).Some? {
        assert FieldTree(raw, names[n]).None?;
      }
    }
  }

  ghost function FieldTree(raw: Raw, n: Name): Option<Tree>
    requires raw.fields.FieldMap?
  {
    if n in raw.fields.entries && raw.fields.entries[n].typ.Some?
      then TreeOf(raw.fields.entries[n].typ.value, raw.fields.entries[n].raw) else None
  }

  /** A compound is encoded exactly when each of its entries is, and its fields are then the entries
      of the map, each once and in the order of their names. */
  lemma CompoundIsItsMap(raw: Raw)
    requires raw.fields.FieldMap?
    ensures TreeOf(TAG_COMPOUND, raw).Some? <==> forall n | n in raw.fields.entries :: FieldTree(raw, n).Some?
    ensures TreeOf(TAG_COMPOUND, raw).Some? ==> DenotesMap(raw, TreeOf(TAG_COMPOUND, raw).value)
  {
    hide Sorted, Less;
    var names := SortedNames(raw.fields.entries.Keys);
    FieldTreesAt(raw, names);
    if forall i | 0 <= i < |names| :: FieldTree(raw, names[i]).Some? {
      forall n | n in raw.fields.entries
        ensures n in names && FieldTree(raw, n).Some?
      {}
    } else {
      var i :| 0 <= i < |names| && FieldTree(raw, names[i]).None?;
      assert names[i] in names;
    }
    if TreeOf(TAG_COMPOUND, raw).Some? {
      var fields := TreeOf(TAG_COMPOUND, raw).value.fields;
      assert Sorted(names);
      assert seq(|fields|, i requires 0 <= i < |fields| => fields[i].name) == names;
    }
  }

  ghost predicate DenotesMap(raw: Raw, t: Tree)
    requires raw.fields.FieldMap?
  {
    && t.Compound?
    && Sorted(seq(|t.fields|, i requires 0 <= i < |t.fields| => t.fields[i].name))
    && (forall i | 0 <= i < |t.fields| :: FieldTree(raw, t.fields[i].name) == Some(t.fields[i].value))
    && (forall n | n in raw.fields.entries :: exists i | 0 <= i < |t.fields| :: t.fields[i].name == n)
  }

  /** A value of any tag that is encoded is read back as its tree, whatever follows, exactly if its texts
      and arrays are small enough and it has no field of type end. */
  lemma GeneratedRoundTrip(value: Value, suffix: seq<byte>)
    requires Root(value).Some?
    ensures ReadAnonymous(Anonymous(Root(value).value) + suffix) == Some((Root(value).value, suffix))
      <==> Small(TAG_COMPOUND, value.raw)
  {
    TreeFits(TAG_COMPOUND, value.raw);
    hide Small, Fits, ReadAnonymous, Anonymous, TreeOf;
    RoundTripExactly(Root(value).value, suffix);
  }

  // ----- the tree says what the value says

  /** The integer a raw value writes: a number, or a pair of its upper and its lower 32 bits. */
  predicate SaysInt(raw: Raw, v: int64) {
    if raw.number.Some? then raw.number.value.int64 == Some(v)
    else
      && raw.numbers.Some? && |raw.numbers.value| == 2
      && raw.numbers.value[0].int64.Some? && raw.numbers.value[1].int64.Some?
      && Uint32(raw.numbers.value[0].int64.value) == Uint64(v) / 0x1_0000_0000
      && Uint32(raw.numbers.value[1].int64.value) == Uint64(v) % 0x1_0000_0000
  }

  function Int8(b: byte): int {
    if b < 0x80 then b else b - 0x100
  }

  /** Integers signed at the width of their tag, float bits, text, and element by element and entry by
      entry the same; the fields of a compound come in the order of their names. */
  ghost predicate Says(tag: byte, raw: Raw, t: Tree)
    decreases raw, 1
  {
    match t
    case End => tag == TAG_END
    case Byte(b) => tag == TAG_BYTE && SaysInt(raw, Int8(b))
    case Short(s) => tag == TAG_SHORT && SaysInt(raw, Int16(s))
    case Int(i) => tag == TAG_INT && SaysInt(raw, Int32(i))
    case Long(l) => tag == TAG_LONG && SaysInt(raw, Int64(l))
    case Float(f) =>
      tag == TAG_FLOAT && raw.number.Some? && raw.number.value.floats.Some? && raw.number.value.floats.value.0 == f
    case Double(d) =>
      tag == TAG_DOUBLE && raw.number.Some? && raw.number.value.floats.Some? && raw.number.value.floats.value.1 == d
    case String(text) => tag == TAG_STRING && raw.text == Some(text)
    case ByteArray(bytes) =>
      && tag == TAG_BYTE_ARRAY && raw.numbers.Some? && |raw.numbers.value| == |bytes|
      && forall i | 0 <= i < |bytes| :: raw.numbers.value[i].int64.Some? && raw.numbers.value[i].int64.value == Int8(bytes[i])
    case IntArray(ints) =>
      && tag == TAG_INT_ARRAY && raw.numbers.Some? && |raw.numbers.value| == |ints|
      && forall i | 0 <= i < |ints| :: raw.numbers.value[i].int64 == Some(Int32(ints[i]))
    case LongArray(longs) =>
      && tag == TAG_LONG_ARRAY && raw.numbers.Some? && |raw.numbers.value| == |longs|
      && forall i | 0 <= i < |longs| :: raw.numbers.value[i].int64 == Some(Int64(longs[i]))
    case List(elem, items) =>
      && tag == TAG_LIST && raw.list.ListValue? && raw.list.typ == Some(elem)
      && |items| == |raw.list.values| && forall i | 0 <= i < |items| :: Says(elem, raw.list.values[i], items[i])
    case Compound(fields) =>
      && tag == TAG_COMPOUND && raw.fields.FieldMap?
      && InNameOrder(fields)
      && (forall i | 0 <= i < |fields| :: fields[i].name in raw.fields.entries && SaysField(raw, fields[i]))
      && (forall n | n in raw.fields.entries :: exists i | 0 <= i < |fields| :: fields[i].name == n)
  }

  ghost predicate InNameOrder(fields: seq<Field>) {
    forall i, j | 0 <= i < j < |fields| :: Less(fields[i].name, fields[j].name)
  }

  ghost predicate SaysField(raw: Raw, f: Field)
    requires raw.fields.FieldMap? && f.name in raw.fields.entries
    decreases raw, 0
  {
    var value := raw.fields.entries[f.name];
    value.typ.Some? && Says(value.typ.value, value.raw, f.value)
  }

  /** Every integer lies in the range of its tag. */
  ghost predicate InRange(tag: byte, raw: Raw)
    decreases raw, 1
  {
    if tag == TAG_BYTE then forall v: int64 | SaysInt(raw, v) :: -0x80 <= v < 0x80
    else if tag == TAG_SHORT then forall v: int64 | SaysInt(raw, v) :: -0x8000 <= v < 0x8000
    else if tag == TAG_INT then forall v: int64 | SaysInt(raw, v) :: -0x8000_0000 <= v < 0x8000_0000
    else if tag == TAG_BYTE_ARRAY then NumbersIn(raw, -0x80, 0x80)
    else if tag == TAG_INT_ARRAY then NumbersIn(raw, -0x8000_0000, 0x8000_0000)
    else if tag == TAG_LIST then
      raw.list.ListValue? && raw.list.typ.Some? ==>
        forall i | 0 <= i < |raw.list.values| :: InRange(raw.list.typ.value, raw.list.values[i])
    else if tag == TAG_COMPOUND then
      raw.fields.FieldMap? ==> forall n | n in raw.fields.entries :: FieldInRange(raw, n)
    else true
  }

  ghost predicate FieldInRange(raw: Raw, n: Name)
    requires raw.fields.FieldMap? && n in raw.fields.entries
    decreases raw, 0
  {
    var value := raw.fields.entries[n];
    value.typ.Some? ==> InRange(value.typ.value, value.raw)
  }

  predicate NumbersIn(raw: Raw, low: int, high: int) {
    raw.numbers.Some? ==>
      forall i | 0 <= i < |raw.numbers.value| && raw.numbers.value[i].int64.Some? ::
        low <= raw.numbers.value[i].int64.value < high
  }

  lemma IntIsSaid(raw: Raw)
    ensures forall v: int64 :: SaysInt(raw, v) <==> IntValue(raw) == Some(v)
  {
    if raw.number.None? && raw.numbers.Some? && |raw.numbers.value| == 2
       && raw.numbers.value[0].int64.Some? && raw.numbers.value[1].int64.Some? {
      forall v: int64
        ensures SaysInt(raw, v) <==> IntValue(raw) == Some(v)
      {
        assert raw.numbers.value == [raw.numbers.value[0], raw.numbers.value[1]];
        PairDenotes(raw, v, raw.numbers.value[0], raw.numbers.value[1]);
      }
    }
  }

  lemma IntSays(tag: byte, raw: Raw)
    requires tag in {TAG_BYTE, TAG_SHORT, TAG_INT, TAG_LONG} && IntValue(raw).Some?
    ensures Says(tag, raw, IntTree(tag, IntValue(raw).value)) <==> InRange(tag, raw)
  {
    IntIsSaid(raw);
    SignedBack(IntValue(raw).value);
    hide SaysInt, IntValue, Int8, Int16, Int32, Int64, Uint16, Uint32, Uint64;
  }

  /** Read signed, a cut-off integer is itself exactly in the range of its width. */
  lemma SignedBack(v: int64)
    ensures Int8(v % 0x100) == v <==> -0x80 <= v < 0x80
    ensures Int16(Uint16(v)) == v <==> -0x8000 <= v < 0x8000
    ensures Int32(Uint32(v)) == v <==> -0x8000_0000 <= v < 0x8000_0000
    ensures Int64(Uint64(v)) == v
  {}

  lemma ArraySays(tag: byte, raw: Raw)
    requires tag in {TAG_BYTE_ARRAY, TAG_INT_ARRAY, TAG_LONG_ARRAY} && IntArrayValue(raw).Some?
    ensures Says(tag, raw, ArrayTree(tag, IntArrayValue(raw).value)) <==> InRange(tag, raw)
  {
    var vs := IntArrayValue(raw).value;
    assert raw.numbers.Some? && |vs| == |raw.numbers.value|;
    assert forall i | 0 <= i < |vs| :: raw.numbers.value[i].int64 == Some(vs[i]);
    hide AllInts, IntArrayValue;
    if tag == TAG_BYTE_ARRAY {
      BytesSay(vs);
    } else if tag == TAG_INT_ARRAY {
      IntsSay(vs);
    } else {
      LongsSay(vs);
    }
  }

  lemma BytesSay(vs: seq<int64>)
    ensures var t := ArrayTree(TAG_BYTE_ARRAY, vs);
      t.ByteArray? && |t.bytes| == |vs| && forall i | 0 <= i < |vs| :: vs[i] == Int8(t.bytes[i]) <==> -0x80 <= vs[i] < 0x80
  {}

  lemma IntsSay(vs: seq<int64>)
    ensures var t := ArrayTree(TAG_INT_ARRAY, vs);
      && t.IntArray? && |t.ints| == |vs|
      && forall i | 0 <= i < |vs| :: vs[i] == Int32(t.ints[i]) <==> -0x8000_0000 <= vs[i] < 0x8000_0000
  {}

  lemma LongsSay(vs: seq<int64>)
    ensures var t := ArrayTree(TAG_LONG_ARRAY, vs);
      t.LongArray? && |t.longs| == |vs| && forall i | 0 <= i < |vs| :: vs[i] == Int64(t.longs[i])
  {}

  lemma {:induction false} ItemTreesAt(tag: byte, raw: Raw, n: nat)
    requires raw.list.ListValue? && n <= |raw.list.values| && ItemTrees(tag, raw, n).Some?
    ensures forall i | 0 <= i < n :: TreeOf(tag, raw.list.values[i]) == Some(ItemTrees(tag, raw, n).value[i])
  {
    hide TreeOf;
    if n > 0 {
      ItemTreesAt(tag, raw, n - 1);
    }
  }

  /** What is encoded says what the value says, exactly if each integer is in the range of its tag. */
  lemma {:induction false} TreeSays(tag: byte, raw: Raw)
    requires TreeOf(tag, raw).Some?
    ensures Says(tag, raw, TreeOf(tag, raw).value) <==> InRange(tag, raw)
    decreases raw, 1
  {
    if tag in {TAG_BYTE, TAG_SHORT, TAG_INT, TAG_LONG} {
      IntSays(tag, raw);
    } else if tag in {TAG_BYTE_ARRAY, TAG_INT_ARRAY, TAG_LONG_ARRAY} {
      ArraySays(tag, raw);
    } else if tag == TAG_LIST {
      ListSays(raw);
    } else if tag == TAG_COMPOUND {
      CompoundSays(raw);
    }
  }

  lemma {:induction false} ListSays(raw: Raw)
    requires TreeOf(TAG_LIST, raw).Some?
    ensures Says(TAG_LIST, raw, TreeOf(TAG_LIST, raw).value) <==> InRange(TAG_LIST, raw)
    decreases raw, 0
  {
    var tag, values := raw.list.typ.value, raw.list.values;
    var items := TreeOf(TAG_LIST, raw).value.items;
    ItemTreesAt(tag, raw, |values|);
    hide TreeOf, ItemTrees;
    forall i | 0 <= i < |values|
      ensures Says(tag, values[i], items[i]) <==> InRange(tag, values[i])
    {
      TreeSays(tag, values[i]);
    }
  }

  lemma {:induction false} CompoundSays(raw: Raw)
    requires TreeOf(TAG_COMPOUND, raw).Some?
    ensures Says(TAG_COMPOUND, raw, TreeOf(TAG_COMPOUND, raw).value) <==> InRange(TAG_COMPOUND, raw)
    decreases raw, 0
  {
    var t := TreeOf(TAG_COMPOUND, raw).value;
    var fields := t.fields;
    CompoundIsItsMap(raw);
    NamesInOrderAre(fields);
    hide TreeOf, FieldTrees, Less;
    forall i | 0 <= i < |fields|
      ensures fields[i].name in raw.fields.entries
      ensures SaysField(raw, fields[i]) <==> FieldInRange(raw, fields[i].name)
    {
      assert FieldTree(raw, t.fields[i].name) == Some(t.fields[i].value);
      var value := raw.fields.entries[fields[i].name];
      TreeSays(value.typ.value, value.raw);
    }
  }

  lemma NamesInOrderAre(fields: seq<Field>)
    ensures Sorted(seq(|fields|, i requires 0 <= i < |fields| => fields[i].name)) ==> InNameOrder(fields)
  {
    hide Less;
    var names := seq(|fields|, i requires 0 <= i < |fields| => fields[i].name);
    assert forall i | 0 <= i < |fields| :: names[i] == fields[i].name;
  }

  // ----- which values are encoded

  /** A value has what its tag asks for, all the way down. */
  ghost predicate Encodable(tag: byte, raw: Raw)
    decreases raw, 1
  {
    if tag == TAG_END then true
    else if tag in {TAG_BYTE, TAG_SHORT, TAG_INT, TAG_LONG} then exists v: int64 :: SaysInt(raw, v)
    else if tag in {TAG_FLOAT, TAG_DOUBLE} then raw.number.Some? && raw.number.value.floats.Some?
    else if tag == TAG_STRING then raw.text.Some?
    else if tag in {TAG_BYTE_ARRAY, TAG_INT_ARRAY, TAG_LONG_ARRAY} then
      raw.numbers.Some? && forall i | 0 <= i < |raw.numbers.value| :: raw.numbers.value[i].int64.Some?
    else if tag == TAG_LIST then
      && raw.list.ListValue? && raw.list.typ.Some?
      && forall i | 0 <= i < |raw.list.values| :: Encodable(raw.list.typ.value, raw.list.values[i])
    else if tag == TAG_COMPOUND then
      raw.fields.FieldMap? && forall n | n in raw.fields.entries :: EncodableField(raw, n)
    else false
  }

  ghost predicate EncodableField(raw: Raw, n: Name)
    requires raw.fields.FieldMap? && n in raw.fields.entries
    decreases raw, 0
  {
    raw.fields.entries[n].typ.Some? && Encodable(raw.fields.entries[n].typ.value, raw.fields.entries[n].raw)
  }

  lemma {:induction false} ItemTreesExist(tag: byte, raw: Raw, n: nat)
    requires raw.list.ListValue? && n <= |raw.list.values|
    ensures ItemTrees(tag, raw, n).Some? <==> forall i | 0 <= i < n :: TreeOf(tag, raw.list.values[i]).Some?
  {
    hide TreeOf;
    if n > 0 {
      ItemTreesExist(tag, raw, n - 1);
    }
  }

  lemma IntExists(raw: Raw)
    ensures IntValue(raw).Some? <==> exists v: int64 :: SaysInt(raw, v)
  {
    IntIsSaid(raw);
    hide SaysInt, IntValue;
    if IntValue(raw).Some? {
      assert SaysInt(raw, IntValue(raw).value);
    }
  }

  /** A value is encoded exactly then. */
  lemma {:induction false} EncodedExactly(tag: byte, raw: Raw)
    ensures TreeOf(tag, raw).Some? <==> Encodable(tag, raw)
    decreases raw, 1
  {
    if tag == TAG_LIST {
      if raw.list.ListValue? && raw.list.typ.Some? {
        ListEncoded(raw);
      }
    } else if tag == TAG_COMPOUND {
      if raw.fields.FieldMap? {
        CompoundEncoded(raw);
      }
    } else {
      IntExists(raw);
      hide SaysInt, IntValue;
    }
  }

  lemma {:induction false} ListEncoded(raw: Raw)
    requires raw.list.ListValue? && raw.list.typ.Some?
    ensures TreeOf(TAG_LIST, raw).Some? <==> Encodable(TAG_LIST, raw)
    decreases raw, 0
  {
    var tag, values := raw.list.typ.value, raw.list.values;
    ItemTreesExist(tag, raw, |values|);
    assert TreeOf(TAG_LIST, raw).Some? <==> ItemTrees(tag, raw, |values|).Some?;
    hide TreeOf, ItemTrees;
    forall i | 0 <= i < |values|
      ensures TreeOf(tag, values[i]).Some? <==> Encodable(tag, values[i])
    {
      EncodedExactly(tag, values[i]);
    }
  }

  lemma {:induction false} CompoundEncoded(raw: Raw)
    requires raw.fields.FieldMap?
    ensures TreeOf(TAG_COMPOUND, raw).Some? <==> Encodable(TAG_COMPOUND, raw)
    decreases raw, 0
  {
    CompoundIsItsMap(raw);
    hide TreeOf;
    forall n | n in raw.fields.entries
      ensures FieldTree(raw, n).Some? <==> EncodableField(raw, n)
    {
      var value := raw.fields.entries[n];
      if value.typ.Some? {
        EncodedExactly(value.typ.value, value.raw);
      }
    }
  }
}
