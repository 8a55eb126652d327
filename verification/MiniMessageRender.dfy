/** The renderer of minimessage.go: parsed nodes become text components.  Hover texts and the
    arguments of translations are MiniMessage themselves, and are parsed and rendered in turn. */
module MiniMessageRender {
  import opened Wrappers
  import opened MiniMessage
  import opened MiniMessageColors

  // ----- styles and components

  datatype Decoration = Bold | Italic | Underlined | Strikethrough | Obfuscated

  datatype Style = Style(color: Option<Color>, decorations: map<Decoration, bool>, font: Option<string>,
                         insertion: Option<string>, click: Option<string>, hover: Option<Hover>)

  datatype Hover =
    | ShowText(text: Component)
    | ShowItem(item: string, count: int)
    | ShowEntity(typ: string, id: string, name: Option<Component>)

  /** A Group is a text component with no content but components under it. */
  datatype Component =
    | TextPart(content: string, style: Style)
    | TranslationPart(key: string, with: seq<Component>, style: Style)
    | Group(parts: seq<Component>)

  function EmptyStyle(): Style {
    Style(None, map[], None, None, None, None)
  }

  /** What the libraries decide: colour names and codes, hues, where a transition stands, keys,
      numbers, UUIDs and click events. */
  datatype Env = Env(
    parseColor: string -> Option<Color>,
    hue: (int, int) -> Color,
    transition: (seq<Color>, seq<string>) -> Color,
    key: string -> Option<string>,
    number: string -> Option<int>,
    uuid: string -> Option<string>,
    click: (string, string) -> Option<string>)

  /** Several components as one. */
  function Compact(parts: seq<Component>): Component {
    if parts == [] then TextPart("", EmptyStyle())
    else if |parts| == 1 then parts[0]
    else Group(parts)
  }

  // ----- tags

  function ParseColors(env: Env, args: seq<string>): seq<Color> {
    if args == [] then []
    else
      var before := ParseColors(env, args[..|args| - 1]);
      match env.parseColor(args[|args| - 1])
      case Some(c) => before + [c]
      case None => before
  }

  function ParseColorTag(env: Env, name: string, args: seq<string>): Option<Color> {
    if name in {"color", "colour", "c"} then
      if args == [] then None else env.parseColor(args[0])
    else env.parseColor(name)
  }

  function DecorationOf(name: string): Option<Decoration> {
    if name in {"bold", "b"} then Some(Bold)
    else if name in {"italic", "em", "i"} then Some(Italic)
    else if name in {"underlined", "underline", "u"} then Some(Underlined)
    else if name in {"strikethrough", "st"} then Some(Strikethrough)
    else if name in {"obfuscated", "obf"} then Some(Obfuscated)
    else None
  }

  /** The tags whose arguments, and not their name alone, make them style tags. */
  predicate IsExtraTag(env: Env, name: string, args: seq<string>) {
    || (name == "font" && args != [] && env.key(args[0]).Some?)
    || (name in {"insert", "insertion"} && args != [])
    || (name in {"click", "hover"} && |args| >= 2)
  }

  /** Which tags are style tags does not depend on the style they meet. */
  predicate IsStyleTag(env: Env, t: Tag) {
    var name := TagBase(t.name);
    if HasPrefix(name, '!') then DecorationOf(name[1..]).Some?
    else ParseColorTag(env, name, t.args).Some? || DecorationOf(name).Some? || IsExtraTag(env, name, t.args)
  }

  /** strings.Join with colons. */
  function Join(args: seq<string>): string {
    if args == [] then ""
    else if |args| == 1 then args[0]
    else args[0] + ":" + Join(args[1..])
  }

  predicate IsTranslation(t: Tag) {
    TagBase(t.name) in {"lang", "tr", "translate", "lang_or", "tr_or", "translate_or"}
  }

  predicate HasFallback(t: Tag) {
    TagBase(t.name) in {"lang_or", "tr_or", "translate_or"}
  }

  /** The source slices t.args[2:] of a translation with a fallback, which panics on exactly one argument. */
  predicate Unsliceable(t: Tag) {
    HasFallback(t) && |t.args| == 1
  }

  predicate OwnTx(t: Tag) {
    TagBase(t.name) in {"gradient", "rainbow", "pride"}
  }

  /** The tags that are shown as they were written. */
  predicate IsLiteral(env: Env, t: Tag) {
    var name := TagBase(t.name);
    name in {"key", "keybind", "selector", "score", "nbt", "sprite", "head"}
    || !(name in {"br", "newline", "transition"} || OwnTx(t) || IsTranslation(t) || IsStyleTag(env, t))
  }

  function Written(t: Tag): string {
    "<" + t.literal + ">"
  }

  /** The tags whose children are rendered. */
  predicate HasChildren(env: Env, t: Tag) {
    !IsLiteral(env, t) && !IsTranslation(t) && TagBase(t.name) !in {"br", "newline"}
  }

  // ----- hover events

  /** Whether applyStyleTag gets as far as its hover case with a tag. */
  predicate IsHover(env: Env, t: Tag) {
    TagBase(t.name) == "hover" && ParseColorTag(env, "hover", t.args) == None && |t.args| >= 2
  }

  function ItemOf(env: Env, value: string): Option<Hover> {
    var parts := Split(value, 0, None, "");
    if parts == None || env.key(parts.value[0]) == None then None
    else
      var count := if |parts.value| > 1 then env.number(parts.value[1]) else None;
      Some(ShowItem(env.key(parts.value[0]).value, if count.Some? then count.value else 1))
  }

  /** The type, the id and the name, still to be parsed, of an entity. */
  function EntityOf(env: Env, value: string): Option<(string, string, Option<string>)> {
    match Split(value, 0, None, "")
    case None => None
    case Some(parts) =>
      if |parts| < 2 || env.key(parts[0]) == None || env.uuid(parts[1]) == None then None
      else Some((env.key(parts[0]).value, env.uuid(parts[1]).value, if |parts| > 2 then Some(parts[2]) else None))
  }

  /** The MiniMessage texts a tag has in its arguments: a hover text, the name of a hover entity, or
      what goes into a translation. */
  function NestedTexts(env: Env, t: Tag): seq<string> {
    if IsTranslation(t) then
      var start := if HasFallback(t) then 2 else 1;
      if |t.args| < start then [] else t.args[start..]
    else if IsHover(env, t) then
      var action, value := ToLower(t.args[0]), Join(t.args[1..]);
      if action == "show_text" then [value]
      else if action == "show_entity" && EntityOf(env, value).Some? && EntityOf(env, value).value.2.Some? then
        [EntityOf(env, value).value.2.value]
      else []
    else []
  }

  /** The hover event of a hover tag, given its nested text rendered. */
  function HoverOf(env: Env, t: Tag, nested: seq<Component>): Option<Hover>
    requires |t.args| >= 2
  {
    var action, value := ToLower(t.args[0]), Join(t.args[1..]);
    if action == "show_text" then if nested == [] then None else Some(ShowText(nested[0]))
    else if action == "show_item" then ItemOf(env, value)
    else if action == "show_entity" then
      match EntityOf(env, value)
      case None => None
      case Some((typ, id, _)) => Some(ShowEntity(typ, id, if nested == [] then None else Some(nested[0])))
    else None
  }

  /** applyStyleTag: the style inside the tag, or None if it is no style tag. */
  function ApplyStyleTag(env: Env, t: Tag, style: Style, nested: seq<Component>): (r: Option<Style>)
    ensures r.Some? <==> IsStyleTag(env, t)
  {
    var name := TagBase(t.name);
    if HasPrefix(name, '!') then
      match DecorationOf(name[1..])
      case Some(d) => Some(style.(decorations := style.decorations[d := false]))
      case None => None
    else if ParseColorTag(env, name, t.args).Some? then
      Some(style.(color := ParseColorTag(env, name, t.args)))
    else if DecorationOf(name).Some? then
      var state := !(t.args != [] && ToLower(t.args[0]) == "false");
      Some(style.(decorations := style.decorations[DecorationOf(name).value := state]))
    else if !IsExtraTag(env, name, t.args) then None
    else if name == "font" then Some(style.(font := env.key(t.args[0])))
    else if name in {"insert", "insertion"} then Some(style.(insertion := Some(t.args[0])))
    else if name == "click" then
      var click := env.click(t.args[0], Join(t.args[1..]));
      Some(if click.Some? then style.(click := click) else style)
    else
      var hover := HoverOf(env, t, nested);
      Some(if hover.Some? then style.(hover := hover) else style)
  }

  // ----- sizes, which fall from a tree to the texts in its arguments

  function ArgSize(args: seq<string>): nat {
    if args == [] then 0 else |args[0]| + 1 + ArgSize(args[1..])
  }

  function Size(nodes: seq<Node>): nat
    decreases nodes, 0
  {
    if nodes == [] then 0 else NodeSize(nodes[0]) + Size(nodes[1..])
  }

  function NodeSize(node: Node): (n: nat)
    ensures n > 0
    decreases node, 1
  {
    match node
    case Text(_) => 1
    case Element(t, children) => 1 + ArgSize(t.args) + Size(children)
  }

  lemma {:induction false} SizeConcat(a: seq<Node>, b: seq<Node>)
    ensures Size(a + b) == Size(a) + Size(b)
  {
    if a == [] {
      assert [] + b == b;
    } else {
      assert (a + b)[1..] == a[1..] + b;
      SizeConcat(a[1..], b);
    }
  }

  lemma {:induction false} ArgSizeFrom(args: seq<string>, n: nat)
    requires n <= |args|
    ensures ArgSize(args[n..]) <= ArgSize(args)
  {
    if n > 0 {
      assert args[n..] == args[1..][n - 1..];
      ArgSizeFrom(args[1..], n - 1);
    } else {
      assert args[0..] == args;
    }
  }

  lemma {:induction false} JoinSize(args: seq<string>)
    ensures args != [] ==> |Join(args)| + 1 == ArgSize(args)
  {
    if |args| > 1 {
      JoinSize(args[1..]);
    }
  }

  /** Split parts are together no longer than what is split. */
  lemma {:induction false} SplitSize(s: string, i: nat, quote: Option<char>, current: string)
    requires i <= |s|
    ensures var parts := Split(s, i, quote, current);
      parts.Some? ==> ArgSize(parts.value) <= |current| + |s| - i + 1
    decreases |s| - i
  {
    if i < |s| {
      if quote.Some? && s[i] == '\\' && i + 1 < |s| {
        SplitSize(s, i + 2, quote, current + [s[i + 1]]);
      } else if quote.Some? {
        SplitSize(s, i + 1, quote, current);
        SplitSize(s, i + 1, None, current);
        SplitSize(s, i + 1, quote, current + [s[i]]);
      } else {
        SplitSize(s, i + 1, Some(s[i]), current);
        SplitSize(s, i + 1, None, current + [s[i]]);
        SplitSize(s, i + 1, None, "");
        var rest := Split(s, i + 1, None, "");
        if rest.Some? {
          assert ([current] + rest.value)[1..] == rest.value;
        }
      }
    }
  }

  lemma {:induction false} PartSize(parts: seq<string>, k: nat)
    requires k < |parts|
    ensures |parts[k]| + 1 <= ArgSize(parts)
  {
    if k > 0 {
      PartSize(parts[1..], k - 1);
    }
  }

  lemma NestedSmaller(env: Env, t: Tag)
    ensures ArgSize(NestedTexts(env, t)) <= ArgSize(t.args)
  {
    if IsTranslation(t) {
      ArgSizeFrom(t.args, if HasFallback(t) then if |t.args| < 2 then |t.args| else 2 else if t.args == [] then 0 else 1);
    } else if IsHover(env, t) {
      var value := Join(t.args[1..]);
      JoinSize(t.args[1..]);
      ArgSizeFrom(t.args, 1);
      SplitSize(value, 0, None, "");
      if EntityOf(env, value).Some? && EntityOf(env, value).value.2.Some? {
        PartSize(Split(value, 0, None, "").value, 2);
        assert ArgSize([EntityOf(env, value).value.2.value]) == |EntityOf(env, value).value.2.value| + 1;
      }
      assert ArgSize([value]) == |value| + 1;
    }
  }

  lemma {:induction false} TrimSize(s: string)
    ensures |TrimSpace(s)| <= |s|
  {
    TrimLeftSize(s);
    TrimRightSize(TrimLeft(s));
  }

  lemma {:induction false} TrimLeftSize(s: string)
    ensures |TrimLeft(s)| <= |s|
  {
    if s != "" && IsSpace(s[0]) {
      TrimLeftSize(s[1..]);
    }
  }

  lemma {:induction false} TrimRightSize(s: string)
    ensures |TrimRight(s)| <= |s|
  {
    if s != "" && IsSpace(s[|s| - 1]) {
      TrimRightSize(s[..|s| - 1]);
    }
  }

  lemma TagSize(raw: string)
    ensures ParseTag(raw).Some? ==> ArgSize(ParseTag(raw).value.0.args) <= |raw|
  {
    var trimmed := TrimSpace(raw);
    TrimSize(raw);
    var cut := if HasSuffix(trimmed, '/') then trimmed[..|trimmed| - 1] else trimmed;
    TrimSize(cut);
    var bare := if HasSuffix(trimmed, '/') then TrimSpace(cut) else trimmed;
    if HasPrefix(bare, '/') {
      TrimSize(bare[1..]);
    }
    var inner := Inner(raw).0;
    assert |inner| <= |raw|;
    hide TrimSpace;
    SplitSize(inner, 0, None, "");
  }

  /** A parsed tree is no larger than the text it was parsed from. */
  lemma {:induction false} ParseSize(s: string, pos: nat, closing: string, text: string)
    requires pos <= |s|
    ensures Size(Parse(s, pos, closing, text).0) <= |text| + Parse(s, pos, closing, text).1 - pos
    decreases |s| - pos
  {
    hide Parse, Next, TagBase;
    assert Size(Flush(text)) <= |text| by {
      assert text != "" ==> Flush(text)[1..] == [];
    }
    if pos == |s| {
      ParseEnd(s, closing, text);
    } else {
      ParseStep(s, pos, closing, text);
      StepSize(s, pos, closing);
      match Next(s, pos, closing)
      case Literal(more, next) => ParseSize(s, next, closing, text + more);
      case Closes(_) =>
      case Opens(tag, selfCloses, next) =>
        var inside := if selfCloses then ([], next) else Parse(s, next, TagBase(tag.name), "");
        if !selfCloses {
          ParseSize(s, next, TagBase(tag.name), "");
        }
        ParseSize(s, inside.1, closing, "");
        AfterNodeSize(text, Element(tag, inside.0), Parse(s, inside.1, closing, ""));
    }
  }

  lemma StepSize(s: string, pos: nat, closing: string)
    requires pos < |s|
    ensures var step := Next(s, pos, closing);
      && (step.Literal? ==> |step.text| <= step.next - pos)
      && (step.Opens? ==> 1 + ArgSize(step.tag.args) <= step.next - pos)
  {
    hide ParseTag, TagEnd;
    if TagEnd(s, pos + 1, None).Some? {
      TagSize(s[pos + 1..TagEnd(s, pos + 1, None).value]);
    }
  }

  lemma AfterNodeSize(text: string, node: Node, r: (seq<Node>, nat))
    ensures Size(AfterNode(text, node, r).0) == Size(Flush(text)) + NodeSize(node) + Size(r.0)
  {
    SizeConcat(Flush(text) + [node], r.0);
    SizeConcat(Flush(text), [node]);
    assert [node][1..] == [];
  }

  // ----- transforms

  datatype Paint = Gradient(colors: seq<Color>) | Rainbow(reverse: bool)

  /** The colour function a gradient or rainbow tag closes over. */
  function PaintColor(env: Env, paint: Paint, index: int, total: int): Color
    requires 0 <= index
  {
    match paint
    case Gradient(colors) => GradientColor(colors, index, total)
    case Rainbow(reverse) => env.hue(if reverse then total - index - 1 else index, total)
  }

  /** The innermost gradient or rainbow, the next index, and the indices it has given colours for. */
  datatype Tx = Tx(total: nat, paint: Paint, index: nat, calls: seq<nat>)

  class Transform {
    const total: nat
    const paint: Paint
    var index: nat
    ghost var calls: seq<nat>

    constructor (total: nat, paint: Paint)
      ensures this.total == total && this.paint == paint && index == 0 && calls == []
    {
      this.total, this.paint, index, calls := total, paint, 0, [];
    }

    method Color(env: Env, i: nat) returns (c: Color)
      modifies this`calls
      ensures c == PaintColor(env, paint, i, total) && calls == old(calls) + [i]
    {
      calls := calls + [i];
      return PaintColor(env, paint, i, total);
    }
  }

  ghost function TxOf(tx: Transform?): Option<Tx>
    reads if tx == null then {} else {tx}
  {
    if tx == null then None else Some(Tx(tx.total, tx.paint, tx.index, tx.calls))
  }

  /** A transform colours runes only if it counted more than one. */
  predicate Paints(tx: Option<Tx>) {
    tx.Some? && tx.value.total > 1
  }

  /** visibleRunes: the runes of the texts inside, an empty list counting one. */
  function VisibleRunes(nodes: seq<Node>): nat
    decreases nodes, 1
  {
    if RuneSum(nodes) == 0 then 1 else RuneSum(nodes)
  }

  function RuneSum(nodes: seq<Node>): nat
    decreases nodes, 0
  {
    if nodes == [] then 0
    else NodeRunes(nodes[0]) + RuneSum(nodes[1..])
  }

  function NodeRunes(node: Node): nat
    decreases node, 0
  {
    match node
    case Text(t) => |t|
    case Element(_, children) => VisibleRunes(children)
  }

  method CountVisibleRunes(nodes: seq<Node>) returns (total: nat)
    ensures total == VisibleRunes(nodes)
  {
    total := 0;
    for i := 0 to |nodes|
      invariant total + RuneSum(nodes[i..]) == RuneSum(nodes)
    {
      match nodes[i]
      case Text(t) =>
        total := total + |t|;
      case Element(_, children) =>
        var n := CountVisibleRunes(children);
        total := total + n;
    }
    if total == 0 {
      return 1;
    }
  }

  function GradientOf(env: Env, t: Tag): Paint {
    var colors := ParseColors(env, t.args);
    Gradient(if |colors| < 2 then [WHITE, AQUA] else colors)
  }

  predicate Reversed(args: seq<string>) {
    exists i :: 0 <= i < |args| && '!' in args[i]
  }

  // ----- rendering

  /** What rendering leaves: the components, the style for what follows, and the transform; or nothing. */
  datatype Outcome = Panic | Rendered(parts: seq<Component>, style: Style, tx: Option<Tx>)

  function RenderText(env: Env, value: string, style: Style, tx: Option<Tx>): (r: Outcome)
    ensures r.Rendered? && r.style == style
  {
    if value == "" then Rendered([], style, tx)
    else if !Paints(tx) then Rendered([TextPart(value, style)], style, tx)
    else
      var (parts, next) := PaintRunes(env, value, style, tx.value);
      Rendered(parts, style, Some(next))
  }

  function PaintRune(env: Env, c: char, style: Style, tx: Tx): Component {
    TextPart([c], style.(color := Some(PaintColor(env, tx.paint, tx.index, tx.total))))
  }

  function NextRune(tx: Tx): Tx {
    tx.(index := tx.index + 1, calls := tx.calls + [tx.index])
  }

  /** One component a rune, each with the next colour. */
  function PaintRunes(env: Env, value: string, style: Style, tx: Tx): (seq<Component>, Tx) {
    if value == "" then ([], tx)
    else
      var (parts, next) := PaintRunes(env, value[1..], style, NextRune(tx));
      ([PaintRune(env, value[0], style, tx)] + parts, next)
  }

  /** ParseOrText, whose parse never fails; None is a panic. */
  function RenderString(env: Env, text: string): Option<Component>
    decreases |text|, 2
  {
    ParseSize(text, 0, "", "");
    match RenderAll(env, Parse(text, 0, "", "").0, EmptyStyle(), None)
    case Panic => None
    case Rendered(parts, _, _) => Some(Compact(parts))
  }

  function RenderStrings(env: Env, texts: seq<string>): (r: Option<seq<Component>>)
    ensures r.Some? ==> |r.value| == |texts|
    decreases ArgSize(texts), 3
  {
    if texts == [] then Some([])
    else match RenderString(env, texts[0])
      case None => None
      case Some(c) =>
        match RenderStrings(env, texts[1..])
        case None => None
        case Some(rest) => Some([c] + rest)
  }

  /** Inside a tag: the style and the transform its children are rendered with. */
  function InnerStyle(env: Env, t: Tag, style: Style, nested: seq<Component>): Style {
    if OwnTx(t) then style
    else if TagBase(t.name) == "transition" then
      var colors := ParseColors(env, t.args);
      if colors == [] then style else style.(color := Some(env.transition(colors, t.args)))
    else match ApplyStyleTag(env, t, style, nested)
      case Some(next) => next
      case None => style
  }

  function InnerTx(env: Env, t: Tag, children: seq<Node>, tx: Option<Tx>): Option<Tx> {
    if !OwnTx(t) then tx
    else
      var paint := if TagBase(t.name) == "gradient" then GradientOf(env, t) else Rainbow(Reversed(t.args));
      Some(Tx(VisibleRunes(children), paint, 0, []))
  }

  function RenderTranslation(env: Env, t: Tag, style: Style): Option<Component>
    decreases ArgSize(t.args), 4
  {
    if t.args == [] then Some(TextPart(Written(t), style))
    else if Unsliceable(t) then None
    else
      NestedSmaller(env, t);
      match RenderStrings(env, NestedTexts(env, t))
      case None => None
      case Some(with) => Some(TranslationPart(t.args[0], with, style))
  }

  function RenderNode(env: Env, node: Node, style: Style, tx: Option<Tx>): Outcome
    decreases NodeSize(node), 0
  {
    match node
    case Text(t) => RenderText(env, t, style, tx)
    case Element(t, children) =>
      if t.name == "reset" then Rendered([], EmptyStyle(), tx)
      else if TagBase(t.name) in {"br", "newline"} then RenderText(env, "\n", style, tx)
      else if IsTranslation(t) then
        match RenderTranslation(env, t, style)
        case None => Panic
        case Some(part) => Rendered([part], style, tx)
      else if IsLiteral(env, t) then RenderText(env, Written(t), style, tx)
      else
        NestedSmaller(env, t);
        match RenderStrings(env, NestedTexts(env, t))
        case None => Panic
        case Some(nested) =>
          match RenderAll(env, children, InnerStyle(env, t, style, nested), InnerTx(env, t, children, tx))
          case Panic => Panic
          case Rendered(parts, _, after) => Rendered(parts, style, if OwnTx(t) then tx else after)
  }

  function RenderAll(env: Env, nodes: seq<Node>, style: Style, tx: Option<Tx>): Outcome
    decreases Size(nodes), 1
  {
    if nodes == [] then Rendered([], style, tx)
    else match RenderNode(env, nodes[0], style, tx)
      case Panic => Panic
      case Rendered(parts, next, after) => Joined(parts, RenderAll(env, nodes[1..], next, after))
  }

  /** Components already rendered, put before those of the rest. */
  function Joined(out: seq<Component>, r: Outcome): Outcome {
    if r.Panic? then Panic else r.(parts := out + r.parts)
  }

  lemma JoinedTwice(out: seq<Component>, more: seq<Component>, r: Outcome)
    ensures Joined(out, Joined(more, r)) == Joined(out + more, r)
    ensures Joined([], r) == r
  {
    if r.Rendered? {
      assert out + (more + r.parts) == out + more + r.parts;
      assert [] + r.parts == r.parts;
    }
  }

  // ----- the methods

  /** A method's results are an outcome; None is a panic. */
  ghost predicate Gives(r: Outcome, out: Option<seq<Component>>, style: Style, tx: Option<Tx>) {
    if r.Panic? then out == None else out == Some(r.parts) && style == r.style && tx == r.tx
  }

  method RenderTextParts(env: Env, value: string, style: Style, tx: Transform?) returns (out: seq<Component>)
    modifies if tx == null then {} else {tx}
    ensures Gives(RenderText(env, value, style, old(TxOf(tx))), Some(out), style, TxOf(tx))
  {
    hide PaintColor;
    if value == "" {
      return [];
    }
    if tx == null || tx.total <= 1 {
      return [TextPart(value, style)];
    }
    out := [];
    ghost var start := TxOf(tx).value;
    ghost var all := PaintRunes(env, value, style, start);
    assert value[0..] == value && [] + all.0 == all.0;
    for i := 0 to |value|
      invariant TxOf(tx).value.total == start.total && TxOf(tx).value.paint == start.paint
      invariant var rest := PaintRunes(env, value[i..], style, TxOf(tx).value);
        out + rest.0 == all.0 && rest.1 == all.1
    {
      ghost var rest := PaintRunes(env, value[i..], style, TxOf(tx).value);
      var next := style;
      var c := tx.Color(env, tx.index);
      next := next.(color := Some(c));
      tx.index := tx.index + 1;
      assert value[i..][1..] == value[i + 1..] && value[i..][0] == value[i];
      assert rest.0 == [TextPart([value[i]], next)] + PaintRunes(env, value[i + 1..], style, TxOf(tx).value).0;
      out := out + [TextPart([value[i]], next)];
    }
    assert value[|value|..] == "" && out + [] == out;
  }

  method ParseOrText(env: Env, input: string) returns (c: Option<Component>)
    ensures c == RenderString(env, input)
    decreases |input|, 2
  {
    ParseSize(input, 0, "", "");
    var nodes, _ := ParseNodes(input, 0, "");
    var parts, _ := RenderNodes(env, nodes, EmptyStyle(), null);
    if parts == None {
      return None;
    }
    return Some(Compact(parts.value));
  }

  method RenderTranslationTag(env: Env, t: Tag, style: Style) returns (c: Option<Component>)
    requires IsTranslation(t)
    ensures c == RenderTranslation(env, t, style)
    decreases ArgSize(t.args), 4
  {
    hide RenderString;
    if t.args == [] {
      return Some(TextPart(Written(t), style));
    }
    var withStart := if HasFallback(t) then 2 else 1;
    if withStart > |t.args| {
      return None;
    }
    NestedSmaller(env, t);
    var args := t.args[withStart..];
    var with: seq<Component> := [];
    assert args[0..] == args;
    BeforeNone(RenderStrings(env, args));
    for i := 0 to |args|
      invariant RenderStrings(env, args) == Before(with, RenderStrings(env, args[i..]))
    {
      PartSize(args, i);
      var arg := ParseOrText(env, args[i]);
      assert args[i..][0] == args[i] && args[i..][1..] == args[i + 1..];
      if arg == None {
        return None;
      }
      BeforeTwice(with, arg.value, RenderStrings(env, args[i + 1..]));
      with := with + [arg.value];
    }
    BeforeNone(RenderStrings(env, args[|args|..]));
    assert with + [] == with;
    return Some(TranslationPart(t.args[0], with, style));
  }

  function Before(out: seq<Component>, more: Option<seq<Component>>): Option<seq<Component>> {
    if more.Some? then Some(out + more.value) else None
  }

  lemma BeforeTwice(out: seq<Component>, c: Component, more: Option<seq<Component>>)
    ensures Before(out, Before([c], more)) == Before(out + [c], more)
  {
    if more.Some? {
      assert out + ([c] + more.value) == out + [c] + more.value;
    }
  }

  lemma BeforeNone(more: Option<seq<Component>>)
    ensures Before([], more) == more
  {
    if more.Some? {
      assert [] + more.value == more.value;
    }
  }

  /** The texts in a hover tag's arguments, parsed and rendered where applyStyleTag reaches them. */
  method RenderHover(env: Env, t: Tag) returns (nested: Option<seq<Component>>)
    requires !IsTranslation(t)
    ensures nested == RenderStrings(env, NestedTexts(env, t))
    decreases ArgSize(t.args), 4
  {
    hide RenderString;
    var name := TagBase(t.name);
    NestedSmaller(env, t);
    if name != "hover" || ParseColorTag(env, name, t.args).Some? || |t.args| < 2 {
      return Some([]);
    }
    var action, value := ToLower(t.args[0]), Join(t.args[1..]);
    var text: Option<string> := None;
    if action == "show_text" {
      text := Some(value);
    } else if action == "show_entity" {
      var entity := EntityOf(env, value);
      text := if entity.Some? then entity.value.2 else None;
    }
    if text == None {
      return Some([]);
    }
    OneString(env, text.value);
    var c := ParseOrText(env, text.value);
    return if c.Some? then Some([c.value]) else None;
  }

  lemma OneString(env: Env, text: string)
    ensures RenderStrings(env, [text])
      == if RenderString(env, text).Some? then Some([RenderString(env, text).value]) else None
  {
    hide RenderString;
    assert [text][1..] == [];
    if RenderString(env, text).Some? {
      var c := RenderString(env, text).value;
      assert [c] + [] == [c];
    }
  }

  method RenderNodes(env: Env, nodes: seq<Node>, style: Style, tx: Transform?)
      returns (out: Option<seq<Component>>, current: Style)
    modifies if tx == null then {} else {tx}
    ensures Gives(RenderAll(env, nodes, style, old(TxOf(tx))), out, current, TxOf(tx))
    decreases Size(nodes), 1
  {
    hide RenderNode, RenderText;
    var parts: seq<Component> := [];
    current := style;
    ghost var start := TxOf(tx);
    assert nodes[0..] == nodes;
    JoinedTwice([], [], RenderAll(env, nodes, style, start));
    for i := 0 to |nodes|
      invariant RenderAll(env, nodes, style, start) == Joined(parts, RenderAll(env, nodes[i..], current, TxOf(tx)))
    {
      assert nodes[i..][0] == nodes[i] && nodes[i..][1..] == nodes[i + 1..];
      SizeFrom(nodes, i);
      var rendered;
      rendered, current := RenderOne(env, nodes[i], current, tx);
      if rendered == None {
        return None, current;
      }
      JoinedTwice(parts, rendered.value, RenderAll(env, nodes[i + 1..], current, TxOf(tx)));
      parts := parts + rendered.value;
    }
    assert nodes[|nodes|..] == [] && parts + [] == parts;
    out := Some(parts);
  }

  lemma {:induction false} SizeFrom(nodes: seq<Node>, i: nat)
    requires i < |nodes|
    ensures NodeSize(nodes[i]) <= Size(nodes)
  {
    if i > 0 {
      SizeFrom(nodes[1..], i - 1);
    }
  }

  /** The body of renderNodes's loop, and renderTag. */
  method RenderOne(env: Env, node: Node, style: Style, tx: Transform?)
      returns (out: Option<seq<Component>>, next: Style)
    modifies if tx == null then {} else {tx}
    ensures Gives(RenderNode(env, node, style, old(TxOf(tx))), out, next, TxOf(tx))
    decreases NodeSize(node), 0
  {
    hide RenderText, RenderAll, RenderStrings, RenderTranslation, IsLiteral, ApplyStyleTag, VisibleRunes, GradientOf,
      NestedTexts;
    next := style;
    if node.Text? {
      var parts := RenderTextParts(env, node.text, style, tx);
      return Some(parts), style;
    }
    var t, children := node.tag, node.children;
    if t.name == "reset" {
      return Some([]), EmptyStyle();
    }
    var name := TagBase(t.name);
    if name in {"br", "newline"} {
      var parts := RenderTextParts(env, "\n", style, tx);
      return Some(parts), style;
    }
    if IsTranslation(t) {
      var part := RenderTranslationTag(env, t, style);
      return if part == None then None else Some([part.value]), style;
    }
    if IsLiteral(env, t) {
      var parts := RenderTextParts(env, Written(t), style, tx);
      return Some(parts), style;
    }
    var nested := RenderHover(env, t);
    if nested == None {
      return None, style;
    }
    var inner;
    if name == "gradient" || name == "rainbow" || name == "pride" {
      var total := CountVisibleRunes(children);
      var local := new Transform(total, if name == "gradient" then GradientOf(env, t) else Rainbow(Reversed(t.args)));
      out, inner := RenderNodes(env, children, style, local);
    } else {
      out, inner := RenderNodes(env, children, InnerStyle(env, t, style, nested.value), tx);
    }
  }
}
