/** What rendering MiniMessage shows, and when it panics instead. */
module MiniMessageText {
  import opened Wrappers
  import opened MiniMessage
  import opened MiniMessagePrint
  import opened MiniMessageColors
  import opened MiniMessageRender

  // ----- panics

  /** The tags that rendering comes to: in the tree where children are rendered, and in the texts
      of hovers and the arguments of translations, to any depth. */
  function Met(env: Env, nodes: seq<Node>): set<Tag>
    decreases Size(nodes), 1
  {
    if nodes == [] then {} else MetNode(env, nodes[0]) + Met(env, nodes[1..])
  }

  function MetNode(env: Env, node: Node): set<Tag>
    decreases NodeSize(node), 0
  {
    match node
    case Text(_) => {}
    case Element(t, children) =>
      NestedSmaller(env, t);
      if t.name == "reset" || TagBase(t.name) in {"br", "newline"} then {t}
      else if IsTranslation(t) then {t} + MetInTexts(env, NestedTexts(env, t))
      else if IsLiteral(env, t) then {t}
      else {t} + MetInTexts(env, NestedTexts(env, t)) + Met(env, children)
  }

  function MetInTexts(env: Env, texts: seq<string>): set<Tag>
    decreases ArgSize(texts), 3
  {
    if texts == [] then {} else MetInText(env, texts[0]) + MetInTexts(env, texts[1..])
  }

  function MetInText(env: Env, text: string): set<Tag>
    decreases |text|, 2
  {
    ParseSize(text, 0, "", "");
    Met(env, Parse(text, 0, "", "").0)
  }

  ghost predicate AnyUnsliceable(tags: set<Tag>) {
    exists t :: t in tags && Unsliceable(t)
  }

  lemma AnyOfEither(a: set<Tag>, b: set<Tag>)
    ensures AnyUnsliceable(a + b) <==> AnyUnsliceable(a) || AnyUnsliceable(b)
  {
    if t :| t in a && Unsliceable(t) {
      assert t in a + b;
    }
    if t :| t in b && Unsliceable(t) {
      assert t in a + b;
    }
  }

  lemma AnyOfOne(t: Tag)
    ensures AnyUnsliceable({t}) <==> Unsliceable(t)
    ensures !AnyUnsliceable({})
  {
    assert t in {t};
  }

  /** Rendering panics exactly if some tag it comes to, at any nesting, is a translation with a
      fallback and exactly one argument; style and transform make no difference. */
  lemma {:induction false} PanicsExactly(env: Env, nodes: seq<Node>, style: Style, tx: Option<Tx>)
    ensures RenderAll(env, nodes, style, tx).Panic? <==> AnyUnsliceable(Met(env, nodes))
    decreases Size(nodes), 1
  {
    hide AnyUnsliceable, RenderNode, MetNode;
    if nodes == [] {
      AnyOfOne(Tag("", [], ""));
    } else {
      AnyOfEither(MetNode(env, nodes[0]), Met(env, nodes[1..]));
      NodePanicsExactly(env, nodes[0], style, tx);
      match RenderNode(env, nodes[0], style, tx)
      case Panic =>
      case Rendered(_, next, after) => PanicsExactly(env, nodes[1..], next, after);
    }
  }

  lemma {:induction false} NodePanicsExactly(env: Env, node: Node, style: Style, tx: Option<Tx>)
    ensures RenderNode(env, node, style, tx).Panic? <==> AnyUnsliceable(MetNode(env, node))
    decreases NodeSize(node), 0
  {
    hide AnyUnsliceable, RenderText, RenderStrings, RenderAll, Met, MetInTexts, IsLiteral, IsStyleTag, InnerStyle, InnerTx;
    match node
    case Text(_) =>
      AnyOfOne(Tag("", [], ""));
    case Element(t, children) =>
      AnyOfOne(t);
      NestedSmaller(env, t);
      var nested, inside := MetInTexts(env, NestedTexts(env, t)), Met(env, children);
      AnyOfEither({t}, nested);
      AnyOfEither({t} + nested, inside);
      TextsPanicExactly(env, NestedTexts(env, t));
      NoTextsNoTags(env, t);
      var r := RenderStrings(env, NestedTexts(env, t));
      if r.Some? {
        PanicsExactly(env, children, InnerStyle(env, t, style, r.value), InnerTx(env, t, children, tx));
      }
  }

  lemma NoTextsNoTags(env: Env, t: Tag)
    ensures t.args == [] || Unsliceable(t) ==> !AnyUnsliceable(MetInTexts(env, NestedTexts(env, t)))
    ensures Unsliceable(t) ==> IsTranslation(t) && t.name != "reset" && TagBase(t.name) !in {"br", "newline"}
  {
    ResetBase();
    AnyOfOne(t);
    hide TagBase, MetInText, AnyUnsliceable, IsStyleTag, ParseColorTag, EntityOf;
    assert t.args == [] || Unsliceable(t) ==> NestedTexts(env, t) == [];
  }

  lemma ResetBase()
    ensures TagBase("reset") == "reset"
  {
    hide TagBase;
    TagBaseOfName("reset");
  }

  lemma {:induction false} TextsPanicExactly(env: Env, texts: seq<string>)
    ensures RenderStrings(env, texts).None? <==> AnyUnsliceable(MetInTexts(env, texts))
    decreases ArgSize(texts), 3
  {
    hide AnyUnsliceable, RenderString, MetInText;
    if texts == [] {
      AnyOfOne(Tag("", [], ""));
    } else {
      AnyOfEither(MetInText(env, texts[0]), MetInTexts(env, texts[1..]));
      TextPanicsExactly(env, texts[0]);
      TextsPanicExactly(env, texts[1..]);
    }
  }

  /** The same for a text that is parsed first: ParseOrText recovers from nothing. */
  lemma {:induction false} TextPanicsExactly(env: Env, text: string)
    ensures RenderString(env, text).None? <==> AnyUnsliceable(MetInText(env, text))
    decreases |text|, 2
  {
    hide AnyUnsliceable, RenderAll, Met;
    ParseSize(text, 0, "", "");
    PanicsExactly(env, Parse(text, 0, "", "").0, EmptyStyle(), None);
  }

  /** One argument: a translation with a fallback breaks the rendering of its own text and of any
      hover text it stands in, whatever the recognised tag around it shows. */
  lemma FallbackOfOnePanics(env: Env, arg: string, shown: string)
    requires env.parseColor("hover") == None && shown != ""
    ensures RenderString(env, PrintAll([LangOr(arg)])) == None
    ensures RenderString(env, PrintAll([HoverOver(PrintAll([LangOr(arg)]), shown)])) == None
    ensures Recognised(env, [HoverOver(PrintAll([LangOr(arg)]), shown)])
  {
    var inner := PrintAll([LangOr(arg)]);
    LangOrIsNormal(arg);
    HoverIsNormal(inner, shown);
    PrintThenParse([LangOr(arg)]);
    PrintThenParse([HoverOver(inner, shown)]);
    LangOrMet(env, arg);
    HoverMeets(env, inner, shown);
    TextPanicsExactly(env, inner);
    TextPanicsExactly(env, PrintAll([HoverOver(inner, shown)]));
  }

  /** <lang_or:"..."> */
  function LangOr(arg: string): Node {
    Element(Tag("lang_or", [arg], PrintTag("lang_or", [arg])), [])
  }

  /** <hover:"show_text":"...">...</hover> */
  function HoverOver(text: string, shown: string): Node {
    Element(Tag("hover", ["show_text", text], PrintTag("hover", ["show_text", text])), [Text(shown)])
  }

  lemma LangOrName()
    ensures ValidName("lang_or") && TagBase("lang_or") == "lang_or" && IsSelfClosingTag("lang_or")
  {
    hide TagBase;
    TagBaseOfName("lang_or");
  }

  lemma HoverName()
    ensures ValidName("hover") && TagBase("hover") == "hover" && !IsSelfClosingTag("hover")
  {
    hide TagBase;
    TagBaseOfName("hover");
  }

  lemma LangOrIsNormal(arg: string)
    ensures Normal([LangOr(arg)])
  {
    hide PrintTag, IsSelfClosingTag, ValidName;
    LangOrName();
    assert [LangOr(arg)][1..] == [] && NormalNode(LangOr(arg));
  }

  lemma HoverIsNormal(text: string, shown: string)
    requires shown != ""
    ensures Normal([HoverOver(text, shown)])
  {
    hide PrintTag, IsSelfClosingTag, ValidName;
    HoverName();
    var inside: seq<Node> := [Text(shown)];
    assert NormalNode(inside[0]) && inside[1..] == [] && Normal(inside);
    assert NormalNode(HoverOver(text, shown)) && [HoverOver(text, shown)][1..] == [];
  }

  lemma LangOrMet(env: Env, arg: string)
    requires Parse(PrintAll([LangOr(arg)]), 0, "", "").0 == [LangOr(arg)]
    ensures AnyUnsliceable(MetInText(env, PrintAll([LangOr(arg)])))
  {
    hide PrintAll, PrintTag, Parse, TagBase, NestedTexts, MetInTexts, IsLiteral;
    LangOrName();
    var node := LangOr(arg);
    assert [node][1..] == [] && Met(env, [node]) == MetNode(env, node) + {};
    assert Unsliceable(node.tag) && node.tag in MetNode(env, node);
  }

  /** Of a hover tag, whatever its arguments, only the name counts. */
  lemma HoverKind(env: Env, t: Tag)
    requires env.parseColor("hover") == None && t.name == "hover" && |t.args| >= 2
    ensures t.name != "reset" && TagBase(t.name) == "hover" && TagBase(t.name) !in {"br", "newline"}
    ensures !IsTranslation(t) && IsHover(env, t) && IsStyleTag(env, t) && !IsLiteral(env, t) && HasChildren(env, t)
  {
    HoverName();
    assert !HasPrefix("hover", '!') && ParseColorTag(env, "hover", t.args) == None;
    assert IsExtraTag(env, "hover", t.args);
  }

  lemma HoverTag(env: Env, t: Tag, text: string)
    requires env.parseColor("hover") == None && t.name == "hover" && t.args == ["show_text", text]
    ensures NestedTexts(env, t) == [text]
  {
    HoverKind(env, t);
    hide IsTranslation, IsHover;
    assert ToLower("show_text") == "show_text";
    assert t.args[1..] == [text] && Join(t.args[1..]) == text;
  }

  lemma HoverMeets(env: Env, text: string, shown: string)
    requires env.parseColor("hover") == None && AnyUnsliceable(MetInText(env, text))
    ensures AnyUnsliceable(Met(env, [HoverOver(text, shown)]))
    ensures Recognised(env, [HoverOver(text, shown)])
  {
    hide PrintAll, PrintTag, Parse, MetInText, AnyUnsliceable, IsLiteral, IsTranslation, HasChildren, NestedTexts;
    var node := HoverOver(text, shown);
    HoverKind(env, node.tag);
    HoverTag(env, node.tag, text);
    var t, inside := node.tag, Met(env, node.children);
    assert [text][1..] == [] && [node][1..] == [] && [Text(shown)][1..] == [];
    assert MetInTexts(env, [text]) == MetInText(env, text) + {};
    assert Met(env, [node]) == MetNode(env, node) + {};
    assert MetNode(env, node) == {t} + MetInTexts(env, [text]) + inside;
    AnyOfOne(t);
    AnyOfEither(MetInText(env, text), {});
    AnyOfEither({t}, MetInTexts(env, [text]));
    AnyOfEither({t} + MetInTexts(env, [text]), inside);
    AnyOfEither(MetNode(env, node), {});
    assert Recognised(env, node.children);
  }

  // ----- text is preserved

  /** What is read of components; a translation is looked up by the client. */
  function TextOf(parts: seq<Component>): string
    decreases parts, 0
  {
    if parts == [] then "" else ContentOf(parts[0]) + TextOf(parts[1..])
  }

  function ContentOf(part: Component): string
    decreases part, 1
  {
    match part
    case TextPart(content, _) => content
    case TranslationPart(_, _, _) => ""
    case Group(parts) => TextOf(parts)
  }

  /** What a tree shows: its texts, a line break for br, the tags that are shown as written. */
  function VisibleText(env: Env, nodes: seq<Node>): string
    decreases nodes, 0
  {
    if nodes == [] then "" else VisibleNode(env, nodes[0]) + VisibleText(env, nodes[1..])
  }

  function VisibleNode(env: Env, node: Node): string
    decreases node, 1
  {
    match node
    case Text(t) => t
    case Element(t, children) =>
      if t.name == "reset" then ""
      else if TagBase(t.name) in {"br", "newline"} then "\n"
      else if IsTranslation(t) then if t.args == [] then Written(t) else ""
      else if IsLiteral(env, t) then Written(t)
      else VisibleText(env, children)
  }

  lemma {:induction false} TextOfConcat(a: seq<Component>, b: seq<Component>)
    ensures TextOf(a + b) == TextOf(a) + TextOf(b)
  {
    if a == [] {
      assert [] + b == b;
    } else {
      assert (a + b)[1..] == a[1..] + b;
      TextOfConcat(a[1..], b);
    }
  }

  lemma TextOfOne(part: Component)
    ensures TextOf([part]) == ContentOf(part)
  {
    assert [part][1..] == [] && ContentOf(part) + "" == ContentOf(part);
  }

  lemma {:induction false} PaintRunesText(env: Env, value: string, style: Style, tx: Tx)
    ensures TextOf(PaintRunes(env, value, style, tx).0) == value
    decreases |value|
  {
    if value != "" {
      PaintRunesText(env, value[1..], style, NextRune(tx));
      var parts := PaintRunes(env, value, style, tx).0;
      assert parts[1..] == PaintRunes(env, value[1..], style, NextRune(tx)).0;
    }
  }

  lemma RenderTextText(env: Env, value: string, style: Style, tx: Option<Tx>)
    ensures TextOf(RenderText(env, value, style, tx).parts) == value
  {
    if value != "" && Paints(tx) {
      PaintRunesText(env, value, style, tx.value);
    } else if value != "" {
      TextOfOne(TextPart(value, style));
    }
  }

  /** Rendering that does not panic shows exactly the visible text, in order, whatever the style and
      the transform. */
  lemma {:induction false} TextPreserved(env: Env, nodes: seq<Node>, style: Style, tx: Option<Tx>)
    ensures var r := RenderAll(env, nodes, style, tx); r.Rendered? ==> TextOf(r.parts) == VisibleText(env, nodes)
    decreases nodes, 0
  {
    if nodes != [] {
      NodeTextPreserved(env, nodes[0], style, tx);
      hide RenderNode, VisibleNode;
      match RenderNode(env, nodes[0], style, tx)
      case Panic =>
      case Rendered(parts, next, after) =>
        TextPreserved(env, nodes[1..], next, after);
        var rest := RenderAll(env, nodes[1..], next, after);
        if rest.Rendered? {
          TextOfConcat(parts, rest.parts);
        }
    }
  }

  lemma {:induction false} NodeTextPreserved(env: Env, node: Node, style: Style, tx: Option<Tx>)
    ensures var r := RenderNode(env, node, style, tx); r.Rendered? ==> TextOf(r.parts) == VisibleNode(env, node)
    decreases node, 1
  {
    hide RenderText, RenderStrings, IsLiteral, InnerStyle, InnerTx, NestedTexts;
    match node
    case Text(t) =>
      RenderTextText(env, t, style, tx);
    case Element(t, children) =>
      RenderTextText(env, "\n", style, tx);
      RenderTextText(env, Written(t), style, tx);
      var part := RenderTranslation(env, t, style);
      if part.Some? {
        TextOfOne(part.value);
      }
      var nested := RenderStrings(env, NestedTexts(env, t));
      if t.name != "reset" && HasChildren(env, t) && nested.Some? {
        TextPreserved(env, children, InnerStyle(env, t, style, nested.value), InnerTx(env, t, children, tx));
      }
  }

  /** The texts of the source in order, br as a line break. */
  function SourceText(nodes: seq<Node>): string
    decreases nodes, 0
  {
    if nodes == [] then "" else SourceNode(nodes[0]) + SourceText(nodes[1..])
  }

  function SourceNode(node: Node): string
    decreases node, 1
  {
    match node
    case Text(t) => t
    case Element(t, children) =>
      if t.name == "reset" then "" else if TagBase(t.name) in {"br", "newline"} then "\n" else SourceText(children)
  }

  /** Only reset, br and tags whose children are rendered, all the way down. */
  predicate Recognised(env: Env, nodes: seq<Node>)
    decreases nodes, 0
  {
    nodes == [] || (RecognisedNode(env, nodes[0]) && Recognised(env, nodes[1..]))
  }

  predicate RecognisedNode(env: Env, node: Node)
    decreases node, 1
  {
    match node
    case Text(_) => true
    case Element(t, children) =>
      t.name == "reset" || TagBase(t.name) in {"br", "newline"} || (HasChildren(env, t) && Recognised(env, children))
  }

  lemma {:induction false} VisibleIsSource(env: Env, nodes: seq<Node>)
    requires Recognised(env, nodes)
    ensures VisibleText(env, nodes) == SourceText(nodes)
    decreases nodes, 0
  {
    if nodes != [] {
      VisibleNodeIsSource(env, nodes[0]);
      VisibleIsSource(env, nodes[1..]);
    }
  }

  lemma {:induction false} VisibleNodeIsSource(env: Env, node: Node)
    requires RecognisedNode(env, node)
    ensures VisibleNode(env, node) == SourceNode(node)
    decreases node, 1
  {
    hide IsLiteral;
    match node
    case Text(_) =>
    case Element(t, children) =>
      if t.name != "reset" && TagBase(t.name) !in {"br", "newline"} {
        VisibleIsSource(env, children);
      }
  }

  /** A tree of recognised tags shows its source text, unless the text of one of its hovers breaks it. */
  lemma SourceTextPreserved(env: Env, nodes: seq<Node>, style: Style, tx: Option<Tx>)
    requires Recognised(env, nodes)
    ensures var r := RenderAll(env, nodes, style, tx);
      && (r.Rendered? <==> !AnyUnsliceable(Met(env, nodes)))
      && (r.Rendered? ==> TextOf(r.parts) == SourceText(nodes))
  {
    VisibleIsSource(env, nodes);
    TextPreserved(env, nodes, style, tx);
    PanicsExactly(env, nodes, style, tx);
  }
}
