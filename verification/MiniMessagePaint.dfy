/** Which colour index each rune is painted with inside a gradient or rainbow of MiniMessage. */
module MiniMessagePaint {
  import opened Wrappers
  import opened MiniMessage
  import opened MiniMessageColors
  import opened MiniMessageRender
  import opened MiniMessageText
  import MiniMessagePrint

  // ----- the indices

  function Indices(from: nat, n: nat): seq<nat> {
    seq(n, i requires 0 <= i < n => from + i)
  }

  lemma IndicesJoin(from: nat, a: nat, b: nat)
    ensures Indices(from, a) + Indices(from + a, b) == Indices(from, a + b)
  {}

  /** A transform after n more runes. */
  function Advance(tx: Option<Tx>, n: nat): Option<Tx> {
    if Paints(tx) then
      Some(tx.value.(index := tx.value.index + n, calls := tx.value.calls + Indices(tx.value.index, n)))
    else tx
  }

  lemma AdvanceTwice(tx: Option<Tx>, a: nat, b: nat)
    ensures Advance(Advance(tx, a), b) == Advance(tx, a + b)
    ensures Advance(tx, 0) == tx
  {
    if Paints(tx) {
      IndicesJoin(tx.value.index, a, b);
      var calls := tx.value.calls;
      assert calls + Indices(tx.value.index, a) + Indices(tx.value.index + a, b)
          == calls + (Indices(tx.value.index, a) + Indices(tx.value.index + a, b));
      assert calls + Indices(tx.value.index, 0) == calls;
    }
  }

  /** How many runes a tree takes from the transform around it. */
  function Consumed(env: Env, nodes: seq<Node>): nat
    decreases nodes, 0
  {
    if nodes == [] then 0 else ConsumedNode(env, nodes[0]) + Consumed(env, nodes[1..])
  }

  function ConsumedNode(env: Env, node: Node): nat
    decreases node, 1
  {
    match node
    case Text(t) => |t|
    case Element(t, children) =>
      if t.name == "reset" then 0
      else if TagBase(t.name) in {"br", "newline"} then 1
      else if IsTranslation(t) || OwnTx(t) then 0
      else if IsLiteral(env, t) then |Written(t)|
      else Consumed(env, children)
  }

  lemma {:induction false} PaintRunesAdvance(env: Env, value: string, style: Style, tx: Tx)
    requires tx.total > 1
    ensures Some(PaintRunes(env, value, style, tx).1) == Advance(Some(tx), |value|)
    decreases |value|
  {
    AdvanceTwice(Some(tx), 1, if value == "" then 0 else |value| - 1);
    if value != "" {
      assert Indices(tx.index, 1) == [tx.index];
      assert Advance(Some(tx), 1) == Some(NextRune(tx));
      PaintRunesAdvance(env, value[1..], style, NextRune(tx));
    }
  }

  lemma RenderTextAdvances(env: Env, value: string, style: Style, tx: Option<Tx>)
    ensures RenderText(env, value, style, tx).tx == Advance(tx, |value|)
  {
    AdvanceTwice(tx, 0, 0);
    if Paints(tx) {
      PaintRunesAdvance(env, value, style, tx.value);
    }
  }

  /** The index moves by exactly that, and the colours asked for are those of the indices it moves
      over, across all nesting. */
  lemma {:induction false} IndexAdvances(env: Env, nodes: seq<Node>, style: Style, tx: Option<Tx>)
    ensures var r := RenderAll(env, nodes, style, tx); r.Rendered? ==> r.tx == Advance(tx, Consumed(env, nodes))
    decreases nodes, 0
  {
    AdvanceTwice(tx, 0, 0);
    if nodes != [] {
      NodeIndexAdvances(env, nodes[0], style, tx);
      hide RenderNode, ConsumedNode, Advance;
      match RenderNode(env, nodes[0], style, tx)
      case Panic =>
      case Rendered(_, next, after) =>
        IndexAdvances(env, nodes[1..], next, after);
        AdvanceTwice(tx, ConsumedNode(env, nodes[0]), Consumed(env, nodes[1..]));
    }
  }

  lemma LiteralHasNoTx(env: Env, t: Tag)
    ensures IsLiteral(env, t) ==> !OwnTx(t)
  {
    hide IsStyleTag;
  }

  lemma {:induction false} NodeIndexAdvances(env: Env, node: Node, style: Style, tx: Option<Tx>)
    ensures var r := RenderNode(env, node, style, tx); r.Rendered? ==> r.tx == Advance(tx, ConsumedNode(env, node))
    decreases node, 1
  {
    hide RenderText, RenderStrings, RenderTranslation, InnerStyle, IsStyleTag, IsLiteral, NestedTexts, Advance;
    AdvanceTwice(tx, 0, 0);
    match node
    case Text(t) =>
      RenderTextAdvances(env, t, style, tx);
    case Element(t, children) =>
      RenderTextAdvances(env, "\n", style, tx);
      RenderTextAdvances(env, Written(t), style, tx);
      var nested := RenderStrings(env, NestedTexts(env, t));
      LiteralHasNoTx(env, t);
      if t.name != "reset" && HasChildren(env, t) && nested.Some? {
        IndexAdvances(env, children, InnerStyle(env, t, style, nested.value), InnerTx(env, t, children, tx));
      }
  }

  /** The indices whose colours are asked for in rendering the children of a gradient or rainbow. */
  function ColourCalls(env: Env, t: Tag, children: seq<Node>, style: Style): seq<nat>
    requires OwnTx(t)
  {
    match RenderAll(env, children, style, InnerTx(env, t, children, None))
    case Panic => []
    case Rendered(_, _, tx) => if tx.Some? then tx.value.calls else []
  }

  predicate Renders(env: Env, nodes: seq<Node>, style: Style, tx: Option<Tx>) {
    RenderAll(env, nodes, style, tx).Rendered?
  }

  /** They are 0, 1, 2, ... up to the runes consumed, or none at all if only one rune was counted. */
  lemma TransformIndices(env: Env, t: Tag, children: seq<Node>, style: Style)
    requires OwnTx(t) && Renders(env, children, style, InnerTx(env, t, children, None))
    ensures ColourCalls(env, t, children, style)
         == Indices(0, if VisibleRunes(children) > 1 then Consumed(env, children) else 0)
  {
    var local := InnerTx(env, t, children, None);
    IndexAdvances(env, children, style, local);
    var n := Consumed(env, children);
    assert [] + Indices(0, n) == Indices(0, n);
  }

  /** Every colour is asked for below the total exactly if no more runes are consumed than were
      counted, or only one was counted. */
  lemma IndexBelowTotal(env: Env, t: Tag, children: seq<Node>, style: Style)
    requires OwnTx(t) && Renders(env, children, style, InnerTx(env, t, children, None))
    ensures (forall i | i in ColourCalls(env, t, children, style) :: i < VisibleRunes(children))
        <==> VisibleRunes(children) == 1 || Consumed(env, children) <= VisibleRunes(children)
  {
    TransformIndices(env, t, children, style);
    var calls, n, total := ColourCalls(env, t, children, style), Consumed(env, children), VisibleRunes(children);
    if total > 1 && n > total {
      assert calls[total] == total && calls[total] in calls;
    }
  }

  lemma {:induction false} ConsumedBound(env: Env, nodes: seq<Node>)
    requires Recognised(env, nodes)
    ensures Consumed(env, nodes) <= RuneSum(nodes)
    decreases nodes, 0
  {
    if nodes != [] {
      NodeConsumedBound(env, nodes[0]);
      ConsumedBound(env, nodes[1..]);
    }
  }

  lemma {:induction false} NodeConsumedBound(env: Env, node: Node)
    requires RecognisedNode(env, node)
    ensures ConsumedNode(env, node) <= NodeRunes(node)
    decreases node, 1
  {
    hide IsStyleTag, IsLiteral;
    match node
    case Text(_) =>
    case Element(t, children) =>
      assert NodeRunes(node) == VisibleRunes(children) >= RuneSum(children) && VisibleRunes(children) >= 1;
      if t.name != "reset" && TagBase(t.name) !in {"br", "newline"} {
        ConsumedBound(env, children);
      }
  }

  /** So it is with recognised tags inside. */
  lemma RecognisedBelowTotal(env: Env, t: Tag, children: seq<Node>, style: Style)
    requires OwnTx(t) && Recognised(env, children)
    ensures forall i | i in ColourCalls(env, t, children, style) :: i < VisibleRunes(children)
  {
    if Renders(env, children, style, InnerTx(env, t, children, None)) {
      ConsumedBound(env, children);
      IndexBelowTotal(env, t, children, style);
    }
  }

  // ----- one run of colours

  /** Texts, line breaks, tags shown as written and tags that set a style, all the way down. */
  predicate OneRun(env: Env, nodes: seq<Node>)
    decreases nodes, 0
  {
    nodes == [] || (NodeInRun(env, nodes[0]) && OneRun(env, nodes[1..]))
  }

  predicate NodeInRun(env: Env, node: Node)
    decreases node, 1
  {
    match node
    case Text(_) => true
    case Element(t, children) =>
      t.name != "reset" && !IsTranslation(t) && !OwnTx(t) && (HasChildren(env, t) ==> OneRun(env, children))
  }

  /** One component a rune, in the colour of its place. */
  ghost predicate Painted(env: Env, parts: seq<Component>, text: string, tx: Tx) {
    && |parts| == |text|
    && forall k | 0 <= k < |text| ::
         && parts[k].TextPart? && parts[k].content == [text[k]]
         && parts[k].style.color == Some(PaintColor(env, tx.paint, tx.index + k, tx.total))
  }

  lemma {:induction false} PaintRunesPainted(env: Env, value: string, style: Style, tx: Tx)
    ensures Painted(env, PaintRunes(env, value, style, tx).0, value, tx)
    decreases |value|
  {
    hide PaintColor;
    if value != "" {
      PaintRunesPainted(env, value[1..], style, NextRune(tx));
      var parts := PaintRunes(env, value, style, tx).0;
      forall k | 1 <= k < |value|
        ensures parts[k].TextPart? && parts[k].content == [value[k]]
          && parts[k].style.color == Some(PaintColor(env, tx.paint, tx.index + k, tx.total))
      {
        assert parts[k] == parts[1..][k - 1] && value[k] == value[1..][k - 1];
      }
    }
  }

  lemma RenderTextPainted(env: Env, value: string, style: Style, tx: Tx)
    requires tx.total > 1
    ensures Painted(env, RenderText(env, value, style, Some(tx)).parts, value, tx)
  {
    hide PaintColor;
    PaintRunesPainted(env, value, style, tx);
  }

  lemma PaintedConcat(env: Env, a: seq<Component>, s: string, b: seq<Component>, t: string, tx: Tx, after: Tx)
    requires Painted(env, a, s, tx) && Painted(env, b, t, after)
    requires after.index == tx.index + |s| && after.paint == tx.paint && after.total == tx.total
    ensures Painted(env, a + b, s + t, tx)
  {
    hide PaintColor;
  }

  /** Under a transform such a tree is coloured rune by rune in one run, whatever its nesting. */
  lemma {:induction false} RunPainted(env: Env, nodes: seq<Node>, style: Style, tx: Tx)
    requires OneRun(env, nodes) && tx.total > 1 && Renders(env, nodes, style, Some(tx))
    ensures Painted(env, RenderAll(env, nodes, style, Some(tx)).parts, VisibleText(env, nodes), tx)
    ensures |VisibleText(env, nodes)| == Consumed(env, nodes)
    decreases nodes, 0
  {
    hide Painted, RenderNode, NodeInRun, VisibleNode, ConsumedNode;
    if nodes == [] {
      PaintRunesPainted(env, "", style, tx);
    } else {
      NodePainted(env, nodes[0], style, tx);
      NodeIndexAdvances(env, nodes[0], style, Some(tx));
      var first := RenderNode(env, nodes[0], style, Some(tx));
      var after := first.tx.value;
      RunPainted(env, nodes[1..], first.style, after);
      PaintedConcat(env, first.parts, VisibleNode(env, nodes[0]),
                    RenderAll(env, nodes[1..], first.style, first.tx).parts, VisibleText(env, nodes[1..]), tx, after);
    }
  }

  lemma {:induction false} NodePainted(env: Env, node: Node, style: Style, tx: Tx)
    requires NodeInRun(env, node) && tx.total > 1 && RenderNode(env, node, style, Some(tx)).Rendered?
    ensures Painted(env, RenderNode(env, node, style, Some(tx)).parts, VisibleNode(env, node), tx)
    ensures |VisibleNode(env, node)| == ConsumedNode(env, node)
    decreases node, 1
  {
    hide Painted, IsLiteral, InnerStyle, RenderText, RenderStrings, NestedTexts;
    match node
    case Text(t) =>
      RenderTextPainted(env, t, style, tx);
    case Element(t, children) =>
      RenderTextPainted(env, "\n", style, tx);
      RenderTextPainted(env, Written(t), style, tx);
      if HasChildren(env, t) {
        var nested := RenderStrings(env, NestedTexts(env, t));
        RunPainted(env, children, InnerStyle(env, t, style, nested.value), tx);
      }
  }

  /** A transform that counted one rune leaves everything as it is without it. */
  lemma {:induction false} QuietTransform(env: Env, nodes: seq<Node>, style: Style, tx: Option<Tx>)
    requires !Paints(tx)
    ensures RenderAll(env, nodes, style, tx) == WithTx(RenderAll(env, nodes, style, None), tx)
    decreases nodes, 0
  {
    if nodes != [] {
      QuietNode(env, nodes[0], style, tx);
      hide RenderNode;
      match RenderNode(env, nodes[0], style, None)
      case Panic =>
      case Rendered(_, next, after) =>
        IndexKept(env, nodes[0], style);
        QuietTransform(env, nodes[1..], next, tx);
    }
  }

  function WithTx(r: Outcome, tx: Option<Tx>): Outcome {
    if r.Panic? then r else r.(tx := tx)
  }

  lemma IndexKept(env: Env, node: Node, style: Style)
    ensures var r := RenderNode(env, node, style, None); r.Rendered? ==> r.tx == None
  {
    NodeIndexAdvances(env, node, style, None);
  }

  lemma {:induction false} QuietNode(env: Env, node: Node, style: Style, tx: Option<Tx>)
    requires !Paints(tx)
    ensures RenderNode(env, node, style, tx) == WithTx(RenderNode(env, node, style, None), tx)
    decreases node, 1
  {
    hide RenderStrings, RenderTranslation, InnerStyle, IsStyleTag, IsLiteral, NestedTexts;
    match node
    case Text(_) =>
    case Element(t, children) =>
      var nested := RenderStrings(env, NestedTexts(env, t));
      if t.name != "reset" && HasChildren(env, t) && nested.Some? && !OwnTx(t) {
        QuietTransform(env, children, InnerStyle(env, t, style, nested.value), tx);
      }
  }

  // ----- gradients

  /** In a gradient every rune of one run has the colour of its place among as many as were counted;
      runes beyond them keep the last stop. */
  lemma GradientPaints(env: Env, t: Tag, children: seq<Node>, style: Style, tx: Option<Tx>)
    requires t.name != "reset" && TagBase(t.name) == "gradient" && OneRun(env, children) && VisibleRunes(children) > 1
    requires RenderNode(env, Element(t, children), style, tx).Rendered?
    ensures var parts := RenderNode(env, Element(t, children), style, tx).parts;
      var stops, total := GradientOf(env, t).colors, VisibleRunes(children);
      && |parts| == |VisibleText(env, children)| == Consumed(env, children) && |stops| >= 2
      && ColourCalls(env, t, children, style) == Indices(0, |parts|)
      && forall k | 0 <= k < |parts| ::
           && parts[k].TextPart? && parts[k].content == [VisibleText(env, children)[k]]
           && parts[k].style.color == Some(GradientColor(stops, k, total))
           && (k >= total - 1 ==> parts[k].style.color == Some(stops[|stops| - 1]))
  {
    hide GradientColor, OneRun, VisibleRunes, VisibleText, RenderNode, RenderAll, Consumed;
    GradientNode(env, t, children, style, tx);
    var local := InnerTx(env, t, children, None).value;
    RunPainted(env, children, style, local);
    TransformIndices(env, t, children, style);
    var stops := GradientOf(env, t).colors;
    forall k | k >= local.total - 1
      ensures GradientColor(stops, k, local.total) == stops[|stops| - 1]
    {
      LastStop(stops, k, local.total);
    }
  }

  lemma GradientNode(env: Env, t: Tag, children: seq<Node>, style: Style, tx: Option<Tx>)
    requires t.name != "reset" && TagBase(t.name) == "gradient"
    ensures OwnTx(t) && InnerTx(env, t, children, None) == Some(Tx(VisibleRunes(children), GradientOf(env, t), 0, []))
    ensures |GradientOf(env, t).colors| >= 2
    ensures var r, inside := RenderNode(env, Element(t, children), style, tx),
                             RenderAll(env, children, style, InnerTx(env, t, children, None));
      && (r.Rendered? <==> inside.Rendered?) && (r.Rendered? ==> r.parts == inside.parts)
  {
    hide RenderAll, VisibleRunes, IsStyleTag, ApplyStyleTag;
    assert NestedTexts(env, t) == [];
  }

  /** Text and style tags with text in them. */
  predicate Plain(env: Env, nodes: seq<Node>)
    decreases nodes, 0
  {
    nodes == [] || (PlainNode(env, nodes[0]) && Plain(env, nodes[1..]))
  }

  predicate PlainNode(env: Env, node: Node)
    decreases node, 1
  {
    match node
    case Text(_) => true
    case Element(t, children) =>
      t.name != "reset" && HasChildren(env, t) && !OwnTx(t) && RuneSum(children) > 0 && Plain(env, children)
  }

  lemma {:induction false} PlainConsumes(env: Env, nodes: seq<Node>)
    requires Plain(env, nodes)
    ensures Consumed(env, nodes) == RuneSum(nodes) && OneRun(env, nodes)
    decreases nodes, 0
  {
    if nodes != [] {
      PlainNodeConsumes(env, nodes[0]);
      PlainConsumes(env, nodes[1..]);
    }
  }

  lemma {:induction false} PlainNodeConsumes(env: Env, node: Node)
    requires PlainNode(env, node)
    ensures ConsumedNode(env, node) == NodeRunes(node) && NodeInRun(env, node)
    decreases node, 1
  {
    hide IsLiteral;
    match node
    case Text(_) =>
    case Element(t, children) =>
      PlainConsumes(env, children);
      assert NodeRunes(node) == VisibleRunes(children) == RuneSum(children);
  }

  /** The first rune and the last are coloured by the gradient, and with its first and last stop. */
  predicate EndsPainted(parts: seq<Component>, calls: seq<nat>, stops: seq<Color>)
    requires |stops| >= 2
  {
    && parts != [] && 0 in calls && |parts| - 1 in calls
    && parts[0].TextPart? && parts[0].style.color == Some(stops[0])
    && parts[|parts| - 1].TextPart? && parts[|parts| - 1].style.color == Some(stops[|stops| - 1])
  }

  /** A gradient over plain text paints its two ends exactly if the text has more than one rune;
      around a single rune it changes nothing. */
  lemma GradientReachesItsEnds(env: Env, t: Tag, children: seq<Node>, style: Style, tx: Option<Tx>)
    requires t.name != "reset" && TagBase(t.name) == "gradient" && Plain(env, children) && RuneSum(children) > 0
    requires RenderNode(env, Element(t, children), style, tx).Rendered?
    ensures OwnTx(t) && |GradientOf(env, t).colors| >= 2
    ensures var parts := RenderNode(env, Element(t, children), style, tx).parts;
      var calls, stops := ColourCalls(env, t, children, style), GradientOf(env, t).colors;
      && (EndsPainted(parts, calls, stops) <==> RuneSum(children) > 1)
      && (RuneSum(children) == 1 ==>
            calls == [] && Renders(env, children, style, None) && parts == RenderAll(env, children, style, None).parts)
  {
    GradientNode(env, t, children, style, tx);
    PlainConsumes(env, children);
    TransformIndices(env, t, children, style);
    hide RenderNode, RenderAll, Plain, OneRun, Consumed, VisibleText, GradientOf, TagBase, ColourCalls, Paints, InnerTx;
    if RuneSum(children) > 1 {
      EndsArePainted(env, t, children, style, tx);
    } else {
      assert ColourCalls(env, t, children, style) == [];
      QuietTransform(env, children, style, Some(Tx(1, GradientOf(env, t), 0, [])));
    }
  }

  lemma EndsArePainted(env: Env, t: Tag, children: seq<Node>, style: Style, tx: Option<Tx>)
    requires t.name != "reset" && TagBase(t.name) == "gradient" && OneRun(env, children)
    requires Consumed(env, children) == VisibleRunes(children) > 1
    requires RenderNode(env, Element(t, children), style, tx).Rendered?
    ensures OwnTx(t) && |GradientOf(env, t).colors| >= 2
    ensures EndsPainted(RenderNode(env, Element(t, children), style, tx).parts,
                        ColourCalls(env, t, children, style), GradientOf(env, t).colors)
  {
    hide GradientColor, RenderAll, OneRun, Consumed, VisibleText, VisibleRunes, RenderNode;
    GradientNode(env, t, children, style, tx);
    GradientPaints(env, t, children, style, tx);
    GradientEnds(GradientOf(env, t).colors, VisibleRunes(children));
    hide GradientOf, TagBase, ColourCalls;
    var calls, n := ColourCalls(env, t, children, style), VisibleRunes(children);
    assert calls[0] == 0 && calls[n - 1] == n - 1;
  }

  /** A tag that is shown as written is counted as one rune but painted rune by rune: of <gradient>
      around "ab" and an unknown tag foo, seven colours are asked for out of a total of three. */
  lemma LiteralOverruns(env: Env, g: Tag, style: Style, tx: Option<Tx>)
    requires g.name == "gradient" && env.parseColor("foo") == None
    ensures OwnTx(g)
    ensures var children := [Text("ab"), Element(Tag("foo", [], "foo"), [])];
      var r, stops := RenderNode(env, Element(g, children), style, tx), GradientOf(env, g).colors;
      && VisibleRunes(children) == 3
      && ColourCalls(env, g, children, style) == [0, 1, 2, 3, 4, 5, 6]
      && r.Rendered? && TextOf(r.parts) == "ab<foo>" && |r.parts| == 7
      && forall k | 2 <= k < 7 :: r.parts[k].TextPart? && r.parts[k].style.color == Some(stops[|stops| - 1])
  {
    hide TagBase, OneRun, Consumed, VisibleRunes, VisibleText, Met, IsLiteral, TextOf, GradientOf;
    var foo := Tag("foo", [], "foo");
    var children: seq<Node> := [Text("ab"), Element(foo, [])];
    FooIsLiteral(env, foo);
    FooTree(env, foo, children);
    GradientName();
    RenderedWithin(env, g, children, style, tx);
    GradientPaints(env, g, children, style, tx);
    assert Indices(0, 7) == [0, 1, 2, 3, 4, 5, 6];
  }

  lemma GradientName()
    ensures TagBase("gradient") == "gradient"
  {
    hide TagBase;
    MiniMessagePrint.TagBaseOfName("gradient");
  }

  lemma RenderedWithin(env: Env, t: Tag, children: seq<Node>, style: Style, tx: Option<Tx>)
    requires t.name != "reset" && TagBase(t.name) == "gradient" && !AnyUnsliceable(Met(env, children))
    ensures var r := RenderNode(env, Element(t, children), style, tx);
      r.Rendered? && TextOf(r.parts) == VisibleText(env, children)
  {
    hide RenderNode, GradientOf, VisibleRunes;
    GradientNode(env, t, children, style, tx);
    PanicsExactly(env, children, style, InnerTx(env, t, children, None));
    TextPreserved(env, children, style, InnerTx(env, t, children, None));
  }

  lemma FooIsLiteral(env: Env, foo: Tag)
    requires foo == Tag("foo", [], "foo") && env.parseColor("foo") == None
    ensures IsLiteral(env, foo) && !HasChildren(env, foo) && !IsTranslation(foo) && !OwnTx(foo)
    ensures foo.name != "reset" && TagBase(foo.name) !in {"br", "newline"} && !Unsliceable(foo)
    ensures Written(foo) == "<foo>"
  {
    MiniMessagePrint.TagBaseOfName("foo");
    assert !HasPrefix("foo", '!');
  }

  lemma FooTree(env: Env, foo: Tag, children: seq<Node>)
    requires foo == Tag("foo", [], "foo") && children == [Text("ab"), Element(foo, [])]
    requires IsLiteral(env, foo) && !HasChildren(env, foo) && !IsTranslation(foo) && !OwnTx(foo)
    requires foo.name != "reset" && TagBase(foo.name) !in {"br", "newline"} && !Unsliceable(foo)
    requires Written(foo) == "<foo>"
    ensures OneRun(env, children) && VisibleRunes(children) == 3 && Consumed(env, children) == 7
    ensures VisibleText(env, children) == "ab<foo>" && !AnyUnsliceable(Met(env, children))
  {
    hide IsLiteral, HasChildren, IsTranslation, OwnTx, TagBase, Unsliceable, Written;
    var last: seq<Node> := [Element(foo, [])];
    assert children[1..] == last && last[1..] == [];
    assert VisibleNode(env, last[0]) == "<foo>" && ConsumedNode(env, last[0]) == 5;
    assert VisibleText(env, last) == "<foo>" + "" && Consumed(env, last) == 5;
    assert NodeRunes(last[0]) == VisibleRunes([]) == 1;
    assert RuneSum(last) == 1 && RuneSum(children) == 3;
    assert NodeInRun(env, last[0]) && OneRun(env, last);
    assert VisibleText(env, children) == "ab" + "<foo>";
    assert MetNode(env, last[0]) == {foo} && Met(env, last) == {foo} + {};
    assert Met(env, children) == {} + {foo};
  }
}
