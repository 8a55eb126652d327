/** What the tags of MiniMessage do: each shown text has the style that the tags around it say. */
module MiniMessageStyle {
  import opened Wrappers
  import opened MiniMessage
  import opened MiniMessagePrint
  import opened MiniMessageColors
  import opened MiniMessageRender
  import opened MiniMessageText
  import opened MiniMessagePaint

  // ----- what one tag says

  /** A colour tag says its colour, a transition the one of its colours that its phase picks. */
  function ColourSaid(env: Env, t: Tag): Option<Color> {
    var name := TagBase(t.name);
    if name == "transition" then
      if ParseColors(env, t.args) == [] then None else Some(env.transition(ParseColors(env, t.args), t.args))
    else if OwnTx(t) || HasPrefix(name, '!') then None
    else if name != "color" && name != "colour" && name != "c" then env.parseColor(name)
    else if t.args == [] then None
    else env.parseColor(t.args[0])
  }

  function NamesOf(d: Decoration): set<string> {
    match d
    case Bold => {"b", "bold"}
    case Italic => {"i", "em", "italic"}
    case Underlined => {"u", "underline", "underlined"}
    case Strikethrough => {"st", "strikethrough"}
    case Obfuscated => {"obf", "obfuscated"}
  }

  /** A decoration's name turns it on, or off with the argument false or a '!' before the name. */
  function DecorationSaid(env: Env, t: Tag, d: Decoration): Option<bool> {
    var name := TagBase(t.name);
    if name != "" && name[0] == '!' && name[1..] in NamesOf(d) then Some(false)
    else if name in NamesOf(d) && ColourSaid(env, t) == None then
      Some(t.args == [] || ToLower(t.args[0]) != "false")
    else None
  }

  /** The tag has this name, and no colour has. */
  predicate Named(env: Env, t: Tag, names: set<string>) {
    TagBase(t.name) in names && ColourSaid(env, t) == None
  }

  function FontSaid(env: Env, t: Tag): Option<string> {
    if Named(env, t, {"font"}) && |t.args| >= 1 then env.key(t.args[0]) else None
  }

  function InsertionSaid(env: Env, t: Tag): Option<string> {
    if Named(env, t, {"insertion", "insert"}) && |t.args| >= 1 then Some(t.args[0]) else None
  }

  function ClickSaid(env: Env, t: Tag): Option<string> {
    if Named(env, t, {"click"}) && |t.args| >= 2 then env.click(t.args[0], Join(t.args[1..])) else None
  }

  function HoverSaid(env: Env, t: Tag): Option<Hover> {
    if !Named(env, t, {"hover"}) || |t.args| < 2 then None
    else
      var action, value := ToLower(t.args[0]), Join(t.args[1..]);
      if action == "show_text" then
        match RenderString(env, value)
        case Some(c) => Some(ShowText(c))
        case None => None
      else match Split(value, 0, None, "")
        case None => None
        case Some(parts) =>
          if env.key(parts[0]) == None then None
          else if action == "show_item" then
            Some(ShowItem(env.key(parts[0]).value,
                          if |parts| > 1 && env.number(parts[1]).Some? then env.number(parts[1]).value else 1))
          else if action == "show_entity" && |parts| > 1 && env.uuid(parts[1]).Some? then
            Some(ShowEntity(env.key(parts[0]).value, env.uuid(parts[1]).value,
                            if |parts| > 2 then RenderString(env, parts[2]) else None))
          else None
  }

  // ----- what the tags around a text say

  function DecorationIn(style: Style, d: Decoration): Option<bool> {
    if d in style.decorations then Some(style.decorations[d]) else None
  }

  function OrElse<T>(first: Option<T>, otherwise: Option<T>): Option<T> {
    if first.Some? then first else otherwise
  }

  /** What the innermost tag that says something says, or else the other. */
  function Innermost<T>(around: seq<Tag>, says: Tag -> Option<T>, otherwise: Option<T>): Option<T> {
    if around == [] then otherwise
    else OrElse(says(around[|around| - 1]), Innermost(around[..|around| - 1], says, otherwise))
  }

  lemma InnermostSnoc<T>(around: seq<Tag>, t: Tag, says: Tag -> Option<T>, otherwise: Option<T>)
    ensures Innermost(around + [t], says, otherwise) == OrElse(says(t), Innermost(around, says, otherwise))
  {
    assert (around + [t])[..|around|] == around;
  }

  /** The same without recursion: the tag that says something while none inside it does. */
  lemma {:induction false} InnermostDecides<T>(around: seq<Tag>, says: Tag -> Option<T>, otherwise: Option<T>, k: nat)
    requires k < |around| && says(around[k]).Some?
    requires forall j | k < j < |around| :: says(around[j]).None?
    ensures Innermost(around, says, otherwise) == says(around[k])
    decreases |around|
  {
    var n := |around| - 1;
    if k < n {
      assert says(around[n]).None? && around[..n][k] == around[k];
      InnermostDecides(around[..n], says, otherwise, k);
    }
  }

  function Colours(env: Env): Tag -> Option<Color> {
    t => ColourSaid(env, t)
  }

  function Decorations(env: Env, d: Decoration): Tag -> Option<bool> {
    t => DecorationSaid(env, t, d)
  }

  function Fonts(env: Env): Tag -> Option<string> {
    t => FontSaid(env, t)
  }

  function Insertions(env: Env): Tag -> Option<string> {
    t => InsertionSaid(env, t)
  }

  function Clicks(env: Env): Tag -> Option<string> {
    t => ClickSaid(env, t)
  }

  function Hovers(env: Env): Tag -> Option<Hover> {
    t => HoverSaid(env, t)
  }

  /** The tags around, outermost first, and the style around them all. */
  datatype Context = Context(around: seq<Tag>, outside: Style)

  /** The colour, unless it is painted, and all else of a style are as the tags around say. */
  ghost predicate Styled(env: Env, ctx: Context, painted: Option<Color>, style: Style) {
    && style.color == OrElse(painted, Innermost(ctx.around, Colours(env), ctx.outside.color))
    && (forall d :: DecorationIn(style, d) == Innermost(ctx.around, Decorations(env, d), DecorationIn(ctx.outside, d)))
    && style.font == Innermost(ctx.around, Fonts(env), ctx.outside.font)
    && style.insertion == Innermost(ctx.around, Insertions(env), ctx.outside.insertion)
    && style.click == Innermost(ctx.around, Clicks(env), ctx.outside.click)
    && style.hover == Innermost(ctx.around, Hovers(env), ctx.outside.hover)
  }

  ghost predicate Fits(env: Env, ctx: Context, style: Style) {
    Styled(env, ctx, None, style)
  }

  lemma NothingAround(env: Env, style: Style)
    ensures Fits(env, Context([], style), style)
  {}

  // ----- a tag does what it says

  /** The style inside is the one outside, changed by just what the tag says. */
  ghost predicate Changes(env: Env, t: Tag, style: Style, inner: Style) {
    && inner.color == OrElse(ColourSaid(env, t), style.color)
    && (forall d :: DecorationIn(inner, d) == OrElse(DecorationSaid(env, t, d), DecorationIn(style, d)))
    && inner.font == OrElse(FontSaid(env, t), style.font)
    && inner.insertion == OrElse(InsertionSaid(env, t), style.insertion)
    && inner.click == OrElse(ClickSaid(env, t), style.click)
    && inner.hover == OrElse(HoverSaid(env, t), style.hover)
  }

  lemma FitsInside(env: Env, ctx: Context, style: Style, t: Tag, inner: Style)
    requires Fits(env, ctx, style) && Changes(env, t, style, inner)
    ensures Fits(env, ctx.(around := ctx.around + [t]), inner)
  {
    hide Innermost, ColourSaid, DecorationSaid, FontSaid, InsertionSaid, ClickSaid, HoverSaid;
    var out := ctx.outside;
    InnermostSnoc(ctx.around, t, Colours(env), out.color);
    forall d ensures DecorationIn(inner, d) == Innermost(ctx.around + [t], Decorations(env, d), DecorationIn(out, d)) {
      InnermostSnoc(ctx.around, t, Decorations(env, d), DecorationIn(out, d));
    }
    InnermostSnoc(ctx.around, t, Fonts(env), out.font);
    InnermostSnoc(ctx.around, t, Insertions(env), out.insertion);
    InnermostSnoc(ctx.around, t, Clicks(env), out.click);
    InnermostSnoc(ctx.around, t, Hovers(env), out.hover);
  }

  lemma DecorationNamed(name: string, d: Decoration)
    ensures DecorationOf(name) == Some(d) <==> name in NamesOf(d)
  {}

  /** No name is of two kinds. */
  lemma NamesApart(name: string)
    ensures name in {"gradient", "rainbow", "pride", "transition", "font", "insert", "insertion", "click", "hover"} ==>
      DecorationOf(name) == None && !HasPrefix(name, '!')
  {}

  /** A tag with another name than these says nothing of font, insertion, click and hover. */
  lemma SaysNoExtra(env: Env, t: Tag)
    ensures !Named(env, t, {"font"}) ==> FontSaid(env, t) == None
    ensures !Named(env, t, {"insertion", "insert"}) ==> InsertionSaid(env, t) == None
    ensures !Named(env, t, {"click"}) ==> ClickSaid(env, t) == None
    ensures !Named(env, t, {"hover"}) ==> HoverSaid(env, t) == None
  {}

  predicate ExtraName(name: string) {
    name in {"font", "insert", "insertion", "click", "hover"}
  }

  lemma SaysNoneOfThem(env: Env, t: Tag)
    requires !ExtraName(TagBase(t.name)) || ColourSaid(env, t).Some?
    ensures FontSaid(env, t) == None && InsertionSaid(env, t) == None && ClickSaid(env, t) == None && HoverSaid(env, t) == None
  {
    hide ColourSaid, TagBase;
  }

  lemma NoExtra(env: Env, t: Tag, style: Style, inner: Style)
    requires !ExtraName(TagBase(t.name)) || ColourSaid(env, t).Some?
    requires inner.color == OrElse(ColourSaid(env, t), style.color)
    requires forall d :: DecorationIn(inner, d) == OrElse(DecorationSaid(env, t, d), DecorationIn(style, d))
    requires inner.font == style.font && inner.insertion == style.insertion && inner.click == style.click && inner.hover == style.hover
    ensures Changes(env, t, style, inner)
  {
    hide ColourSaid, DecorationSaid, FontSaid, InsertionSaid, ClickSaid, HoverSaid, DecorationIn, ExtraName, TagBase;
    SaysNoneOfThem(env, t);
  }

  /** A decoration said is that of the name, and the style inside has it so. */
  lemma DecorationChanges(env: Env, t: Tag, style: Style, d: Decoration, on: bool)
    requires DecorationSaid(env, t, d) == Some(on)
    ensures forall e | e != d :: DecorationSaid(env, t, e) == None
    ensures forall e :: DecorationIn(style.(decorations := style.decorations[d := on]), e)
                        == OrElse(DecorationSaid(env, t, e), DecorationIn(style, e))
  {
    hide ColourSaid, NamesOf;
    var name := TagBase(t.name);
    forall e | e != d ensures DecorationSaid(env, t, e) == None {
      if name != "" {
        DecorationNamed(name[1..], d);
        DecorationNamed(name[1..], e);
      }
      DecorationNamed(name, d);
      DecorationNamed(name, e);
      NoMarkInNames(d);
      NoMarkInNames(e);
    }
  }

  lemma NoMarkInNames(d: Decoration)
    ensures forall name | name in NamesOf(d) :: !HasPrefix(name, '!')
  {}

  lemma TransformChanges(env: Env, t: Tag, style: Style)
    requires OwnTx(t)
    ensures Changes(env, t, style, style)
  {
    hide TagBase, NamesOf, DecorationIn;
    NamesApart(TagBase(t.name));
    SaysNoDecoration(env, t);
    assert ColourSaid(env, t) == None;
    NoExtra(env, t, style, style);
  }

  lemma SaysNoDecoration(env: Env, t: Tag)
    requires DecorationOf(TagBase(t.name)) == None
    requires HasPrefix(TagBase(t.name), '!') ==> DecorationOf(TagBase(t.name)[1..]) == None
    ensures forall d :: DecorationSaid(env, t, d) == None
  {
    hide TagBase, NamesOf, ColourSaid;
    var name := TagBase(t.name);
    forall d ensures DecorationSaid(env, t, d) == None {
      DecorationNamed(name, d);
      if name != "" {
        DecorationNamed(name[1..], d);
      }
    }
  }

  lemma TransitionChanges(env: Env, t: Tag, style: Style, nested: seq<Component>)
    requires TagBase(t.name) == "transition"
    ensures Changes(env, t, style, InnerStyle(env, t, style, nested))
  {
    hide TagBase, NamesOf, DecorationIn, ApplyStyleTag;
    NamesApart(TagBase(t.name));
    SaysNoDecoration(env, t);
    var inner := InnerStyle(env, t, style, nested);
    assert inner.color == OrElse(ColourSaid(env, t), style.color);
    assert inner.decorations == style.decorations;
    SameDecorations(style, inner);
    NoExtra(env, t, style, inner);
  }

  lemma SameDecorations(style: Style, inner: Style)
    requires inner.decorations == style.decorations
    ensures forall d :: DecorationIn(inner, d) == DecorationIn(style, d)
  {}

  /** Colour names and codes, in tags that are no transform and no transition. */
  lemma ColourAgrees(env: Env, t: Tag)
    requires !OwnTx(t) && TagBase(t.name) != "transition" && !HasPrefix(TagBase(t.name), '!')
    ensures ColourSaid(env, t) == ParseColorTag(env, TagBase(t.name), t.args)
  {
    hide TagBase;
  }

  lemma OffChanges(env: Env, t: Tag, style: Style, nested: seq<Component>)
    requires HasPrefix(TagBase(t.name), '!') && IsStyleTag(env, t)
    ensures Changes(env, t, style, ApplyStyleTag(env, t, style, nested).value)
  {
    hide TagBase, NamesOf, DecorationIn, ParseColorTag;
    var name := TagBase(t.name);
    var d := DecorationOf(name[1..]).value;
    DecorationNamed(name[1..], d);
    NamesApart(name);
    MarkedSaysNoColour(env, t);
    assert DecorationSaid(env, t, d) == Some(false);
    DecorationChanges(env, t, style, d, false);
    NoExtra(env, t, style, style.(decorations := style.decorations[d := false]));
  }

  lemma MarkedSaysNoColour(env: Env, t: Tag)
    requires HasPrefix(TagBase(t.name), '!')
    ensures ColourSaid(env, t) == None && !ExtraName(TagBase(t.name)) && !OwnTx(t) && TagBase(t.name) != "transition"
  {
    hide TagBase;
  }

  lemma ColourChanges(env: Env, t: Tag, style: Style)
    requires !OwnTx(t) && TagBase(t.name) != "transition" && !HasPrefix(TagBase(t.name), '!')
    requires ParseColorTag(env, TagBase(t.name), t.args).Some?
    ensures Changes(env, t, style, style.(color := ParseColorTag(env, TagBase(t.name), t.args)))
  {
    hide TagBase, NamesOf, DecorationIn, ParseColorTag;
    ColourAgrees(env, t);
    var inner := style.(color := ParseColorTag(env, TagBase(t.name), t.args));
    assert forall d :: DecorationSaid(env, t, d) == None by {
      hide ColourSaid;
      assert !HasPrefix(TagBase(t.name), '!');
    }
    SameDecorations(style, inner);
    hide ColourSaid;
    NoExtra(env, t, style, inner);
  }

  lemma OnChanges(env: Env, t: Tag, style: Style)
    requires !HasPrefix(TagBase(t.name), '!') && ColourSaid(env, t) == None && DecorationOf(TagBase(t.name)).Some?
    ensures var state := !(t.args != [] && ToLower(t.args[0]) == "false");
      Changes(env, t, style, style.(decorations := style.decorations[DecorationOf(TagBase(t.name)).value := state]))
  {
    hide TagBase, NamesOf, DecorationIn, ColourSaid, ToLower;
    var d, state := DecorationOf(TagBase(t.name)).value, !(t.args != [] && ToLower(t.args[0]) == "false");
    DecorationNamed(TagBase(t.name), d);
    DecoratedHasNoExtra(TagBase(t.name));
    assert DecorationSaid(env, t, d) == Some(state);
    DecorationChanges(env, t, style, d, state);
    NoExtra(env, t, style, style.(decorations := style.decorations[d := state]));
  }

  lemma DecoratedHasNoExtra(name: string)
    requires DecorationOf(name).Some?
    ensures !ExtraName(name)
  {}

  // ----- font, insertion, click and hover

  lemma ExtraChanges(env: Env, t: Tag, style: Style, nested: seq<Component>)
    requires ColourSaid(env, t) == None && IsExtraTag(env, TagBase(t.name), t.args)
    requires TagBase(t.name) == "hover" ==> HoverOf(env, t, nested) == HoverSaid(env, t)
    requires ParseColorTag(env, TagBase(t.name), t.args) == None
    ensures ApplyStyleTag(env, t, style, nested).Some?
    ensures Changes(env, t, style, ApplyStyleTag(env, t, style, nested).value)
  {
    hide TagBase, NamesOf, DecorationIn, ColourSaid, HoverSaid, HoverOf, DecorationSaid, ParseColorTag, Join;
    var name := TagBase(t.name);
    NamesApart(name);
    SaysNoDecoration(env, t);
    SaysNoExtra(env, t);
    var inner := ApplyStyleTag(env, t, style, nested).value;
    SameDecorations(style, inner);
  }

  /** A hover tag's nested texts are those its event holds. */
  lemma HoverAgrees(env: Env, t: Tag, nested: seq<Component>)
    requires TagBase(t.name) == "hover" && IsHover(env, t) && Named(env, t, {"hover"})
    requires RenderStrings(env, NestedTexts(env, t)) == Some(nested)
    ensures HoverOf(env, t, nested) == HoverSaid(env, t)
  {
    hide TagBase, RenderString, Split, Join;
    var action, value := ToLower(t.args[0]), Join(t.args[1..]);
    var texts := NestedTexts(env, t);
    assert !IsTranslation(t);
    if texts != [] {
      OneString(env, texts[0]);
      assert texts == [texts[0]];
    }
  }

  /** In a tag whose children are rendered. */
  lemma InnerChanges(env: Env, t: Tag, style: Style, nested: seq<Component>)
    requires HasChildren(env, t) && RenderStrings(env, NestedTexts(env, t)) == Some(nested)
    ensures Changes(env, t, style, InnerStyle(env, t, style, nested))
  {
    hide TagBase, Changes, ColourSaid, ParseColorTag, NestedTexts, HoverOf, HoverSaid, IsExtraTag;
    var name := TagBase(t.name);
    if OwnTx(t) {
      TransformChanges(env, t, style);
    } else if name == "transition" {
      TransitionChanges(env, t, style, nested);
    } else if HasPrefix(name, '!') {
      OffChanges(env, t, style, nested);
    } else {
      ColourAgrees(env, t);
      if ParseColorTag(env, name, t.args).Some? {
        ColourChanges(env, t, style);
      } else if DecorationOf(name).Some? {
        OnChanges(env, t, style);
      } else {
        if name == "hover" {
          IsHoverHere(env, t);
          HoverAgrees(env, t, nested);
        }
        ExtraChanges(env, t, style, nested);
      }
    }
  }

  lemma IsHoverHere(env: Env, t: Tag)
    requires TagBase(t.name) == "hover" && ColourSaid(env, t) == None
    requires ParseColorTag(env, TagBase(t.name), t.args) == None && IsExtraTag(env, TagBase(t.name), t.args)
    ensures IsHover(env, t) && Named(env, t, {"hover"})
  {
    hide TagBase, ColourSaid;
  }

  // ----- what a tree shows

  /** A text, with its own colour if a transform paints it, or a translation of argument texts. */
  datatype Piece =
    | Shown(content: string, paint: Option<Color>, ctx: Context)
    | Translated(key: string, args: seq<string>, ctx: Context)

  /** A text is one piece, or one a rune where a transform paints. */
  function TextPieces(env: Env, text: string, ctx: Context, tx: Option<Tx>): seq<Piece> {
    if Paints(tx) then
      seq(|text|, i requires 0 <= i < |text| => Shown([text[i]], Some(ColourAt(env, tx.value, i)), ctx))
    else if text == "" then []
    else [Shown(text, None, ctx)]
  }

  /** The colour a transform gives the i-th rune from now. */
  function ColourAt(env: Env, tx: Tx, i: nat): Color {
    match tx.paint
    case Gradient(colors) => GradientColor(colors, tx.index + i, tx.total)
    case Rainbow(false) => env.hue(tx.index + i, tx.total)
    case Rainbow(true) => env.hue(tx.total - 1 - (tx.index + i), tx.total)
  }

  /** No tag around, and no style around them. */
  function Nowhere(): Context {
    Context([], Style(None, map[], None, None, None, None))
  }

  /** Behind a reset nothing is around any more, up to the end of the element it stands in. */
  function Behind(node: Node, ctx: Context): Context {
    if node.Element? && node.tag.name == "reset" then Nowhere() else ctx
  }

  function BehindAll(nodes: seq<Node>, ctx: Context): Context {
    if nodes == [] then ctx else BehindAll(nodes[1..], Behind(nodes[0], ctx))
  }

  /** The tags that say something, transforms, transitions, and click and hover with an action and a value. */
  ghost predicate ShowsChildren(env: Env, t: Tag) {
    var name := TagBase(t.name);
    && name !in {"key", "keybind", "selector", "score", "nbt", "sprite", "head"}
    && (|| name in {"gradient", "rainbow", "pride", "transition"}
        || ColourSaid(env, t).Some? || FontSaid(env, t).Some? || InsertionSaid(env, t).Some?
        || (exists d :: DecorationSaid(env, t, d).Some?)
        || (name in {"click", "hover"} && |t.args| >= 2))
  }

  /** The transform inside a tag: a gradient of the colours among its arguments, white and aqua for
      fewer than two, a rainbow, backwards if an argument has a '!', or the one around. */
  ghost function Inside(env: Env, t: Tag, children: seq<Node>, tx: Option<Tx>): Option<Tx> {
    var name, n := TagBase(t.name), VisibleRunes(children);
    if name == "gradient" then
      var colours := ParseColors(env, t.args);
      Some(Tx(n, Gradient(if |colours| >= 2 then colours else [Color(255, 255, 255), Color(85, 255, 255)]), 0, []))
    else if name == "rainbow" || name == "pride" then
      Some(Tx(n, Rainbow(exists i, k | 0 <= i < |t.args| && 0 <= k < |t.args[i]| :: t.args[i][k] == '!'), 0, []))
    else tx
  }

  /** The pieces in order, each with the tags around it. */
  ghost function Pieces(env: Env, nodes: seq<Node>, ctx: Context, tx: Option<Tx>): seq<Piece>
    decreases nodes, 0
  {
    if nodes == [] then []
    else
      NodePieces(env, nodes[0], ctx, tx)
      + Pieces(env, nodes[1..], Behind(nodes[0], ctx), Advance(tx, ConsumedNode(env, nodes[0])))
  }

  ghost function NodePieces(env: Env, node: Node, ctx: Context, tx: Option<Tx>): seq<Piece>
    decreases node, 1
  {
    match node
    case Text(text) => TextPieces(env, text, ctx, tx)
    case Element(t, children) =>
      if t.name == "reset" then []
      else if TagBase(t.name) in {"br", "newline"} then TextPieces(env, "\n", ctx, tx)
      else if TagBase(t.name) in {"lang", "tr", "translate", "lang_or", "tr_or", "translate_or"} then
        [TranslationPiece(t, ctx)]
      else if ShowsChildren(env, t) then
        Pieces(env, children, ctx.(around := ctx.around + [t]), Inside(env, t, children, tx))
      else TextPieces(env, "<" + t.literal + ">", ctx, tx)
  }

  /** A translation without arguments is shown as written; a fallback is no argument text. */
  function TranslationPiece(t: Tag, ctx: Context): Piece {
    if t.args == [] then Shown("<" + t.literal + ">", None, ctx)
    else if TagBase(t.name) in {"lang_or", "tr_or", "translate_or"} then
      Translated(t.args[0], t.args[Min(2, |t.args|)..], ctx)
    else Translated(t.args[0], t.args[1..], ctx)
  }

  /** A component shows a piece in the style that the tags around it say. */
  ghost predicate Shows(env: Env, part: Component, piece: Piece) {
    match piece
    case Shown(content, paint, ctx) => part.TextPart? && part.content == content && Styled(env, ctx, paint, part.style)
    case Translated(key, args, ctx) =>
      && part.TranslationPart? && part.key == key && Fits(env, ctx, part.style)
      && |part.with| == |args| && forall i | 0 <= i < |args| :: RenderString(env, args[i]) == Some(part.with[i])
  }

  ghost predicate AllShow(env: Env, parts: seq<Component>, pieces: seq<Piece>) {
    |parts| == |pieces| && forall i | 0 <= i < |parts| :: Shows(env, parts[i], pieces[i])
  }

  lemma ShowOneAfterTheOther(env: Env, a: seq<Component>, b: seq<Component>, p: seq<Piece>, q: seq<Piece>)
    requires AllShow(env, a, p) && AllShow(env, b, q)
    ensures AllShow(env, a + b, p + q)
  {
    hide Shows;
  }

  // ----- rendering shows it

  lemma TranslationNamed(t: Tag)
    ensures IsTranslation(t) <==> TagBase(t.name) in {"lang", "tr", "translate", "lang_or", "tr_or", "translate_or"}
  {
    hide TagBase;
  }

  /** The tags whose children are shown. */
  lemma ChildrenShownExactly(env: Env, t: Tag)
    ensures TagBase(t.name) !in {"br", "newline"} && !IsTranslation(t) ==>
      (HasChildren(env, t) <==> ShowsChildren(env, t)) && (IsLiteral(env, t) <==> !ShowsChildren(env, t))
  {
    hide TagBase, IsStyleTag, ColourSaid, FontSaid, InsertionSaid, DecorationSaid;
    if !OwnTx(t) && TagBase(t.name) != "transition" {
      StyleTagsSay(env, t);
    }
  }

  lemma StyleTagsSay(env: Env, t: Tag)
    requires !OwnTx(t) && TagBase(t.name) != "transition"
    ensures IsStyleTag(env, t) <==>
      || ColourSaid(env, t).Some? || FontSaid(env, t).Some? || InsertionSaid(env, t).Some?
      || (exists d :: DecorationSaid(env, t, d).Some?)
      || (TagBase(t.name) in {"click", "hover"} && |t.args| >= 2)
  {
    hide TagBase, NamesOf, ColourSaid, ParseColorTag, ExtraName;
    var name := TagBase(t.name);
    DecorationSaidExactly(env, t);
    if HasPrefix(name, '!') {
      MarkedSaysNoColour(env, t);
      SaysNoneOfThem(env, t);
      assert name !in {"click", "hover"};
    } else {
      ColourAgrees(env, t);
      hide DecorationSaid;
    }
  }

  lemma DecorationSaidExactly(env: Env, t: Tag)
    ensures (exists d :: DecorationSaid(env, t, d).Some?) <==>
      || (HasPrefix(TagBase(t.name), '!') && DecorationOf(TagBase(t.name)[1..]).Some?)
      || (DecorationOf(TagBase(t.name)).Some? && ColourSaid(env, t) == None)
  {
    hide TagBase, NamesOf, ColourSaid;
    var name := TagBase(t.name);
    if HasPrefix(name, '!') && DecorationOf(name[1..]).Some? {
      DecorationNamed(name[1..], DecorationOf(name[1..]).value);
      assert DecorationSaid(env, t, DecorationOf(name[1..]).value).Some?;
    }
    if DecorationOf(name).Some? && ColourSaid(env, t) == None {
      DecorationNamed(name, DecorationOf(name).value);
      assert DecorationSaid(env, t, DecorationOf(name).value).Some?;
    }
    if d :| DecorationSaid(env, t, d).Some? {
      DecorationNamed(name, d);
      if name != "" {
        DecorationNamed(name[1..], d);
      }
    }
  }

  lemma InsideAgrees(env: Env, t: Tag, children: seq<Node>, tx: Option<Tx>)
    ensures InnerTx(env, t, children, tx) == Inside(env, t, children, tx)
  {
    hide TagBase, VisibleRunes, ParseColors;
  }

  lemma {:induction false} PaintRunesAre(env: Env, text: string, style: Style, tx: Tx)
    ensures var parts := PaintRunes(env, text, style, tx).0;
      && |parts| == |text|
      && forall i | 0 <= i < |text| ::
           parts[i] == TextPart([text[i]], style.(color := Some(ColourAt(env, tx, i))))
  {
    hide GradientColor;
    if text != "" {
      PaintRunesAre(env, text[1..], style, NextRune(tx));
      var parts := PaintRunes(env, text, style, tx).0;
      forall i | 0 <= i < |text| ensures parts[i] == TextPart([text[i]], style.(color := Some(ColourAt(env, tx, i)))) {
        if i > 0 {
          assert parts[i] == parts[1..][i - 1] && text[i] == text[1..][i - 1];
          assert ColourAt(env, NextRune(tx), i - 1) == ColourAt(env, tx, i);
        }
      }
    }
  }

  lemma PaintedFits(env: Env, ctx: Context, style: Style, colour: Color)
    requires Fits(env, ctx, style)
    ensures Styled(env, ctx, Some(colour), style.(color := Some(colour)))
  {
    hide Innermost;
  }

  lemma TextShown(env: Env, text: string, ctx: Context, style: Style, tx: Option<Tx>)
    requires Fits(env, ctx, style)
    ensures AllShow(env, RenderText(env, text, style, tx).parts, TextPieces(env, text, ctx, tx))
  {
    hide Styled, ColourAt, PaintRunes;
    if Paints(tx) {
      PaintRunesAre(env, text, style, tx.value);
      var parts := PaintRunes(env, text, style, tx.value).0;
      forall i | 0 <= i < |text| ensures Shows(env, parts[i], TextPieces(env, text, ctx, tx)[i]) {
        PaintedFits(env, ctx, style, ColourAt(env, tx.value, i));
      }
      if text == "" {
        assert RenderText(env, text, style, tx).parts == [];
      }
    }
  }

  lemma {:induction false} StringsAre(env: Env, texts: seq<string>)
    ensures var r := RenderStrings(env, texts);
      r.Some? ==> |r.value| == |texts| && forall i | 0 <= i < |texts| :: RenderString(env, texts[i]) == Some(r.value[i])
    decreases |texts|
  {
    hide RenderString;
    if texts != [] {
      StringsAre(env, texts[1..]);
      var r := RenderStrings(env, texts);
      if r.Some? {
        forall i | 0 < i < |texts| ensures RenderString(env, texts[i]) == Some(r.value[i]) {
          assert texts[i] == texts[1..][i - 1];
        }
      }
    }
  }

  lemma TranslationShown(env: Env, t: Tag, ctx: Context, style: Style)
    requires IsTranslation(t) && Fits(env, ctx, style)
    ensures var r := RenderTranslation(env, t, style);
      r.Some? ==> AllShow(env, [r.value], [TranslationPiece(t, ctx)])
  {
    hide TagBase, Styled, RenderStrings, RenderString;
    StringsAre(env, NestedTexts(env, t));
  }

  /** Every piece of a tree is shown, in order and nothing else, and each in the style that the tags
      around it say: what its innermost tag that says something of it says, or the style outside. */
  lemma {:induction false} StyledAsWritten(env: Env, nodes: seq<Node>, ctx: Context, style: Style, tx: Option<Tx>)
    requires Fits(env, ctx, style) && RenderAll(env, nodes, style, tx).Rendered?
    ensures AllShow(env, RenderAll(env, nodes, style, tx).parts, Pieces(env, nodes, ctx, tx))
    ensures Fits(env, BehindAll(nodes, ctx), RenderAll(env, nodes, style, tx).style)
    decreases nodes, 0
  {
    hide Styled, AllShow, RenderNode, NodePieces, ConsumedNode, Advance, Behind;
    if nodes == [] {
      NoneShown(env);
    } else {
      NodeStyledAsWritten(env, nodes[0], ctx, style, tx);
      NodeIndexAdvances(env, nodes[0], style, tx);
      var first := RenderNode(env, nodes[0], style, tx);
      StyledAsWritten(env, nodes[1..], Behind(nodes[0], ctx), first.style, first.tx);
      ShowOneAfterTheOther(env, first.parts, RenderAll(env, nodes[1..], first.style, first.tx).parts,
                           NodePieces(env, nodes[0], ctx, tx), Pieces(env, nodes[1..], Behind(nodes[0], ctx), first.tx));
    }
  }

  lemma NoneShown(env: Env)
    ensures AllShow(env, [], [])
  {}

  lemma {:induction false} NodeStyledAsWritten(env: Env, node: Node, ctx: Context, style: Style, tx: Option<Tx>)
    requires Fits(env, ctx, style) && RenderNode(env, node, style, tx).Rendered?
    ensures AllShow(env, RenderNode(env, node, style, tx).parts, NodePieces(env, node, ctx, tx))
    ensures Fits(env, Behind(node, ctx), RenderNode(env, node, style, tx).style)
    decreases node, 1
  {
    hide Styled, AllShow, RenderText, RenderStrings, RenderTranslation, IsLiteral, IsTranslation, InnerStyle, InnerTx, TextPieces,
      NestedTexts, TagBase, OwnTx, Changes, ShowsChildren, Inside, TranslationPiece;
    NothingAround(env, EmptyStyle());
    assert EmptyStyle() == Nowhere().outside;
    NoneShown(env);
    match node
    case Text(text) => TextShown(env, text, ctx, style, tx);
    case Element(t, children) =>
      TranslationNamed(t);
      ChildrenShownExactly(env, t);
      InsideAgrees(env, t, children, tx);
      if t.name == "reset" {
      } else if TagBase(t.name) in {"br", "newline"} {
        TextShown(env, "\n", ctx, style, tx);
      } else if IsTranslation(t) {
        TranslationShown(env, t, ctx, style);
      } else if IsLiteral(env, t) {
        TextShown(env, Written(t), ctx, style, tx);
      } else {
        var nested := RenderStrings(env, NestedTexts(env, t)).value;
        var inner := InnerStyle(env, t, style, nested);
        InnerChanges(env, t, style, nested);
        FitsInside(env, ctx, style, t, inner);
        StyledAsWritten(env, children, ctx.(around := ctx.around + [t]), inner, InnerTx(env, t, children, tx));
      }
  }

  /** A text that is parsed and rendered: no component for no piece, one for one, a group for more. */
  lemma TextStyledAsWritten(env: Env, text: string)
    requires RenderString(env, text).Some?
    ensures var c, pieces := RenderString(env, text).value, Pieces(env, Parse(text, 0, "", "").0, Nowhere(), None);
      && (pieces == [] ==> c == TextPart("", Nowhere().outside))
      && (|pieces| == 1 ==> Shows(env, c, pieces[0]))
      && (|pieces| > 1 ==> c.Group? && AllShow(env, c.parts, pieces))
  {
    hide Styled, Parse, Pieces;
    NothingAround(env, EmptyStyle());
    assert EmptyStyle() == Nowhere().outside;
    ParseSize(text, 0, "", "");
    StyledAsWritten(env, Parse(text, 0, "", "").0, Nowhere(), EmptyStyle(), None);
  }

  // ----- arguments

  /** The colours among arguments are those of each that is a colour, in order. */
  lemma {:induction false} ColoursInOrder(env: Env, a: seq<string>, arg: string, b: seq<string>)
    ensures ParseColors(env, a + [arg] + b)
      == ParseColors(env, a) + (if env.parseColor(arg).Some? then [env.parseColor(arg).value] else []) + ParseColors(env, b)
    decreases |b|
  {
    if b == [] {
      assert a + [arg] + b == a + [arg] && (a + [arg])[..|a|] == a;
    } else {
      var n := |b| - 1;
      assert (a + [arg] + b)[..|a| + 1 + n] == a + [arg] + b[..n];
      ColoursInOrder(env, a, arg, b[..n]);
    }
  }

  /** An argument as it can be written without quotes. */
  predicate Bare(arg: string) {
    forall i | 0 <= i < |arg| :: !IsQuote(arg[i]) && arg[i] != ':'
  }

  /** Arguments joined again are split into the same. */
  lemma {:induction false} JoinedSplits(args: seq<string>)
    requires args != [] && forall i | 0 <= i < |args| :: Bare(args[i])
    ensures Split(Join(args), 0, None, "") == Some(args)
  {
    var s := Join(args);
    assert s[0..] == s;
    JoinedSplitsFrom(s, 0, args, "");
    assert "" + args[0] == args[0] && [args[0]] + args[1..] == args;
  }

  lemma {:induction false} JoinedSplitsFrom(s: string, i: nat, args: seq<string>, current: string)
    requires i <= |s| && args != [] && s[i..] == Join(args) && forall i | 0 <= i < |args| :: Bare(args[i])
    ensures Split(s, i, None, current) == Some([current + args[0]] + args[1..])
    decreases |s| - i
  {
    var head, more := args[0], args[1..];
    if head != "" {
      assert s[i] == head[0] && Bare(head);
      var next := [head[1..]] + more;
      assert next[1..] == more;
      assert s[i + 1..] == s[i..][1..] == Join(next);
      assert Bare(head[1..]);
      JoinedSplitsFrom(s, i + 1, next, current + [head[0]]);
      assert current + [head[0]] + head[1..] == current + head;
    } else if more == [] {
      assert i == |s| && current + head == current;
      assert [current] + more == [current];
    } else {
      assert s[i] == ':' && s[i + 1..] == s[i..][1..] == Join(more);
      JoinedSplitsFrom(s, i + 1, more, "");
      assert "" + more[0] == more[0] && [more[0]] + more[1..] == more;
      assert current + head == current;
    }
  }

  // ----- hidden nodes

  /** The only tags with nodes in them that are not shown are the unknown ones. */
  ghost predicate OnlyUnknownHide(env: Env, nodes: seq<Node>)
    decreases nodes, 0
  {
    nodes == [] || (NodeHidesUnknown(env, nodes[0]) && OnlyUnknownHide(env, nodes[1..]))
  }

  ghost predicate NodeHidesUnknown(env: Env, node: Node)
    decreases node, 1
  {
    match node
    case Text(_) => true
    case Element(t, children) =>
      && (children == [] || ShowsChildren(env, t) || Unknown(env, t))
      && (children != [] ==> t.name != "reset" && TagBase(t.name) != "reset")
      && OnlyUnknownHide(env, children)
  }

  /** A tag that says nothing, under a name that has no other use. */
  ghost predicate Unknown(env: Env, t: Tag) {
    && !ShowsChildren(env, t)
    && TagBase(t.name) !in {"reset", "br", "newline", "lang", "tr", "translate", "lang_or", "tr_or", "translate_or",
                            "key", "keybind", "selector", "score", "nbt", "sprite", "head"}
  }

  lemma {:induction false} HidesConcat(env: Env, a: seq<Node>, b: seq<Node>)
    requires OnlyUnknownHide(env, a) && OnlyUnknownHide(env, b)
    ensures OnlyUnknownHide(env, a + b)
  {
    if a == [] {
      assert a + b == b;
    } else {
      assert (a + b)[1..] == a[1..] + b;
      HidesConcat(env, a[1..], b);
    }
  }

  /** In every parsed tree: a tag whose nodes are never shown has none, unless it is unknown. */
  lemma {:induction false} OnlyUnknownTagsHideNodes(env: Env, s: string, pos: nat, closing: string, text: string)
    requires pos <= |s|
    ensures OnlyUnknownHide(env, Parse(s, pos, closing, text).0)
    decreases |s| - pos
  {
    hide Parse, Next, TagBase, NodeHidesUnknown;
    TextHidesNothing(env, text);
    if pos == |s| {
      ParseEnd(s, closing, text);
    } else {
      ParseStep(s, pos, closing, text);
      match Next(s, pos, closing)
      case Literal(more, next) => OnlyUnknownTagsHideNodes(env, s, next, closing, text + more);
      case Closes(_) =>
      case Opens(tag, selfCloses, next) =>
        var inside := if selfCloses then ([], next) else Parse(s, next, TagBase(tag.name), "");
        if !selfCloses {
          OnlyUnknownTagsHideNodes(env, s, next, TagBase(tag.name), "");
        }
        OnlyUnknownTagsHideNodes(env, s, inside.1, closing, "");
        OpenedHides(env, s, pos, closing, inside.0);
        var node := Element(tag, inside.0);
        assert [node][1..] == [] && OnlyUnknownHide(env, [node]);
        HidesConcat(env, Flush(text), [node]);
        HidesConcat(env, Flush(text) + [node], Parse(s, inside.1, closing, "").0);
    }
  }

  lemma TextHidesNothing(env: Env, text: string)
    ensures OnlyUnknownHide(env, Flush(text))
  {
    assert [Text(text)][1..] == [] && NodeHidesUnknown(env, Text(text));
  }

  lemma OpenedHides(env: Env, s: string, pos: nat, closing: string, children: seq<Node>)
    requires pos < |s| && Next(s, pos, closing).Opens? && OnlyUnknownHide(env, children)
    requires Next(s, pos, closing).selfCloses ==> children == []
    ensures NodeHidesUnknown(env, Element(Next(s, pos, closing).tag, children))
  {
    hide ParseTag, TagEnd, ShowsChildren, TagBase;
    ResetBase();
  }
}
