/** The parser of minimessage/minimessage.go.  A Go string is the sequence of its runes. */
module MiniMessage {
  import opened Wrappers

  /** A node has text, or a tag and children. */
  datatype Node = Text(text: string) | Element(tag: Tag, children: seq<Node>)

  datatype Tag = Tag(name: string, args: seq<string>, literal: string)

  // ----- strings

  /** unicode.IsSpace. */
  predicate IsSpace(c: char) {
    || '\t' <= c <= '\r' || c == ' ' || c == '\U{85}' || c == '\U{a0}' || c == '\U{1680}'
    || '\U{2000}' <= c <= '\U{200a}' || c == '\U{2028}' || c == '\U{2029}' || c == '\U{202f}'
    || c == '\U{205f}' || c == '\U{3000}'
  }

  function TrimLeft(s: string): string {
    if s != "" && IsSpace(s[0]) then TrimLeft(s[1..]) else s
  }

  function TrimRight(s: string): string {
    if s != "" && IsSpace(s[|s| - 1]) then TrimRight(s[..|s| - 1]) else s
  }

  function TrimSpace(s: string): string {
    TrimRight(TrimLeft(s))
  }

  /** strings.ToLower on ASCII letters; other letters are kept. */
  function LowerChar(c: char): char {
    if 'A' <= c <= 'Z' then (c as int + 32) as char else c
  }

  function ToLower(s: string): (r: string)
    ensures |r| == |s| && forall i | 0 <= i < |s| :: r[i] == LowerChar(s[i])
  {
    seq(|s|, i requires 0 <= i < |s| => LowerChar(s[i]))
  }

  predicate HasPrefix(s: string, c: char) {
    s != "" && s[0] == c
  }

  predicate HasSuffix(s: string, c: char) {
    s != "" && s[|s| - 1] == c
  }

  // ----- the two quote-aware scanners

  predicate IsQuote(c: char) {
    c == '\'' || c == '"'
  }

  /** Where the '>' that ends a tag is, from pos on; None if a quote never closes or no '>' comes. */
  function TagEnd(s: string, pos: nat, quote: Option<char>): (end: Option<nat>)
    requires pos <= |s|
    ensures end.Some? ==> pos <= end.value < |s| && s[end.value] == '>'
    decreases |s| - pos
  {
    if pos == |s| then None
    else if quote.Some? then
      if s[pos] == '\\' then TagEnd(s, Min(pos + 2, |s|), quote)
      else TagEnd(s, pos + 1, if Some(s[pos]) == quote then None else quote)
    else if s[pos] == '>' then Some(pos)
    else TagEnd(s, pos + 1, if IsQuote(s[pos]) then Some(s[pos]) else None)
  }

  function Min(a: nat, b: nat): nat {
    if a <= b then a else b
  }

  method FindTagEnd(input: string, start: nat) returns (end: int)
    requires start <= |input|
    ensures TagEnd(input, start, None) == if end < 0 then None else Some(end)
  {
    var quote: Option<char> := None;
    var pos := start;
    while pos < |input|
      invariant start <= pos <= |input|
      invariant TagEnd(input, start, None) == TagEnd(input, pos, quote)
    {
      var r := input[pos];
      if quote.Some? {
        if r == '\\' {
          pos := pos + 1;
          if pos < |input| {
            pos := pos + 1;
          }
          continue;
        }
        if Some(r) == quote {
          quote := None;
        }
        pos := pos + 1;
        continue;
      }
      if IsQuote(r) {
        quote := Some(r);
      } else if r == '>' {
        return pos;
      }
      pos := pos + 1;
    }
    return -1;
  }

  /** The arguments of a tag from i on, separated by ':' outside quotes; None for a quote left open. */
  function Split(s: string, i: nat, quote: Option<char>, current: string): (parts: Option<seq<string>>)
    requires i <= |s|
    ensures parts.Some? ==> parts.value != []
    decreases |s| - i
  {
    if i == |s| then
      if quote.Some? then None else Some([current])
    else if quote.Some? then
      if s[i] == '\\' then
        if i + 1 == |s| then Split(s, i + 1, quote, current)
        else Split(s, i + 2, quote, current + [s[i + 1]])
      else if Some(s[i]) == quote then Split(s, i + 1, None, current)
      else Split(s, i + 1, quote, current + [s[i]])
    else if IsQuote(s[i]) then Split(s, i + 1, Some(s[i]), current)
    else if s[i] == ':' then PrependAll([current], Split(s, i + 1, None, ""))
    else Split(s, i + 1, None, current + [s[i]])
  }

  /** Parts already split off, put before the parts of the rest. */
  function PrependAll(out: seq<string>, more: Option<seq<string>>): Option<seq<string>> {
    if more.Some? then Some(out + more.value) else None
  }

  lemma PrependTwice(out: seq<string>, current: string, more: Option<seq<string>>)
    ensures PrependAll(out, PrependAll([current], more)) == PrependAll(out + [current], more)
    ensures PrependAll([], more) == more
  {
    if more.Some? {
      assert out + ([current] + more.value) == out + [current] + more.value;
      assert [] + more.value == more.value;
    }
  }

  method SplitArgs(value: string) returns (parts: Option<seq<string>>)
    ensures parts == Split(value, 0, None, "")
  {
    var out: seq<string> := [];
    var current := "";
    var quote: Option<char> := None;
    var i := 0;
    PrependTwice([], "", Split(value, 0, None, ""));
    while i < |value|
      invariant i <= |value|
      invariant Split(value, 0, None, "") == PrependAll(out, Split(value, i, quote, current))
      decreases |value| - i
    {
      var r := value[i];
      if quote.Some? {
        if r == '\\' {
          i := i + 1;
          if i < |value| {
            current := current + [value[i]];
            i := i + 1;
          }
          continue;
        }
        if Some(r) == quote {
          quote := None;
          i := i + 1;
          continue;
        }
        current := current + [r];
        i := i + 1;
        continue;
      }
      if IsQuote(r) {
        quote := Some(r);
      } else if r == ':' {
        PrependTwice(out, current, Split(value, i + 1, None, ""));
        out := out + [current];
        current := "";
      } else {
        current := current + [r];
      }
      i := i + 1;
    }
    if quote.Some? {
      return None;
    }
    return Some(out + [current]);
  }

  // ----- tags

  function TagBase(name: string): string {
    if name == "" || name[0] == ':' then "" else [name[0]] + TagBase(name[1..])
  }

  predicate IsSelfClosingTag(name: string) {
    TagBase(name) in {
      "reset", "br", "newline", "lang", "tr", "translate", "lang_or", "tr_or", "translate_or",
      "key", "keybind", "selector", "score", "nbt", "sprite", "head"}
  }

  /** The text between the angle brackets, trimmed, without a final '/' and an initial '/'. */
  function Inner(raw: string): (r: (string, bool))
  {
    var trimmed := TrimSpace(raw);
    var trimmed := if HasSuffix(trimmed, '/') then TrimSpace(trimmed[..|trimmed| - 1]) else trimmed;
    if HasPrefix(trimmed, '/') then (TrimSpace(trimmed[1..]), true) else (trimmed, false)
  }

  /** The tag and whether it closes; None if the text is no tag. */
  function ParseTag(raw: string): Option<(Tag, bool)> {
    if TrimSpace(raw) == "" then None
    else
      var (inner, closeTag) := Inner(raw);
      match Split(inner, 0, None, "")
      case None => None
      case Some(parts) =>
        if parts[0] == "" then None
        else Some((Tag(ToLower(parts[0]), parts[1..], raw), closeTag))
  }

  method ParseRawTag(raw: string) returns (r: Option<(Tag, bool)>)
    ensures r == ParseTag(raw)
  {
    var trimmed := TrimSpace(raw);
    if trimmed == "" {
      return None;
    }
    if HasSuffix(trimmed, '/') {
      trimmed := TrimSpace(trimmed[..|trimmed| - 1]);
    }
    var closeTag := HasPrefix(trimmed, '/');
    if closeTag {
      trimmed := TrimSpace(trimmed[1..]);
    }
    var parts := SplitArgs(trimmed);
    if parts == None || parts.value[0] == "" {
      return None;
    }
    return Some((Tag(ToLower(parts.value[0]), parts.value[1..], raw), closeTag));
  }

  predicate SelfCloses(tag: Tag, raw: string) {
    IsSelfClosingTag(tag.name) || HasSuffix(TrimSpace(raw), '/')
  }

  // ----- nodes

  function Flush(text: string): seq<Node> {
    if text == "" then [] else [Text(text)]
  }

  /** What parseNodes does at a position, and the position it goes on from. */
  datatype Step = Literal(text: string, next: nat) | Closes(next: nat) | Opens(tag: Tag, selfCloses: bool, next: nat)

  function Next(s: string, pos: nat, closing: string): (step: Step)
    requires pos < |s|
    ensures pos < step.next <= |s|
    ensures step.Closes? ==> closing != ""
  {
    if s[pos] == '\\' && pos + 1 < |s| && (s[pos + 1] == '<' || s[pos + 1] == '\\') then Literal([s[pos + 1]], pos + 2)
    else if s[pos] != '<' then Literal([s[pos]], pos + 1)
    else match TagEnd(s, pos + 1, None)
      case None => Literal([s[pos]], pos + 1)
      case Some(end) => TagStep(s[pos + 1..end], s[pos..end + 1], closing, end + 1)
  }

  /** What a tag does, given its text without and with the angle brackets. */
  function TagStep(raw: string, whole: string, closing: string, next: nat): (step: Step)
    ensures step.next == next
    ensures step.Closes? ==> closing != ""
  {
    match ParseTag(raw)
    case None => Literal(whole, next)
    case Some((tag, closeTag)) =>
      if !closeTag then Opens(tag, SelfCloses(tag, raw), next)
      else if closing != "" && TagBase(tag.name) == closing then Closes(next)
      else Literal(whole, next)
  }

  /** The nodes from pos up to the closing tag, and the position after it; text is what has been
      read of a text node so far.  With no closing tag to look for, the whole input is consumed. */
  function Parse(s: string, pos: nat, closing: string, text: string): (r: (seq<Node>, nat))
    requires pos <= |s|
    ensures pos <= r.1 <= |s|
    ensures closing == "" ==> r.1 == |s|
    decreases |s| - pos
  {
    if pos == |s| then (Flush(text), pos)
    else match Next(s, pos, closing)
      case Literal(more, next) => Parse(s, next, closing, text + more)
      case Closes(next) => (Flush(text), next)
      case Opens(tag, selfCloses, next) =>
        var (children, after) := if selfCloses then ([], next) else Parse(s, next, TagBase(tag.name), "");
        AfterNode(text, Element(tag, children), Parse(s, after, closing, ""))
  }

  /** A finished text node and an element, put before the nodes of the rest. */
  function AfterNode(text: string, node: Node, r: (seq<Node>, nat)): (seq<Node>, nat) {
    (Flush(text) + [node] + r.0, r.1)
  }

  /** Nodes already parsed, put before the nodes of the rest. */
  function After(out: seq<Node>, r: (seq<Node>, nat)): (seq<Node>, nat) {
    (out + r.0, r.1)
  }

  lemma AfterNone(r: (seq<Node>, nat))
    ensures After([], r) == r
  {
    assert [] + r.0 == r.0;
  }

  lemma AfterAfter(out: seq<Node>, text: string, node: Node, r: (seq<Node>, nat))
    ensures After(out, AfterNode(text, node, r)) == After(out + Flush(text) + [node], r)
  {
    assert out + (Flush(text) + [node] + r.0) == out + Flush(text) + [node] + r.0;
  }

  /** One step of the parse. */
  lemma ParseStep(s: string, pos: nat, closing: string, text: string)
    requires pos < |s|
    ensures var step := Next(s, pos, closing);
      && (step.Literal? ==> Parse(s, pos, closing, text) == Parse(s, step.next, closing, text + step.text))
      && (step.Closes? ==> Parse(s, pos, closing, text) == (Flush(text), step.next))
      && (step.Opens? && step.selfCloses ==>
            Parse(s, pos, closing, text)
            == AfterNode(text, Element(step.tag, []), Parse(s, step.next, closing, "")))
      && (step.Opens? && !step.selfCloses ==>
            var inside := Parse(s, step.next, TagBase(step.tag.name), "");
            Parse(s, pos, closing, text)
            == AfterNode(text, Element(step.tag, inside.0), Parse(s, inside.1, closing, "")))
  {}

  lemma ParseEnd(s: string, closing: string, text: string)
    ensures Parse(s, |s|, closing, text) == (Flush(text), |s|)
  {}

  method ParseNodes(input: string, start: nat, closing: string) returns (nodes: seq<Node>, next: nat)
    requires start <= |input|
    ensures (nodes, next) == Parse(input, start, closing, "")
    decreases |input| - start
  {
    hide ParseTag, SelfCloses, Flush, TagEnd, After, AfterNode, Parse, TagBase;
    var out: seq<Node> := [];
    var text := "";
    var pos := start;
    AfterNone(Parse(input, start, closing, ""));
    while pos < |input|
      invariant start <= pos <= |input|
      invariant Parse(input, start, closing, "") == After(out, Parse(input, pos, closing, text))
      decreases |input| - pos
    {
      ParseStep(input, pos, closing, text);
      if input[pos] == '\\' {
        if pos + 1 < |input| && (input[pos + 1] == '<' || input[pos + 1] == '\\') {
          text := text + [input[pos + 1]];
          pos := pos + 2;
          continue;
        }
        text := text + [input[pos]];
        pos := pos + 1;
        continue;
      }
      if input[pos] != '<' {
        text := text + [input[pos]];
        pos := pos + 1;
        continue;
      }
      var end := FindTagEnd(input, pos + 1);
      if end < 0 {
        text := text + [input[pos]];
        pos := pos + 1;
        continue;
      }
      var raw := input[pos + 1..end];
      ghost var step := TagStep(raw, input[pos..end + 1], closing, end + 1);
      assert Next(input, pos, closing) == step;
      var parsed := ParseRawTag(raw);
      if parsed == None {
        text := text + input[pos..end + 1];
        pos := end + 1;
        continue;
      }
      var (tag, closeTag) := parsed.value;
      if closeTag {
        if closing != "" && TagBase(tag.name) == closing {
          DoneIs(out, text, end + 1);
          return out + Flush(text), end + 1;
        }
        text := text + input[pos..end + 1];
        pos := end + 1;
        continue;
      }
      ghost var before := out;
      out := out + Flush(text);
      pos := end + 1;
      if SelfCloses(tag, raw) {
        out := out + [Element(tag, [])];
        AfterAfter(before, text, Element(tag, []), Parse(input, pos, closing, ""));
        text := "";
        continue;
      }
      var children, next := ParseNodes(input, pos, TagBase(tag.name));
      out := out + [Element(tag, children)];
      AfterAfter(before, text, Element(tag, children), Parse(input, next, closing, ""));
      text := "";
      pos := next;
    }
    ParseEnd(input, closing, text);
    DoneIs(out, text, pos);
    return out + Flush(text), pos;
  }

  lemma DoneIs(out: seq<Node>, text: string, pos: nat)
    ensures After(out, (Flush(text), pos)) == (out + Flush(text), pos)
  {}
}
