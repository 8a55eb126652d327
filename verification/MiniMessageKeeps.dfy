/** The parse of MiniMessage loses nothing: a tree spells the input it was parsed from. */
module MiniMessageKeeps {
  import opened Wrappers
  import opened MiniMessage
  import opened MiniMessagePrint

  // ----- what a tree spells

  /** s[pos..end] is the text, but for backslashes that escape a '<' or a backslash. */
  ghost predicate SpellsText(s: string, pos: nat, text: string, end: nat)
    decreases |text|
  {
    && pos <= end <= |s|
    && if text == "" then pos == end
       else
         || (pos < end && s[pos] == text[0] && SpellsText(s, pos + 1, text[1..], end))
         || (pos + 1 < end && s[pos] == '\\' && s[pos + 1] == text[0] && text[0] in {'<', '\\'}
             && SpellsText(s, pos + 2, text[1..], end))
  }

  /** s[pos..end] is the nodes in order, each element as its tag, its nodes and a closing tag. */
  ghost predicate Spells(s: string, pos: nat, nodes: seq<Node>, end: nat)
    decreases nodes, 0
  {
    if nodes == [] then pos == end
    else exists mid | pos <= mid <= end :: SpellsNode(s, pos, nodes[0], mid) && Spells(s, mid, nodes[1..], end)
  }

  ghost predicate SpellsNode(s: string, pos: nat, node: Node, end: nat)
    decreases node, 1
  {
    match node
    case Text(text) => text != "" && SpellsText(s, pos, text, end)
    case Element(tag, children) =>
      var inside := pos + |tag.literal| + 2;
      && OpensAt(s, pos, tag)
      && if SelfCloses(tag, tag.literal) then children == [] && end == inside
         else exists mid | inside <= mid <= end :: Spells(s, inside, children, mid) && ClosesAt(s, mid, TagBase(tag.name), end)
  }

  /** The tag stands at pos, as it is written. */
  ghost predicate OpensAt(s: string, pos: nat, tag: Tag) {
    && pos + |tag.literal| + 2 <= |s|
    && s[pos..pos + |tag.literal| + 2] == "<" + tag.literal + ">"
    && ParseTag(tag.literal) == Some((tag, false))
  }

  /** Either the input ends at pos, or a closing tag of that name stands there up to end. */
  ghost predicate ClosesAt(s: string, pos: nat, name: string, end: nat) {
    || (pos == end == |s|)
    || (&& pos + 1 < end <= |s| && s[pos] == '<' && TagEnd(s, pos + 1, None) == Some(end - 1)
        && ParseTag(s[pos + 1..end - 1]).Some? && ParseTag(s[pos + 1..end - 1]).value.1
        && name != "" && TagBase(ParseTag(s[pos + 1..end - 1]).value.0.name) == name)
  }

  // ----- pieces

  lemma {:induction false} SpellsSame(s: string, pos: nat, end: nat)
    requires pos <= end <= |s|
    ensures SpellsText(s, pos, s[pos..end], end)
    decreases end - pos
  {
    if pos < end {
      SpellsSame(s, pos + 1, end);
      assert s[pos..end][1..] == s[pos + 1..end];
    }
  }

  lemma {:induction false} SpellsMore(s: string, pos: nat, text: string, mid: nat, more: string, end: nat)
    requires SpellsText(s, pos, text, mid) && SpellsText(s, mid, more, end)
    ensures SpellsText(s, pos, text + more, end)
    decreases |text|
  {
    if text == "" {
      assert text + more == more;
    } else {
      assert (text + more)[1..] == text[1..] + more;
      if pos < mid && s[pos] == text[0] && SpellsText(s, pos + 1, text[1..], mid) {
        SpellsMore(s, pos + 1, text[1..], mid, more, end);
      } else {
        SpellsMore(s, pos + 2, text[1..], mid, more, end);
      }
    }
  }

  lemma SpellsFlush(s: string, pos: nat, text: string, end: nat)
    requires SpellsText(s, pos, text, end)
    ensures Spells(s, pos, Flush(text), end)
  {
    if text != "" {
      assert Flush(text)[0] == Text(text) && Flush(text)[1..] == [];
      assert SpellsNode(s, pos, Flush(text)[0], end) && Spells(s, end, [], end);
    }
  }

  lemma SpellsOneText(s: string, pos: nat, text: string, end: nat)
    requires SpellsText(s, pos, text, end) && text != ""
    ensures pos <= end && SpellsNode(s, pos, Text(text), end)
  {}

  /** Read text, a node and the rest, one after the other. */
  lemma SpellsAfterNode(s: string, pos: nat, text: string, at: nat, node: Node, mid: nat, rest: seq<Node>, end: nat)
    requires SpellsText(s, pos, text, at) && SpellsNode(s, at, node, mid) && Spells(s, mid, rest, end)
    requires at <= mid <= end
    ensures Spells(s, pos, Flush(text) + [node] + rest, end)
  {
    assert text == "" ==> pos == at;
    hide SpellsNode, SpellsText;
    var nodes := [node] + rest;
    assert nodes[0] == node && nodes[1..] == rest;
    assert Spells(s, at, nodes, end);
    if text == "" {
      assert Flush(text) + [node] + rest == nodes;
    } else {
      var all := Flush(text) + [node] + rest;
      assert all[0] == Text(text) && all[1..] == nodes;
      SpellsOneText(s, pos, text, at);
    }
  }

  /** What one step reads. */
  lemma StepSpells(s: string, pos: nat, closing: string)
    requires pos < |s|
    ensures var step := Next(s, pos, closing);
      && (step.Literal? ==> SpellsText(s, pos, step.text, step.next))
      && (step.Closes? ==> ClosesAt(s, pos, closing, step.next))
      && (step.Opens? ==> OpensAt(s, pos, step.tag) && step.next == pos + |step.tag.literal| + 2
                          && step.selfCloses == SelfCloses(step.tag, step.tag.literal))
  {
    hide ParseTag, SelfCloses, TagBase;
    SpellsSame(s, pos, pos + 1);
    assert s[pos..pos + 1] == [s[pos]];
    if pos + 1 < |s| && s[pos] == '\\' && s[pos + 1] in {'<', '\\'} {
      assert SpellsText(s, pos + 2, "", pos + 2);
      assert [s[pos + 1]][1..] == "";
    } else if s[pos] == '<' && TagEnd(s, pos + 1, None).Some? {
      var end := TagEnd(s, pos + 1, None).value;
      SpellsSame(s, pos, end + 1);
      var raw := s[pos + 1..end];
      assert s[pos..end + 1] == "<" + raw + ">";
      LiteralIsRaw(raw);
    }
  }

  lemma LiteralIsRaw(raw: string)
    ensures ParseTag(raw).Some? ==> ParseTag(raw).value.0.literal == raw
  {}

  /** From any position: text already read and what the parse gives spell the input up to where the
      parse goes on, but for the closing tag that ended it. */
  lemma {:induction false} ParseSpells(s: string, start: nat, pos: nat, closing: string, text: string) returns (mid: nat)
    requires start <= pos <= |s| && SpellsText(s, start, text, pos)
    ensures var (nodes, end) := Parse(s, pos, closing, text);
      start <= mid <= end && Spells(s, start, nodes, mid) && ClosesAt(s, mid, closing, end)
    decreases |s| - pos
  {
    hide Parse, Next, ParseTag, SelfCloses, TagBase, SpellsText, Spells, SpellsNode, OpensAt, ClosesAt;
    if pos == |s| {
      ParseEnd(s, closing, text);
      SpellsFlush(s, start, text, pos);
      EndCloses(s, closing);
      return pos;
    }
    ParseStep(s, pos, closing, text);
    StepSpells(s, pos, closing);
    match Next(s, pos, closing)
    case Literal(more, next) =>
      SpellsMore(s, start, text, pos, more, next);
      mid := ParseSpells(s, start, next, closing, text + more);
    case Closes(next) =>
      SpellsFlush(s, start, text, pos);
      mid := pos;
    case Opens(tag, selfCloses, next) =>
      Nothing(s, next);
      if selfCloses {
        ElementSpells(s, pos, tag, [], next, next, next);
        mid := ParseSpells(s, next, next, closing, "");
        SpellsAfterNode(s, start, text, pos, Element(tag, []), next, Parse(s, next, closing, "").0, mid);
      } else {
        var inside := Parse(s, next, TagBase(tag.name), "");
        var innerEnd := ParseSpells(s, next, next, TagBase(tag.name), "");
        ElementSpells(s, pos, tag, inside.0, next, innerEnd, inside.1);
        Nothing(s, inside.1);
        mid := ParseSpells(s, inside.1, inside.1, closing, "");
        SpellsAfterNode(s, start, text, pos, Element(tag, inside.0), inside.1, Parse(s, inside.1, closing, "").0, mid);
      }
  }

  lemma EndCloses(s: string, closing: string)
    ensures ClosesAt(s, |s|, closing, |s|)
  {}

  lemma Nothing(s: string, pos: nat)
    requires pos <= |s|
    ensures SpellsText(s, pos, "", pos)
  {}

  lemma ElementSpells(s: string, pos: nat, tag: Tag, children: seq<Node>, inside: nat, mid: nat, end: nat)
    requires OpensAt(s, pos, tag) && inside == pos + |tag.literal| + 2 && inside <= mid <= end
    requires if SelfCloses(tag, tag.literal) then children == [] && end == inside
             else Spells(s, inside, children, mid) && ClosesAt(s, mid, TagBase(tag.name), end)
    ensures SpellsNode(s, pos, Element(tag, children), end)
  {
    hide SpellsText, Spells, OpensAt, ClosesAt, ParseTag, SelfCloses, TagBase;
  }

  /** Every input is spelled by its tree: only closing tags that close something and escaping
      backslashes are not in a text or a tag of it. */
  lemma NothingIsLost(s: string)
    ensures Spells(s, 0, Parse(s, 0, "", "").0, |s|)
  {
    Nothing(s, 0);
    var mid := ParseSpells(s, 0, 0, "", "");
  }

  // ----- inputs that are text alone

  /** No slice cut at a '<' from pos on is an opening tag: it is no tag, or closes something. */
  ghost predicate NoTagOpens(s: string, pos: nat)
    requires pos <= |s|
    decreases |s| - pos
  {
    if pos == |s| then true
    else if s[pos] != '<' || TagEnd(s, pos + 1, None) == None then NoTagOpens(s, pos + 1)
    else
      var end := TagEnd(s, pos + 1, None).value;
      (ParseTag(s[pos + 1..end]) == None || ParseTag(s[pos + 1..end]).value.1) && NoTagOpens(s, end + 1)
  }

  predicate AllText(nodes: seq<Node>) {
    forall i | 0 <= i < |nodes| :: nodes[i].Text?
  }

  lemma {:induction false} TextAloneFrom(s: string, pos: nat, text: string)
    requires pos <= |s| && '\\' !in s
    ensures NoTagOpens(s, pos) ==> Parse(s, pos, "", text).0 == Flush(text + s[pos..])
    ensures !NoTagOpens(s, pos) ==> !AllText(Parse(s, pos, "", text).0)
    decreases |s| - pos
  {
    hide Parse, ParseTag, TagBase, SelfCloses, Flush;
    if pos == |s| {
      ParseEnd(s, "", text);
      assert text + s[pos..] == text;
    } else {
      ParseStep(s, pos, "", text);
      match Next(s, pos, "")
      case Literal(more, next) =>
        assert text + s[pos..] == text + more + s[next..];
        TextAloneFrom(s, next, text + more);
      case Opens(tag, selfCloses, next) =>
        var inside := if selfCloses then ([], next) else Parse(s, next, TagBase(tag.name), "");
        ElementInside(text, Element(tag, inside.0), Parse(s, inside.1, "", ""));
    }
  }

  lemma ElementInside(text: string, node: Node, r: (seq<Node>, nat))
    requires node.Element?
    ensures !AllText(AfterNode(text, node, r).0)
  {
    assert AfterNode(text, node, r).0[|Flush(text)|] == node;
  }

  /** Malformed tags, and closing tags that close nothing, stay as they are written: an input without
      backslashes is one text exactly if no slice of it is an opening tag. */
  lemma TextAlone(s: string)
    requires '\\' !in s
    ensures Parse(s, 0, "", "").0 == (if s == "" then [] else [Text(s)]) <==> NoTagOpens(s, 0)
  {
    hide Parse, NoTagOpens;
    TextAloneFrom(s, 0, "");
    assert "" + s[0..] == s;
  }

  // ----- the forms of a tag

  predicate Blank(s: string) {
    forall i | 0 <= i < |s| :: IsSpace(s[i])
  }

  lemma {:induction false} TrimsBlank(a: string, s: string, b: string)
    requires Blank(a) && Blank(b) && s != "" && !IsSpace(s[0]) && !IsSpace(s[|s| - 1])
    ensures TrimSpace(a + s + b) == s
  {
    TrimsLeft(a, s + b);
    assert a + s + b == a + (s + b);
    TrimsRight(s, b);
  }

  lemma {:induction false} TrimsLeft(a: string, s: string)
    requires Blank(a) && s != "" && !IsSpace(s[0])
    ensures TrimLeft(a + s) == s
  {
    if a == "" {
      assert a + s == s;
    } else {
      assert (a + s)[1..] == a[1..] + s;
      TrimsLeft(a[1..], s);
    }
  }

  lemma {:induction false} TrimsRight(s: string, b: string)
    requires Blank(b) && s != "" && !IsSpace(s[|s| - 1])
    ensures TrimRight(s + b) == s
  {
    if b == "" {
      assert s + b == s;
    } else {
      assert (s + b)[..|s + b| - 1] == s + b[..|b| - 1];
      TrimsRight(s, b[..|b| - 1]);
    }
  }

  /** A name as it may be written, in any case. */
  predicate WritableName(name: string) {
    name != "" && forall i | 0 <= i < |name| :: WritableRune(name[i])
  }

  function OneIf(b: bool, c: char): string {
    if b then [c] else ""
  }

  /** The same name with A to Z in lower case. */
  predicate InLowerCase(name: string, lower: string) {
    && |lower| == |name|
    && forall i | 0 <= i < |name| ::
         lower[i] as int == if 'A' <= name[i] <= 'Z' then name[i] as int + 32 else name[i] as int
  }

  lemma LowerIs(name: string, lower: string)
    requires InLowerCase(name, lower)
    ensures ToLower(name) == lower
  {}

  /** However a tag is written, in any case, with spaces around it, it is the tag of its lower-case
      name and its arguments; a '/' before it makes it a closing tag, and a '/' behind it one that
      closes itself. */
  lemma EveryFormParses(a: string, closes: bool, name: string, lower: string, args: seq<string>, slash: bool, b: string)
    requires Blank(a) && Blank(b) && WritableName(name) && InLowerCase(name, lower)
    ensures var raw := a + (OneIf(closes, '/') + PrintTag(name, args) + OneIf(slash, '/')) + b;
      && ParseTag(raw) == Some((Tag(lower, args, raw), closes))
      && SelfCloses(Tag(lower, args, raw), raw) == (IsSelfClosingTag(lower) || slash)
  {
    LowerIs(name, lower);
    var bare := PrintTag(name, args);
    var start := OneIf(closes, '/') + bare;
    var body := start + OneIf(slash, '/');
    BareEnds(name, args);
    PrintedTagSplits(name, args);
    hide PrintTag, PrintArgs, IsSelfClosingTag, Split, TrimSpace, HasSuffix, HasPrefix, ToLower, InLowerCase;
    FormTrims(a, body, start, bare, slash, closes, b);
    FormIs(a + body + b, body, start, bare, slash, closes);
    ParsesAs(a + body + b, bare, closes, name, args);
  }

  lemma FormTrims(a: string, body: string, start: string, bare: string, slash: bool, closes: bool, b: string)
    requires Blank(a) && Blank(b) && bare != "" && !IsSpace(bare[0]) && !IsSpace(bare[|bare| - 1])
    requires bare[0] != '/' && bare[|bare| - 1] != '/'
    requires start == OneIf(closes, '/') + bare && body == start + OneIf(slash, '/')
    ensures TrimSpace(a + body + b) == body != "" && TrimSpace(start) == start && TrimSpace(bare) == bare
    ensures HasSuffix(body, '/') == slash && HasPrefix(start, '/') == closes
    ensures start == (if slash then body[..|body| - 1] else body)
    ensures bare == (if closes then start[1..] else start)
  {
    hide TrimSpace;
    assert start[0] == if closes then '/' else bare[0];
    assert start[|start| - 1] == bare[|bare| - 1];
    assert body[0] == start[0] && body[|body| - 1] == if slash then '/' else bare[|bare| - 1];
    TrimsBlank(a, body, b);
    TrimNothing(start);
    TrimNothing(bare);
  }

  lemma ParsesAs(raw: string, bare: string, closes: bool, name: string, args: seq<string>)
    requires TrimSpace(raw) != "" && Inner(raw) == (bare, closes)
    requires Split(bare, 0, None, "") == Some([name] + args) && name != ""
    ensures ParseTag(raw) == Some((Tag(ToLower(name), args, raw), closes))
  {
    hide TrimSpace, Inner, Split;
    assert ([name] + args)[1..] == args;
  }

  lemma FormIs(raw: string, body: string, start: string, bare: string, slash: bool, closes: bool)
    requires TrimSpace(raw) == body && TrimSpace(start) == start && TrimSpace(bare) == bare
    requires HasSuffix(body, '/') == slash && HasPrefix(start, '/') == closes
    requires start == if slash then body[..|body| - 1] else body
    requires bare == if closes then start[1..] else start
    ensures Inner(raw) == (bare, closes)
  {
    hide TrimSpace;
  }

  lemma BareEnds(name: string, args: seq<string>)
    requires WritableName(name)
    ensures var bare := PrintTag(name, args);
      && bare != "" && !IsSpace(bare[0]) && bare[0] != '/'
      && !IsSpace(bare[|bare| - 1]) && bare[|bare| - 1] != '/'
  {
    var bare := PrintTag(name, args);
    PrintArgsEnds(args);
    assert bare[0] == name[0];
    assert bare[|bare| - 1] == if args == [] then name[|name| - 1] else '"';
  }

  /** A tag's name is compared without a colon and what follows it. */
  lemma {:induction false} TagBaseIs(base: string, rest: string)
    requires ':' !in base
    ensures TagBase(base) == base && TagBase(base + ":" + rest) == base
  {
    var all := base + ":" + rest;
    if base != "" {
      TagBaseIs(base[1..], rest);
      assert base[0] in base && all[1..] == base[1..] + ":" + rest;
    }
  }

  // ----- quotes

  /** An argument in quotes of either kind, the quote and the backslash escaped. */
  function QuotedWith(q: char, arg: string): string {
    [q] + QuoteTail(q, arg)
  }

  function QuoteTail(q: char, arg: string): string {
    if arg == "" then [q]
    else Escaped(q, arg[0]) + QuoteTail(q, arg[1..])
  }

  function Escaped(q: char, c: char): string {
    if c == q || c == '\\' then ['\\', c] else [c]
  }

  /** Whatever is in quotes of either kind is one argument, and ends no tag. */
  lemma EitherQuote(q: char, arg: string)
    requires q == '\'' || q == '"'
    ensures Split(QuotedWith(q, arg), 0, None, "") == Some([arg])
    ensures TagEnd(QuotedWith(q, arg) + ">", 0, None) == Some(|QuotedWith(q, arg)|)
  {
    var s := QuotedWith(q, arg);
    var t := s + ">";
    assert s[0] == t[0] == q && s[1..] == QuoteTail(q, arg) && t[1..|s|] == QuoteTail(q, arg);
    QuoteScans(q, s, 1, arg, "");
    QuoteScans(q, t, 1, arg, "");
    assert "" + arg == arg;
    assert t[|s|] == '>';
  }

  lemma {:induction false} QuoteScans(q: char, s: string, pos: nat, arg: string, current: string)
    requires q == '\'' || q == '"'
    requires Has(s, pos, QuoteTail(q, arg))
    ensures TagEnd(s, pos, Some(q)) == TagEnd(s, pos + |QuoteTail(q, arg)|, None)
    ensures Split(s, pos, Some(q), current) == Split(s, pos + |QuoteTail(q, arg)|, None, current + arg)
    decreases |arg|
  {
    hide TagEnd, Split, Has, QuoteTail;
    QuoteTailStep(q, arg);
    if arg == "" {
      assert current + arg == current;
      QuoteCloses(q, s, pos, current);
    } else {
      var head := Escaped(q, arg[0]);
      HasParts(s, pos, head, QuoteTail(q, arg[1..]));
      QuotedRune(q, s, pos, arg[0], current);
      QuoteScans(q, s, pos + |head|, arg[1..], current + [arg[0]]);
      assert current + [arg[0]] + arg[1..] == current + arg;
    }
  }

  lemma QuoteTailStep(q: char, arg: string)
    ensures QuoteTail(q, arg) == if arg == "" then [q] else Escaped(q, arg[0]) + QuoteTail(q, arg[1..])
  {}

  lemma QuoteCloses(q: char, s: string, pos: nat, current: string)
    requires IsQuote(q) && Has(s, pos, [q])
    ensures TagEnd(s, pos, Some(q)) == TagEnd(s, pos + 1, None)
    ensures Split(s, pos, Some(q), current) == Split(s, pos + 1, None, current)
  {
    HasRune(s, pos, q);
  }

  lemma QuotedRune(q: char, s: string, pos: nat, c: char, current: string)
    requires IsQuote(q) && Has(s, pos, Escaped(q, c))
    ensures TagEnd(s, pos, Some(q)) == TagEnd(s, pos + |Escaped(q, c)|, Some(q))
    ensures Split(s, pos, Some(q), current) == Split(s, pos + |Escaped(q, c)|, Some(q), current + [c])
  {
    var head := Escaped(q, c);
    assert s[pos..pos + |head|] == head;
    assert s[pos] == head[0] && (|head| == 2 ==> s[pos + 1] == head[1]);
  }
}
