/** The parser of minimessage.go against a printer: printed trees are parsed back. */
module MiniMessagePrint {
  import opened Wrappers
  import opened MiniMessage

  // ----- the two scanners agree on quotes

  /** The quote still open at the end of s, if it starts inside the given quote. */
  function OpenQuote(s: string, quote: Option<char>): Option<char> {
    if s == "" then quote
    else if quote.Some? then
      if s[0] == '\\' then OpenQuote(s[Min(2, |s|)..], quote)
      else OpenQuote(s[1..], if Some(s[0]) == quote then None else quote)
    else OpenQuote(s[1..], if IsQuote(s[0]) then Some(s[0]) else None)
  }

  /** splitArgs fails exactly on a text that leaves a quote open. */
  lemma {:induction false} SplitFailsOnOpenQuote(s: string, i: nat, quote: Option<char>, current: string)
    requires i <= |s|
    ensures Split(s, i, quote, current).Some? <==> OpenQuote(s[i..], quote) == None
    decreases |s| - i
  {
    if i < |s| {
      var t := s[i..];
      assert t[1..] == s[i + 1..];
      if quote.Some? {
        if s[i] == '\\' {
          if i + 1 < |s| {
            assert t[2..] == s[i + 2..];
            SplitFailsOnOpenQuote(s, i + 2, quote, current + [s[i + 1]]);
          } else {
            assert t[1..] == "" && s[i + 1..] == "";
          }
        } else if Some(s[i]) == quote {
          SplitFailsOnOpenQuote(s, i + 1, None, current);
        } else {
          SplitFailsOnOpenQuote(s, i + 1, quote, current + [s[i]]);
        }
      } else if IsQuote(s[i]) {
        SplitFailsOnOpenQuote(s, i + 1, Some(s[i]), current);
      } else if s[i] == ':' {
        SplitFailsOnOpenQuote(s, i + 1, None, "");
      } else {
        SplitFailsOnOpenQuote(s, i + 1, None, current + [s[i]]);
      }
    }
  }

  /** findTagEnd stops only where no quote is open. */
  lemma {:induction false} TagEndClosesQuotes(s: string, pos: nat, quote: Option<char>, end: nat)
    requires pos <= |s| && TagEnd(s, pos, quote) == Some(end)
    ensures OpenQuote(s[pos..end], quote) == None
    decreases |s| - pos
  {
    var t := s[pos..end];
    if pos < end {
      assert t[1..] == s[pos + 1..end];
    }
    if quote.Some? {
      if s[pos] == '\\' {
        assert pos + 2 <= end;
        assert t[2..] == s[pos + 2..end];
        TagEndClosesQuotes(s, pos + 2, quote, end);
      } else {
        TagEndClosesQuotes(s, pos + 1, if Some(s[pos]) == quote then None else quote, end);
      }
    } else if s[pos] != '>' {
      TagEndClosesQuotes(s, pos + 1, if IsQuote(s[pos]) then Some(s[pos]) else None, end);
    }
  }

  /** Cutting a last rune that is no quote off a text with all quotes closed leaves them closed. */
  lemma {:induction false} DropLastKeepsClosed(s: string, quote: Option<char>)
    requires s != "" && !IsQuote(s[|s| - 1]) && (quote.Some? ==> IsQuote(quote.value))
    requires OpenQuote(s, quote) == None
    ensures OpenQuote(s[..|s| - 1], quote) == None
    decreases |s|
  {
    var t := s[..|s| - 1];
    if |s| > 1 {
      assert t[1..] == s[1..][..|s| - 2];
      if quote.Some? && s[0] == '\\' {
        assert |s| > 2 && t[2..] == s[2..][..|s| - 3];
        DropLastKeepsClosed(s[2..], quote);
      } else {
        DropLastKeepsClosed(s[1..],
          if quote.Some? then (if Some(s[0]) == quote then None else quote)
          else if IsQuote(s[0]) then Some(s[0]) else None);
      }
    }
  }

  ghost predicate Closed(s: string) {
    OpenQuote(s, None) == None
  }

  lemma {:induction false} TrimKeepsClosed(s: string)
    requires Closed(s)
    ensures Closed(TrimSpace(s))
  {
    TrimLeftKeepsClosed(s);
    TrimRightKeepsClosed(TrimLeft(s));
  }

  lemma {:induction false} TrimLeftKeepsClosed(s: string)
    requires Closed(s)
    ensures Closed(TrimLeft(s))
  {
    if s != "" && IsSpace(s[0]) {
      TrimLeftKeepsClosed(s[1..]);
    }
  }

  lemma {:induction false} TrimRightKeepsClosed(s: string)
    requires Closed(s)
    ensures Closed(TrimRight(s))
  {
    if s != "" && IsSpace(s[|s| - 1]) {
      DropLastKeepsClosed(s, None);
      TrimRightKeepsClosed(s[..|s| - 1]);
    }
  }

  /** On a slice that findTagEnd cut out, splitArgs never meets a quote left open, whatever
      parseTag trims off first; so such a slice is a tag exactly if its name is not empty. */
  lemma SlicesSplit(s: string, pos: nat, end: nat)
    requires pos <= |s| && TagEnd(s, pos, None) == Some(end)
    ensures Split(Inner(s[pos..end]).0, 0, None, "").Some?
    ensures ParseTag(s[pos..end]).Some? <==>
            TrimSpace(s[pos..end]) != "" && Split(Inner(s[pos..end]).0, 0, None, "").value[0] != ""
  {
    var raw := s[pos..end];
    TagEndClosesQuotes(s, pos, None, end);
    TrimKeepsClosed(raw);
    var t := TrimSpace(raw);
    if HasSuffix(t, '/') {
      DropLastKeepsClosed(t, None);
      t := t[..|t| - 1];
      TrimKeepsClosed(t);
      t := TrimSpace(t);
    }
    if HasPrefix(t, '/') {
      TrimKeepsClosed(t[1..]);
    }
    var inner := Inner(raw).0;
    assert inner[0..] == inner;
    SplitFailsOnOpenQuote(inner, 0, None, "");
  }

  // ----- the printer

  predicate TextSpecial(c: char) {
    c == '<' || c == '\\'
  }

  predicate ArgSpecial(c: char) {
    c == '"' || c == '\\'
  }

  function EscapeText(t: string): string {
    if t == "" then "" else (if TextSpecial(t[0]) then ['\\', t[0]] else [t[0]]) + EscapeText(t[1..])
  }

  function EscapeArg(a: string): string {
    if a == "" then "" else (if ArgSpecial(a[0]) then ['\\', a[0]] else [a[0]]) + EscapeArg(a[1..])
  }

  function Quoted(a: string): string {
    ['"'] + EscapeArg(a) + ['"']
  }

  function PrintArgs(args: seq<string>): string {
    if args == [] then "" else [':'] + Quoted(args[0]) + PrintArgs(args[1..])
  }

  /** What is between the angle brackets. */
  function PrintTag(name: string, args: seq<string>): string {
    name + PrintArgs(args)
  }

  function CloseTag(name: string): string {
    ['<', '/'] + name + ['>']
  }

  function PrintNode(node: Node): string
    decreases node, 1
  {
    match node
    case Text(t) => EscapeText(t)
    case Element(tag, children) =>
      ['<'] + PrintTag(tag.name, tag.args) + ['>']
      + if IsSelfClosingTag(tag.name) then "" else PrintAll(children) + CloseTag(tag.name)
  }

  function PrintAll(nodes: seq<Node>): string
    decreases nodes, 0
  {
    if nodes == [] then "" else PrintNode(nodes[0]) + PrintAll(nodes[1..])
  }

  /** A lower-case ASCII name without spaces, slashes and the runes that end or separate things. */
  predicate ValidName(name: string) {
    name != "" && forall i | 0 <= i < |name| :: NameRune(name[i])
  }

  predicate NameRune(c: char) {
    WritableRune(c) && LowerChar(c) == c
  }

  /** A rune of a name as it may be written, in any case. */
  predicate WritableRune(c: char) {
    c < '\U{80}' && c != ':' && c != '>' && c != '/' && !IsQuote(c) && !IsSpace(c)
  }

  /** Texts are not empty and not side by side; a tag's literal is its printed form, its name is
      valid, its arguments are any strings; self-closing tags have no children. */
  predicate Normal(nodes: seq<Node>)
    decreases nodes, 0
  {
    nodes == [] ||
    (NormalNode(nodes[0]) && Normal(nodes[1..]) && !(nodes[0].Text? && |nodes| > 1 && nodes[1].Text?))
  }

  predicate NormalNode(node: Node)
    decreases node, 1
  {
    match node
    case Text(t) => t != ""
    case Element(tag, children) =>
      && ValidName(tag.name)
      && tag.literal == PrintTag(tag.name, tag.args)
      && if IsSelfClosingTag(tag.name) then children == [] else Normal(children)
  }

  // ----- printed pieces are scanned as printed

  ghost predicate Has(s: string, pos: nat, piece: string) {
    pos + |piece| <= |s| && s[pos..pos + |piece|] == piece
  }

  lemma HasParts(s: string, pos: nat, a: string, b: string)
    requires Has(s, pos, a + b)
    ensures Has(s, pos, a) && Has(s, pos + |a|, b) && pos + |a| + |b| <= |s|
  {
    var w := s[pos..pos + |a + b|];
    assert w[..|a|] == a && w[|a|..] == b;
  }

  lemma HasRune(s: string, pos: nat, c: char)
    requires Has(s, pos, [c])
    ensures pos < |s| && s[pos] == c
  {
    assert s[pos] == s[pos..pos + 1][0];
  }

  lemma HasSlice(s: string, pos: nat, piece: string)
    requires Has(s, pos, piece)
    ensures pos + |piece| <= |s| && s[pos..pos + |piece|] == piece
  {}

  /** Escaped text is read as the text. */
  lemma {:induction false} TextParses(s: string, pos: nat, t: string, closing: string, read: string)
    requires Has(s, pos, EscapeText(t))
    ensures Parse(s, pos, closing, read) == Parse(s, pos + |EscapeText(t)|, closing, read + t)
    decreases |t|
  {
    hide Parse, Next, TagBase, Has, EscapeText;
    EscapeStep(t);
    if t == "" {
      assert read + t == read;
    } else {
      var head := if TextSpecial(t[0]) then ['\\', t[0]] else [t[0]];
      HasParts(s, pos, head, EscapeText(t[1..]));
      RuneIsNext(s, pos, t[0], closing);
      ParseStep(s, pos, closing, read);
      TextParses(s, pos + |head|, t[1..], closing, read + [t[0]]);
      assert read + [t[0]] + t[1..] == read + t;
    }
  }

  lemma EscapeStep(t: string)
    ensures EscapeText(t)
      == if t == "" then "" else (if TextSpecial(t[0]) then ['\\', t[0]] else [t[0]]) + EscapeText(t[1..])
  {}

  lemma RuneIsNext(s: string, pos: nat, c: char, closing: string)
    requires Has(s, pos, if TextSpecial(c) then ['\\', c] else [c])
    ensures pos < |s| && Next(s, pos, closing) == Literal([c], pos + if TextSpecial(c) then 2 else 1)
  {
    hide TagEnd, TagStep;
    var head := if TextSpecial(c) then ['\\', c] else [c];
    assert s[pos..pos + |head|] == head;
    assert s[pos] == head[0] && (|head| == 2 ==> s[pos + 1] == head[1]);
  }

  lemma {:induction false} NameScans(s: string, pos: nat, name: string, current: string)
    requires Has(s, pos, name) && forall i | 0 <= i < |name| :: WritableRune(name[i])
    ensures TagEnd(s, pos, None) == TagEnd(s, pos + |name|, None)
    ensures Split(s, pos, None, current) == Split(s, pos + |name|, None, current + name)
    decreases |name|
  {
    if name == "" {
      assert current + name == current;
    } else {
      HasParts(s, pos, [name[0]], name[1..]);
      assert [name[0]] + name[1..] == name;
      assert s[pos] == s[pos..pos + 1][0] == name[0];
      NameScans(s, pos + 1, name[1..], current + [name[0]]);
      assert current + [name[0]] + name[1..] == current + name;
    }
  }

  lemma {:induction false} ArgScans(s: string, pos: nat, a: string, current: string)
    requires Has(s, pos, ArgTail(a))
    ensures pos + |ArgTail(a)| <= |s|
    ensures TagEnd(s, pos, Some('"')) == TagEnd(s, pos + |ArgTail(a)|, None)
    ensures Split(s, pos, Some('"'), current) == Split(s, pos + |ArgTail(a)|, None, current + a)
    decreases |a|
  {
    if a == "" {
      assert current + a == current;
      HasRune(s, pos, '"');
    } else {
      var head := if ArgSpecial(a[0]) then ['\\', a[0]] else [a[0]];
      var tail := ArgTail(a[1..]);
      assert ArgTail(a) == head + tail;
      HasParts(s, pos, head, tail);
      assert s[pos..pos + |head|] == head;
      assert s[pos] == head[0] && (|head| == 2 ==> s[pos + 1] == head[1]);
      ArgScans(s, pos + |head|, a[1..], current + [a[0]]);
      assert current + [a[0]] + a[1..] == current + a;
    }
  }

  /** The colon and the quote that start an argument. */
  lemma ArgStarts(s: string, pos: nat, current: string)
    requires Has(s, pos, [':', '"'])
    ensures TagEnd(s, pos, None) == TagEnd(s, pos + 2, Some('"'))
    ensures Split(s, pos, None, current) == PrependAll([current], Split(s, pos + 2, Some('"'), ""))
  {
    assert s[pos..pos + 2] == [':', '"'];
    assert s[pos] == ':' && s[pos + 1] == '"';
  }

  /** A printed argument without the colon and the quote it starts with. */
  function ArgTail(a: string): string {
    EscapeArg(a) + ['"']
  }

  lemma PrintArgsCons(args: seq<string>)
    ensures args == [] ==> PrintArgs(args) == ""
    ensures args != [] ==> PrintArgs(args) == [':', '"'] + (ArgTail(args[0]) + PrintArgs(args[1..]))
  {}

  lemma {:induction false} ArgsScan(s: string, pos: nat, args: seq<string>, current: string)
    requires Has(s, pos, PrintArgs(args))
    ensures TagEnd(s, pos, None) == TagEnd(s, pos + |PrintArgs(args)|, None)
    ensures pos + |PrintArgs(args)| == |s| ==> Split(s, pos, None, current) == Some([current] + args)
    decreases |args|
  {
    hide TagEnd, ArgTail, PrintArgs, Has;
    PrintArgsCons(args);
    if args == [] {
      SplitEnd(s, current);
      assert [current] + args == [current];
    } else {
      var arg, tail := ArgTail(args[0]), PrintArgs(args[1..]);
      hide Split;
      HasParts(s, pos, [':', '"'], arg + tail);
      HasParts(s, pos + 2, arg, tail);
      ArgStarts(s, pos, current);
      ArgScans(s, pos + 2, args[0], "");
      assert "" + args[0] == args[0];
      ArgsScan(s, pos + 2 + |arg|, args[1..], args[0]);
      assert [args[0]] + args[1..] == args;
    }
  }

  lemma SplitEnd(s: string, current: string)
    ensures Split(s, |s|, None, current) == Some([current])
  {}

  // ----- printed tags are tags

  lemma TrimNothing(s: string)
    requires s != "" && !IsSpace(s[0]) && !IsSpace(s[|s| - 1])
    ensures TrimSpace(s) == s
  {}

  lemma {:induction false} TagBaseOfName(name: string)
    requires forall i | 0 <= i < |name| :: NameRune(name[i])
    ensures TagBase(name) == name
  {
    if name != "" {
      TagBaseOfName(name[1..]);
    }
  }

  lemma LowerName(name: string)
    requires forall i | 0 <= i < |name| :: NameRune(name[i])
    ensures ToLower(name) == name
  {}

  lemma {:induction false} PrintArgsEnds(args: seq<string>)
    ensures args != [] ==> PrintArgs(args) != "" && PrintArgs(args)[|PrintArgs(args)| - 1] == '"'
  {
    if args != [] {
      PrintArgsEnds(args[1..]);
    }
  }

  lemma PrintedTagParses(name: string, args: seq<string>)
    requires ValidName(name)
    ensures var raw := PrintTag(name, args);
      && ParseTag(raw) == Some((Tag(name, args, raw), false))
      && SelfCloses(Tag(name, args, raw), raw) == IsSelfClosingTag(name)
  {
    var raw := PrintTag(name, args);
    PrintArgsEnds(args);
    assert raw[0] == name[0];
    assert raw[|raw| - 1] == if args == [] then name[|name| - 1] else '"';
    hide PrintTag, PrintArgs, IsSelfClosingTag, Split;
    TrimNothing(raw);
    assert Inner(raw) == (raw, false);
    PrintedTagSplits(name, args);
    assert ([name] + args)[1..] == args;
    LowerName(name);
  }

  lemma PrintedTagSplits(name: string, args: seq<string>)
    requires forall i | 0 <= i < |name| :: WritableRune(name[i])
    ensures Split(PrintTag(name, args), 0, None, "") == Some([name] + args)
  {
    hide PrintArgs, Split, Has, TagEnd;
    var raw := PrintTag(name, args);
    HasAll(raw);
    HasParts(raw, 0, name, PrintArgs(args));
    NameScans(raw, 0, name, "");
    assert "" + name == name;
    ArgsScan(raw, |name|, args, name);
  }

  lemma HasAll(s: string)
    ensures Has(s, 0, s)
  {
    assert s[0..|s|] == s;
  }

  lemma PrintedCloseParses(name: string)
    requires ValidName(name)
    ensures ParseTag(['/'] + name) == Some((Tag(name, [], ['/'] + name), true))
  {
    var raw := ['/'] + name;
    TrimNothing(raw);
    TrimNothing(name);
    assert raw[1..] == name;
    assert Inner(raw) == (name, true);
    HasAll(name);
    NameScans(name, 0, name, "");
    assert "" + name == name;
    assert Split(name, 0, None, "") == Some([name]);
    assert [name][1..] == [];
    LowerName(name);
  }

  lemma OpeningEnds(s: string, pos: nat, name: string, args: seq<string>)
    requires ValidName(name) && Has(s, pos, ['<'] + PrintTag(name, args) + ['>'])
    ensures var raw := PrintTag(name, args);
      && pos + |raw| + 2 <= |s| && s[pos] == '<' && s[pos + 1..pos + 1 + |raw|] == raw
      && TagEnd(s, pos + 1, None) == Some(pos + 1 + |raw|)
  {
    hide PrintArgs, Has, Split, WritableRune, TagEnd, LowerChar, IsSpace, IsQuote;
    var raw := PrintTag(name, args);
    assert ['<'] + raw + ['>'] == ['<'] + (raw + ['>']);
    HasParts(s, pos, ['<'], raw + ['>']);
    HasRune(s, pos, '<');
    HasParts(s, pos + 1, raw, ['>']);
    HasSlice(s, pos + 1, raw);
    HasRune(s, pos + 1 + |raw|, '>');
    HasParts(s, pos + 1, name, PrintArgs(args));
    NameScans(s, pos + 1, name, "");
    ArgsScan(s, pos + 1 + |name|, args, "");
    TagEndHere(s, pos + 1 + |raw|);
  }

  lemma TagEndHere(s: string, pos: nat)
    requires pos < |s| && s[pos] == '>'
    ensures TagEnd(s, pos, None) == Some(pos)
  {}

  /** A printed opening tag opens that tag. */
  lemma OpeningStep(s: string, pos: nat, name: string, args: seq<string>, closing: string)
    requires ValidName(name) && Has(s, pos, ['<'] + PrintTag(name, args) + ['>'])
    ensures var raw := PrintTag(name, args);
      pos < |s| && Next(s, pos, closing) == Opens(Tag(name, args, raw), IsSelfClosingTag(name), pos + |raw| + 2)
  {
    hide ParseTag, SelfCloses, IsSelfClosingTag, PrintTag, TagEnd, Has, ValidName;
    OpeningEnds(s, pos, name, args);
    PrintedTagParses(name, args);
  }

  /** A printed closing tag closes the node that waits for it. */
  lemma ClosingStep(s: string, pos: nat, name: string)
    requires ValidName(name) && Has(s, pos, CloseTag(name))
    ensures pos < |s| && Next(s, pos, name) == Closes(pos + |name| + 3)
  {
    hide ParseTag, SelfCloses, Has, Split, WritableRune;
    var raw := ['/'] + name;
    assert CloseTag(name) == ['<'] + (raw + ['>']) && raw + ['>'] == ['/'] + (name + ['>']);
    HasParts(s, pos, ['<'], raw + ['>']);
    HasRune(s, pos, '<');
    HasParts(s, pos + 1, raw, ['>']);
    HasSlice(s, pos + 1, raw);
    var end := pos + 1 + |raw|;
    HasRune(s, end, '>');
    HasParts(s, pos + 1, ['/'], name);
    HasRune(s, pos + 1, '/');
    NameScans(s, pos + 2, name, "");
    assert TagEnd(s, pos + 1, None) == Some(end);
    PrintedCloseParses(name);
    TagBaseOfName(name);
  }

  // ----- printed trees are parsed back

  /** The position is where the nodes end: at the end of the input, or before the closing tag. */
  ghost predicate EndsAt(s: string, pos: nat, closing: string) {
    if closing == "" then pos == |s| else ValidName(closing) && Has(s, pos, CloseTag(closing))
  }

  function PastEnd(pos: nat, closing: string): nat {
    if closing == "" then pos else pos + |closing| + 3
  }

  /** At every depth: after what has been read of a text, the printed nodes are read, and then the
      end.  Only a text node may not follow a text that is still being read. */
  lemma {:induction false} NodesParse(s: string, pos: nat, nodes: seq<Node>, closing: string, read: string)
    requires Normal(nodes) && Has(s, pos, PrintAll(nodes)) && EndsAt(s, pos + |PrintAll(nodes)|, closing)
    requires read == "" || nodes == [] || nodes[0].Element?
    ensures Parse(s, pos, closing, read)
            == (Flush(read) + nodes, PastEnd(pos + |PrintAll(nodes)|, closing))
    decreases nodes, 0
  {
    hide Parse, Next, PrintNode, PrintAll, NormalNode, EscapeText, TagBase, Flush, AfterNode, Has;
    PrintAllSteps(nodes);
    FlushSteps(read, nodes);
    if nodes == [] {
      if closing == "" {
        ParseEnd(s, closing, read);
      } else {
        ClosingStep(s, pos, closing);
        ParseStep(s, pos, closing, read);
      }
    } else {
      HasParts(s, pos, PrintNode(nodes[0]), PrintAll(nodes[1..]));
      var next := pos + |PrintNode(nodes[0])|;
      match nodes[0]
      case Text(t) =>
        TextPrints(t);
        TextParses(s, pos, t, closing, read);
        assert read + t == t;
        NodesParse(s, next, nodes[1..], closing, t);
      case Element(tag, children) =>
        ElementParses(s, pos, tag, children, closing, read);
        NodesParse(s, next, nodes[1..], closing, "");
        FlushSteps("", nodes[1..]);
        AfterNodeIs(read, nodes, PastEnd(pos + |PrintAll(nodes)|, closing));
    }
  }

  lemma FlushSteps(read: string, nodes: seq<Node>)
    ensures Flush("") + nodes == nodes
    ensures nodes == [] ==> Flush(read) + nodes == Flush(read)
    ensures nodes != [] && nodes[0].Text? && nodes[0].text != "" ==> Flush(nodes[0].text) + nodes[1..] == nodes
  {
    assert [] + nodes == nodes;
  }

  lemma AfterNodeIs(read: string, nodes: seq<Node>, pos: nat)
    requires nodes != []
    ensures AfterNode(read, nodes[0], (nodes[1..], pos)) == (Flush(read) + nodes, pos)
  {
    assert Flush(read) + [nodes[0]] + nodes[1..] == Flush(read) + nodes;
  }

  lemma PrintAllSteps(nodes: seq<Node>)
    ensures PrintAll(nodes) == if nodes == [] then "" else PrintNode(nodes[0]) + PrintAll(nodes[1..])
  {}

  lemma TextPrints(t: string)
    ensures PrintNode(Text(t)) == EscapeText(t) && (NormalNode(Text(t)) ==> t != "")
  {}

  lemma ElementPrints(tag: Tag, children: seq<Node>)
    requires NormalNode(Element(tag, children))
    ensures PrintNode(Element(tag, children)) == ['<'] + PrintTag(tag.name, tag.args) + ['>']
      + if IsSelfClosingTag(tag.name) then "" else PrintAll(children) + CloseTag(tag.name)
    ensures ValidName(tag.name) && tag == Tag(tag.name, tag.args, PrintTag(tag.name, tag.args))
    ensures if IsSelfClosingTag(tag.name) then children == [] else Normal(children)
  {}

  lemma {:induction false} ElementParses(s: string, pos: nat, tag: Tag, children: seq<Node>, closing: string,
                                         read: string)
    requires NormalNode(Element(tag, children)) && Has(s, pos, PrintNode(Element(tag, children)))
    ensures var next := pos + |PrintNode(Element(tag, children))|;
      next <= |s| &&
      Parse(s, pos, closing, read) == AfterNode(read, Element(tag, children), Parse(s, next, closing, ""))
    decreases children, 1
  {
    hide Parse, Next, PrintNode, PrintAll, NormalNode, Normal, IsSelfClosingTag, TagBase, PrintTag, CloseTag;
    ElementPrints(tag, children);
    var open := ['<'] + PrintTag(tag.name, tag.args) + ['>'];
    OpeningStepAt(s, pos, tag, children, closing, open);
    ParseStep(s, pos, closing, read);
    if !IsSelfClosingTag(tag.name) {
      var start := pos + |open|;
      HasParts(s, start, PrintAll(children), CloseTag(tag.name));
      CloseTagLength(tag.name);
      NodesParse(s, start, children, tag.name, "");
      TagBaseOfName(tag.name);
      assert [] + children == children;
    }
  }

  lemma CloseTagLength(name: string)
    ensures |CloseTag(name)| == |name| + 3
  {}

  lemma OpeningStepAt(s: string, pos: nat, tag: Tag, children: seq<Node>, closing: string, open: string)
    requires NormalNode(Element(tag, children)) && Has(s, pos, PrintNode(Element(tag, children)))
    requires open == ['<'] + PrintTag(tag.name, tag.args) + ['>']
    ensures pos < |s| && pos + |open| <= |s|
    ensures Next(s, pos, closing) == Opens(tag, IsSelfClosingTag(tag.name), pos + |open|)
    ensures |PrintNode(Element(tag, children))|
      == |open| + if IsSelfClosingTag(tag.name) then 0 else |PrintAll(children) + CloseTag(tag.name)|
    ensures !IsSelfClosingTag(tag.name) ==> Has(s, pos + |open|, PrintAll(children) + CloseTag(tag.name))
  {
    hide Next, PrintAll, IsSelfClosingTag, PrintTag, CloseTag;
    ElementPrints(tag, children);
    var inner := if IsSelfClosingTag(tag.name) then "" else PrintAll(children) + CloseTag(tag.name);
    HasParts(s, pos, open, inner);
    OpeningStep(s, pos, tag.name, tag.args, closing);
  }

  /** Printing any normal tree and parsing it gives the tree back. */
  lemma PrintThenParse(nodes: seq<Node>)
    requires Normal(nodes)
    ensures Parse(PrintAll(nodes), 0, "", "") == (nodes, |PrintAll(nodes)|)
  {
    var s := PrintAll(nodes);
    HasAll(s);
    NodesParse(s, 0, nodes, "", "");
    assert [] + nodes == nodes;
  }

  /** So no two normal trees print alike. */
  lemma PrintInjective(a: seq<Node>, b: seq<Node>)
    requires Normal(a) && Normal(b) && PrintAll(a) == PrintAll(b)
    ensures a == b
  {
    PrintThenParse(a);
    PrintThenParse(b);
  }
}
