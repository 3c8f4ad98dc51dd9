/**
  What the Markdown parser makes of inputs shaped like those its own tests
  use. Each example is proved for a whole family of inputs: any plain text
  stands in place of the test's words.

  The lemmas come in three layers: facts about the strings alone, one
  step of one parse function, and the chaining of those steps.
*/
module MarkdownExamples {
  import opened Strings
  import opened Model
  import opened Documents
  import opened MarkdownScan
  import opened Markdown

  /** Text with no character that any parse treats specially. */
  predicate Plain(v: string) {
    forall i :: 0 <= i < |v| ==> !IsControl(v[i]) && v[i] != '\n' && v[i] != '|'
  }

  /** Plain text with a solid character at each end. */
  predicate Solid(v: string) {
    Plain(v) && v != [] && !IsWhitespace(v[0]) && !IsWhitespace(v[|v| - 1])
  }

  // ---------------------------------------------------------------------
  // Facts about strings.

  /** Text with a solid character at each end is its own trim. */
  lemma SolidTrimmed(v: string)
    requires v != [] && !IsWhitespace(v[0]) && !IsWhitespace(v[|v| - 1])
    ensures TrimStart(v) == v && Trim(v) == v && !IsBlank(v)
  {
  }

  /** A solid head character: no line break is skipped and it is the first
      solid character. */
  lemma SolidHead(s: string)
    requires s != [] && !IsWhitespace(s[0])
    ensures DropNewlines(s) == s && FirstSolid(s) == Some(s[0]) && !IsBlank(s)
    ensures TrimStart(s) == s && !AtLineStart(s)
  {
  }

  /** One white space character before a solid head. */
  lemma SpacedHead(s: string)
    requires s != [] && !IsWhitespace(s[0])
    ensures DropNewlines(" " + s) == " " + s && TrimStart(" " + s) == s
    ensures FirstSolid(" " + s) == Some(s[0]) && !IsBlank(" " + s)
  {
    var x := " " + s;
    assert x[0] == ' ' && x[1..] == s;
    assert !StartsWithNewLine(s);
    assert !StartsWithNewLine(x);
    assert TrimStart(x) == s;
  }

  /** A text run over plain text reads all of it. */
  lemma PlainRun(v: string)
    requires Plain(v)
    ensures Consume(v, TEXT_STOP) == Cut([], v)
  {
    forall j | 0 <= j < |v|
      ensures !Matches(TEXT_STOP, v[j])
    {
      ControlChars(v[j]);
    }
    assert v + [] == v;
    ConsumeUnique(v, TEXT_STOP, v, []);
  }

  /** A text run over plain text stops at a control character or a line
      break after it. */
  lemma PlainRunStops(a: string, r: string)
    requires Plain(a) && r != [] && (IsControl(r[0]) || r[0] == '\n')
    ensures Consume(a + r, TEXT_STOP) == Cut(r, a)
  {
    forall j | 0 <= j < |a|
      ensures !Matches(TEXT_STOP, a[j])
    {
      ControlChars(a[j]);
    }
    ControlChars(r[0]);
    assert r[0] in CONTROL + "\n";
    ConsumeUnique(a + r, TEXT_STOP, a, r);
  }

  /** Plain text followed by a space is still plain. */
  lemma PlainSpace(a: string)
    requires Plain(a)
    ensures Plain(a + " ")
  {
    assert forall i :: 0 <= i < |a| ==> (a + " ")[i] == a[i];
  }

  /** The space after solid text is trimmed away. */
  lemma TrimSpaceAfter(a: string)
    requires Solid(a)
    ensures Trim(a + " ") == a && AppendFragment("", a + " ") == a
  {
    var x := a + " ";
    SolidTrimmed(a);
    assert x[..|x| - 1] == a;
    assert TrimStart(x) == x;
  }

  /** A control character at the head. */
  lemma ControlHead(r: string)
    requires r != [] && IsControl(r[0])
    ensures TrimStart(r) == r && StartsWithControl(r) && FirstSolid(r) == Some(r[0])
  {
  }

  // ---------------------------------------------------------------------
  // Single steps of the parser.

  /** `_parse_node` hands a backtick to the code parser. */
  lemma DispatchCode(x: string, y: string, atLineStart: bool)
    requires DropNewlines(x) == y && FirstSolid(y) == Some('`')
    ensures ParseNodeAt(x, atLineStart) == ParseCode(y)
  {
    KindOfIff(y, atLineStart);
  }

  /** `_parse_node` hands a '#' to the heading parser. */
  lemma DispatchHeading(x: string, y: string, atLineStart: bool)
    requires DropNewlines(x) == y && FirstSolid(y) == Some('#')
    ensures ParseNodeAt(x, atLineStart) == ParseHeading(y)
  {
    KindOfIff(y, atLineStart);
  }

  /** `_parse_node` hands a '~', or a '*' inside a line, to the style parser. */
  lemma DispatchStyle(x: string, y: string, atLineStart: bool)
    requires DropNewlines(x) == y
    requires FirstSolid(y) == Some('~') || (FirstSolid(y) == Some('*') && !atLineStart)
    ensures ParseNodeAt(x, atLineStart) == ParseStyle(y)
  {
    KindOfIff(y, atLineStart);
  }

  /** `_parse_node` hands a '[' to the link parser. */
  lemma DispatchLink(x: string, y: string, atLineStart: bool)
    requires DropNewlines(x) == y && FirstSolid(y) == Some('[')
    ensures ParseNodeAt(x, atLineStart) == ParseLink(y)
  {
    KindOfIff(y, atLineStart);
  }

  /** `_parse_node` hands "![" to the image parser. */
  lemma DispatchImage(x: string, y: string, atLineStart: bool)
    requires DropNewlines(x) == y && FirstSolid(y) == Some('!') && NthSolid(y, 2) == Some('[')
    ensures ParseNodeAt(x, atLineStart) == ParseImage(y)
  {
    KindOfIff(y, atLineStart);
  }

  /** `_parse_node` hands any other character to the text parser. */
  lemma DispatchText(x: string, y: string, atLineStart: bool)
    requires DropNewlines(x) == y && FirstSolid(y).Some?
    requires !IsControl(FirstSolid(y).value) && FirstSolid(y).value != '|'
    ensures ParseNodeAt(x, atLineStart) == ParseText(y)
  {
    KindOfIff(y, atLineStart);
  }

  /** `parse_text` starts its loop at the first solid character. */
  lemma ParseTextFrom(y: string, z: string)
    requires TrimStart(y) == z
    ensures ParseText(y) == TextLoop(z, "")
  {
  }

  /** A node that does not start at the head of a line. */
  lemma NodeInLine(x: string, p: Parsed)
    requires !AtLineStart(x) && ParseNodeAt(x, false) == p
    ensures ParseNode(x) == p
  {
  }

  /** A node that starts at the head of a line. */
  lemma NodeAtLineStart(x: string, p: Parsed)
    requires AtLineStart(x) && ParseNodeAt(x, true) == p
    ensures ParseNode(x) == p
  {
  }

  /** `parse` reads its first node at the start of a line, then loops. */
  lemma FirstNode(input: string, p: Parsed)
    requires ParseNodeAt(input, true) == p
    ensures ParseDocument(input).nodes == ParseLoop(p.rest, AddNode([], p.node))
  {
  }

  /** `parse` on text that is not read at the start of a line. */
  lemma ParseNotAtLineStart(v: string)
    ensures Parse(v, false) == ParseLoop(v, [])
  {
  }

  /** One round of the loop of `parse`. */
  lemma LoopStep(rest: string, nodes: seq<Node>, p: Parsed)
    requires !IsBlank(rest) && ParseNode(rest) == p
    ensures ParseLoop(rest, nodes) == ParseLoop(p.rest, AddNode(nodes, p.node))
  {
  }

  /** The loop of `parse` stops when only white space is left. */
  lemma LoopEnd(rest: string, nodes: seq<Node>)
    requires IsBlank(rest)
    ensures ParseLoop(rest, nodes) == nodes
  {
  }

  // ---------------------------------------------------------------------
  // Plain text.

  /** A run that reaches the end of the input ends the node. */
  lemma RoundStopsAtEnd(rest: string, text: string, run: Cut)
    requires run == Consume(TrimStart(rest), TEXT_STOP) && run.rest == []
    ensures TextRound(rest, text) == TextStep([], AppendFragment(text, run.taken), true)
  {
  }

  /** A run that stops at a control character other than '!' ends the node
      there. */
  lemma RoundStopsAtControl(rest: string, text: string, run: Cut)
    requires run == Consume(TrimStart(rest), TEXT_STOP)
    requires StartsWithControl(TrimStart(run.rest)) && FirstSolid(run.rest) != Some('!')
    ensures TextRound(rest, text) == TextStep(run.rest, AppendFragment(text, run.taken), true)
  {
  }

  /** The text parser keeps plain text as one Text node. */
  lemma PlainText(v: string)
    requires Solid(v)
    ensures TextLoop(v, "") == Parsed([], TextNode(v))
  {
    SolidTrimmed(v);
    PlainRun(v);
    RoundStopsAtEnd(v, "", Cut([], v));
  }

  /** Plain text, with or without a space before it. */
  lemma PlainHead(x: string, v: string)
    requires Solid(v) && (x == v || x == " " + v)
    ensures DropNewlines(x) == x && FirstSolid(x) == Some(v[0]) && TrimStart(x) == v
    ensures !IsBlank(x) && !IsControl(v[0]) && v[0] != '|'
  {
    if x == v {
      SolidHead(v);
    } else {
      SpacedHead(v);
    }
  }

  /** A node parse of plain text, with or without a space before it. */
  lemma PlainNodeAt(x: string, v: string, atLineStart: bool)
    requires Solid(v) && (x == v || x == " " + v)
    ensures ParseNodeAt(x, atLineStart) == Parsed([], TextNode(v))
  {
    PlainHead(x, v);
    DispatchText(x, x, atLineStart);
    ParseTextFrom(x, v);
    PlainText(v);
  }

  /** Plain text is a Text node that is not empty. */
  lemma PlainNodeKept(v: string, nodes: seq<Node>)
    requires Solid(v)
    ensures AddNode(nodes, TextNode(v)) == nodes + [TextNode(v)]
    ensures AddNode([], TextNode(v)) == [TextNode(v)]
  {
    SolidTrimmed(v);
  }

  /** The loop of `parse` adds plain text as one Text node. */
  lemma PlainLoop(x: string, v: string, nodes: seq<Node>)
    requires Solid(v) && (x == v || x == " " + v)
    ensures ParseLoop(x, nodes) == nodes + [TextNode(v)]
  {
    PlainHead(x, v);
    PlainNodeAt(x, v, AtLineStart(x));
    PlainNodeKept(v, nodes);
    LoopStep(x, nodes, Parsed([], TextNode(v)));
    LoopEnd([], nodes + [TextNode(v)]);
  }

  /** Plain text parsed as content is one Text node. */
  lemma PlainParse(v: string)
    requires Solid(v)
    ensures Parse(v, false) == [TextNode(v)]
  {
    ParseNotAtLineStart(v);
    PlainLoop(v, v, []);
  }

  /** A document of plain text is one Text node. */
  lemma PlainDocument(v: string)
    requires Solid(v)
    ensures ParseDocument(v).nodes == [TextNode(v)]
  {
    PlainNodeAt(v, v, true);
    PlainNodeKept(v, []);
    FirstNode(v, Parsed([], TextNode(v)));
    LoopEnd([], [TextNode(v)]);
  }

  // ---------------------------------------------------------------------
  // Text that stops at a control character.

  /** The string facts a text run before a control character rests on. */
  lemma TextBeforeStrings(a: string, r: string)
    requires Solid(a) && r != [] && IsControl(r[0])
    ensures TrimStart(a + " " + r) == a + " " + r
    ensures DropNewlines(a + " " + r) == a + " " + r
    ensures FirstSolid(a + " " + r) == Some(a[0])
    ensures Consume(a + " " + r, TEXT_STOP) == Cut(r, a + " ")
    ensures AppendFragment("", a + " ") == a
    ensures TrimStart(r) == r && StartsWithControl(r) && FirstSolid(r) == Some(r[0])
  {
    assert (a + " " + r)[0] == a[0];
    SolidHead(a + " " + r);
    PlainSpace(a);
    PlainRunStops(a + " ", r);
    TrimSpaceAfter(a);
    ControlHead(r);
  }

  /** Text up to a control character other than '!' is one Text node, and
      the control character is left to the next node. */
  lemma TextBefore(a: string, r: string)
    requires Solid(a) && r != [] && IsControl(r[0]) && r[0] != '!'
    ensures TextLoop(a + " " + r, "") == Parsed(r, TextNode(a))
  {
    TextBeforeStrings(a, r);
    RoundStopsAtControl(a + " " + r, "", Cut(r, a + " "));
  }

  lemma TextBeforeNodeAt(a: string, r: string, atLineStart: bool)
    requires Solid(a) && r != [] && IsControl(r[0]) && r[0] != '!'
    ensures ParseNodeAt(a + " " + r, atLineStart) == Parsed(r, TextNode(a))
  {
    TextBeforeStrings(a, r);
    DispatchText(a + " " + r, a + " " + r, atLineStart);
    ParseTextFrom(a + " " + r, a + " " + r);
    TextBefore(a, r);
  }

  /** A document that opens with text before a control character. */
  lemma TextFirst(a: string, r: string)
    requires Solid(a) && r != [] && IsControl(r[0]) && r[0] != '!'
    ensures ParseDocument(a + " " + r).nodes == ParseLoop(r, [TextNode(a)])
  {
    TextBeforeNodeAt(a, r, true);
    PlainNodeKept(a, []);
    FirstNode(a + " " + r, Parsed(r, TextNode(a)));
  }

  // ---------------------------------------------------------------------
  // Styles.

  lemma BoldStrings(b: string, rest: string)
    requires Solid(b)
    ensures var r := "**" + b + "**" + rest;
      && DropNewlines(r) == r && FirstSolid(r) == Some('*') && !AtLineStart(r) && !IsBlank(r)
      && StartsWith(r, "**") && DropN(r, 2) == b + "**" + rest && ConsumeWhitespace(r) == r
  {
    var r := "**" + b + "**" + rest;
    assert r[0] == '*' && r[..2] == "**" && r[2..] == b + "**" + rest;
    SolidHead(r);
  }

  lemma BoldBody(b: string, rest: string)
    requires Solid(b)
    ensures ConsumeStr(b + "**" + rest, "**") == Cut("**" + rest, b)
    ensures DropN("**" + rest, 2) == rest
  {
    var s := b + "**" + rest;
    forall j | 0 <= j < |b|
      ensures !StartsWith(s[j..], "**")
    {
      assert s[j..][0] == b[j];
    }
    assert ("**" + rest)[..2] == "**";
    ConsumeStrUnique(s, "**", b, "**" + rest);
    assert ("**" + rest)[2..] == rest;
  }

  /** "**text**" is bold text. */
  lemma BoldStyle(b: string, rest: string)
    requires Solid(b)
    ensures ParseStyle("**" + b + "**" + rest) == Parsed(rest, StyleNode(Bold, [TextNode(b)]))
  {
    BoldStrings(b, rest);
    BoldBody(b, rest);
    PlainParse(b);
  }

  lemma BoldNode(b: string, rest: string)
    requires Solid(b)
    ensures ParseNode("**" + b + "**" + rest) == Parsed(rest, StyleNode(Bold, [TextNode(b)]))
  {
    var r := "**" + b + "**" + rest;
    BoldStrings(b, rest);
    DispatchStyle(r, r, false);
    BoldStyle(b, rest);
    NodeInLine(r, Parsed(rest, StyleNode(Bold, [TextNode(b)])));
  }

  /** A style around plain text is not an empty node. */
  lemma StyleKept(style: StyleKind, v: string, nodes: seq<Node>)
    requires Solid(v)
    ensures AddNode(nodes, StyleNode(style, [TextNode(v)])) == nodes + [StyleNode(style, [TextNode(v)])]
  {
    SolidTrimmed(v);
    assert !IsEmpty(TextNode(v));
    assert !AllEmpty([TextNode(v)]);
  }

  /** The loop of `parse` reads bold text as one node and carries on. */
  lemma BoldLoopStep(b: string, rest: string, nodes: seq<Node>)
    requires Solid(b)
    ensures ParseLoop("**" + b + "**" + rest, nodes)
      == ParseLoop(rest, nodes + [StyleNode(Bold, [TextNode(b)])])
  {
    var r := "**" + b + "**" + rest;
    BoldStrings(b, rest);
    BoldNode(b, rest);
    StyleKept(Bold, b, nodes);
    LoopStep(r, nodes, Parsed(rest, StyleNode(Bold, [TextNode(b)])));
  }

  lemma TwoMore(nodes: seq<Node>, x: Node, y: Node)
    ensures nodes + [x] + [y] == nodes + [x, y]
  {
  }

  lemma Pair(x: Node, y: Node)
    ensures [x] + [y] == [x, y]
  {
  }

  lemma OneThenTwo(x: Node, y: Node, z: Node)
    ensures [x] + [y, z] == [x, y, z]
  {
  }

  /** Bold text in a line, then more text. */
  lemma BoldThenText(b: string, c: string, nodes: seq<Node>)
    requires Solid(b) && Solid(c)
    ensures ParseLoop("**" + b + "**" + (" " + c), nodes)
      == nodes + [StyleNode(Bold, [TextNode(b)]), TextNode(c)]
  {
    var style := StyleNode(Bold, [TextNode(b)]);
    var rest := " " + c;
    var acc := nodes + [style];
    BoldLoopStep(b, rest, nodes);
    PlainLoop(rest, c, acc);
    TwoMore(nodes, style, TextNode(c));
  }

  /** Text, bold text and text: three nodes. */
  lemma BoldDocument(a: string, b: string, c: string)
    requires Solid(a) && Solid(b) && Solid(c)
    ensures ParseDocument(a + " " + ("**" + b + "**" + (" " + c))).nodes
      == [TextNode(a), StyleNode(Bold, [TextNode(b)]), TextNode(c)]
  {
    var r := "**" + b + "**" + (" " + c);
    assert r[0] == '*';
    TextFirst(a, r);
    BoldThenText(b, c, [TextNode(a)]);
    OneThenTwo(TextNode(a), StyleNode(Bold, [TextNode(b)]), TextNode(c));
  }

  lemma StrikeStrings(v: string, rest: string)
    requires Solid(v)
    ensures var r := "~" + v + "~" + rest;
      && DropNewlines(r) == r && FirstSolid(r) == Some('~') && ConsumeWhitespace(r) == r
      && !StartsWith(r, "**") && r[0] == '~' && DropFirst(r) == v + "~" + rest
  {
    var r := "~" + v + "~" + rest;
    assert r[0] == '~' && r[1..] == v + "~" + rest;
    assert |r| >= 2 ==> r[..2][0] == '~';
    SolidHead(r);
  }

  lemma StrikeBody(v: string, rest: string)
    requires Solid(v)
    ensures Consume(v + "~" + rest, Char('~')) == Cut("~" + rest, v)
    ensures DropFirst("~" + rest) == rest
  {
    forall j | 0 <= j < |v|
      ensures !Matches(Char('~'), v[j])
    {
      ControlChars(v[j]);
    }
    ConsumeUnique(v + "~" + rest, Char('~'), v, "~" + rest);
    assert ("~" + rest)[1..] == rest;
  }

  /** "~text~" is struck-through text. */
  lemma StrikeStyle(v: string, rest: string)
    requires Solid(v)
    ensures ParseStyle("~" + v + "~" + rest) == Parsed(rest, StyleNode(Strikethrough, [TextNode(v)]))
  {
    StrikeStrings(v, rest);
    StrikeBody(v, rest);
    PlainParse(v);
  }

  lemma StrikeNode(v: string, rest: string, atLineStart: bool)
    requires Solid(v)
    ensures ParseNodeAt("~" + v + "~" + rest, atLineStart)
      == Parsed(rest, StyleNode(Strikethrough, [TextNode(v)]))
  {
    var r := "~" + v + "~" + rest;
    StrikeStrings(v, rest);
    DispatchStyle(r, r, atLineStart);
    StrikeStyle(v, rest);
  }

  // ---------------------------------------------------------------------
  // Headings.

  lemma HeadingStrings(v: string)
    requires Solid(v)
    ensures var h := "# " + v;
      && DropNewlines(h) == h && FirstSolid(h) == Some('#') && TrimStart(h) == h
      && Consume(h, NoneOf("#")) == Cut(" " + v, "#")
      && TrimStart(" " + v) == v
  {
    var h := "# " + v;
    assert h[0] == '#';
    SolidHead(h);
    assert h == "#" + (" " + v);
    assert (" " + v)[0] == ' ';
    ConsumeUnique(h, NoneOf("#"), "#", " " + v);
    SpacedHead(v);
  }

  /** A line of plain text runs to the end of the input. */
  lemma LineOfPlain(v: string)
    requires Plain(v)
    ensures Consume(v, Char('\n')) == Cut([], v)
  {
    assert v + [] == v;
    ConsumeUnique(v, Char('\n'), v, []);
  }

  /** "# text" is a level-one heading holding the text. */
  lemma HeadingParse(v: string)
    requires Solid(v)
    ensures ParseHeading("# " + v) == Parsed([], HeadingNode(1, [TextNode(v)]))
  {
    HeadingStrings(v);
    LineOfPlain(v);
    PlainParse(v);
  }

  lemma HeadingKept(v: string)
    requires Solid(v)
    ensures AddNode([], HeadingNode(1, [TextNode(v)])) == [HeadingNode(1, [TextNode(v)])]
  {
    SolidTrimmed(v);
    assert !IsEmpty(TextNode(v));
    assert !AllEmpty([TextNode(v)]);
  }

  lemma HeadingDocument(v: string)
    requires Solid(v)
    ensures ParseDocument("# " + v).nodes == [HeadingNode(1, [TextNode(v)])]
  {
    var h := HeadingNode(1, [TextNode(v)]);
    HeadingStrings(v);
    DispatchHeading("# " + v, "# " + v, true);
    HeadingParse(v);
    FirstNode("# " + v, Parsed([], h));
    HeadingKept(v);
    LoopEnd([], [h]);
  }

  // ---------------------------------------------------------------------
  // Links and images.

  lemma LinkOpen(t: string, u: string)
    requires ']' !in t
    ensures var l := "[" + t + "](" + u + ")";
      && DropNewlines(l) == l && FirstSolid(l) == Some('[') && TrimStart(l) == l
      && DropFirst(l) == t + "](" + u + ")"
      && Consume(t + "](" + u + ")", Char(']')) == Cut("](" + u + ")", t)
      && FirstChar("](" + u + ")") == Some(']') && DropFirst("](" + u + ")") == "(" + u + ")"
  {
    var l := "[" + t + "](" + u + ")";
    LinkPieces(t, u);
    SolidHead(l);
    ConsumeUnique(t + "](" + u + ")", Char(']'), t, "](" + u + ")");
  }

  /** How the text of a link falls apart at its brackets. */
  lemma LinkPieces(t: string, u: string)
    ensures var l := "[" + t + "](" + u + ")";
      var body := t + "](" + u + ")";
      var close := "](" + u + ")";
      && l != [] && l[0] == '[' && l[1..] == body && body == t + close
      && close[0] == ']' && close[1..] == "(" + u + ")"
  {
    var l := "[" + t + "](" + u + ")";
    var body := t + "](" + u + ")";
    assert l == "[" + body;
  }

  lemma LinkTarget(u: string)
    requires ')' !in u
    ensures var p := "(" + u + ")";
      && FirstSolid(p) == Some('(') && Trim(p) == p && DropFirst(p) == u + ")"
      && Consume(u + ")", Char(')')) == Cut(")", u)
      && FirstSolid(")") == Some(')') && DropFirst(Trim(")")) == []
  {
    var p := "(" + u + ")";
    assert p[0] == '(' && p[|p| - 1] == ')' && p[1..] == u + ")";
    SolidHead(p);
    SolidTrimmed(p);
    ConsumeUnique(u + ")", Char(')'), u, ")");
    SolidTrimmed(")");
  }

  /** "[text](url)" is a link. */
  lemma LinkParse(t: string, u: string)
    requires ']' !in t && ')' !in u
    ensures ParseLink("[" + t + "](" + u + ")") == Parsed([], LinkNode(t, u))
  {
    LinkOpen(t, u);
    LinkTarget(u);
    TrimIdempotent(t);
  }

  lemma LinkNodeAt(t: string, u: string, atLineStart: bool)
    requires ']' !in t && ')' !in u
    ensures ParseNodeAt("[" + t + "](" + u + ")", atLineStart) == Parsed([], LinkNode(t, u))
  {
    var l := "[" + t + "](" + u + ")";
    LinkOpen(t, u);
    DispatchLink(l, l, atLineStart);
    LinkParse(t, u);
  }

  lemma LinkKept(t: string, u: string)
    requires !IsBlank(t)
    ensures AddNode([], LinkNode(t, u)) == [LinkNode(t, u)]
  {
    LinkNodeEmptyIff(t, u);
  }

  lemma LinkDocument(t: string, u: string)
    requires ']' !in t && ')' !in u && !IsBlank(t)
    ensures ParseDocument("[" + t + "](" + u + ")").nodes == [LinkNode(t, u)]
  {
    var l := "[" + t + "](" + u + ")";
    LinkNodeAt(t, u, true);
    FirstNode(l, Parsed([], LinkNode(t, u)));
    LinkKept(t, u);
    LoopEnd([], [LinkNode(t, u)]);
  }

  lemma ImageStrings(t: string, u: string)
    ensures var l := "[" + t + "](" + u + ")"; var i := "!" + l;
      && DropNewlines(i) == i && FirstSolid(i) == Some('!') && NthSolid(i, 2) == Some('[')
      && TrimStart(i) == i && DropFirst(i) == l
  {
    var l := "[" + t + "](" + u + ")";
    var i := "!" + l;
    assert i[0] == '!' && i[1..] == l && l[0] == '[';
    SolidHead(i);
  }

  /** "![text](url)" is an image with that alt text and url. */
  lemma ImageParse(t: string, u: string)
    requires ']' !in t && ')' !in u
    ensures ParseImage("!" + ("[" + t + "](" + u + ")")) == Parsed([], ImageNode(t, u))
  {
    ImageStrings(t, u);
    LinkParse(t, u);
    TrimIdempotent(t);
    TrimIdempotent(u);
  }

  lemma ImageNodeAt(t: string, u: string, atLineStart: bool)
    requires ']' !in t && ')' !in u
    ensures ParseNodeAt("!" + ("[" + t + "](" + u + ")"), atLineStart) == Parsed([], ImageNode(t, u))
  {
    var i := "!" + ("[" + t + "](" + u + ")");
    ImageStrings(t, u);
    DispatchImage(i, i, atLineStart);
    ImageParse(t, u);
  }

  lemma NotLinkOpen(t: string, v: string)
    requires ']' !in t && Solid(v)
    ensures var n := "[" + t + "]" + (" " + v);
      && DropNewlines(n) == n && FirstSolid(n) == Some('[') && TrimStart(n) == n
      && DropFirst(n) == t + "]" + (" " + v)
      && Consume(t + "]" + (" " + v), Char(']')) == Cut("]" + (" " + v), t)
      && FirstChar("]" + (" " + v)) == Some(']') && DropFirst("]" + (" " + v)) == " " + v
  {
    var n := "[" + t + "]" + (" " + v);
    assert n[0] == '[' && n[1..] == t + "]" + (" " + v);
    SolidHead(n);
    assert t + "]" + (" " + v) == t + ("]" + (" " + v));
    ConsumeUnique(t + "]" + (" " + v), Char(']'), t, "]" + (" " + v));
    assert ("]" + (" " + v))[1..] == " " + v;
  }

  lemma NotLinkFallback(t: string, v: string)
    requires Solid(v)
    ensures var n := "[" + t + "]" + (" " + v);
      && n[..|n| - |" " + v|] == "[" + t + "]"
      && Trim("[" + t + "]") == "[" + t + "]"
      && "[" + t + "]" + " " + v == n
      && Trim(n) == n
  {
    var n := "[" + t + "]" + (" " + v);
    var b := "[" + t + "]";
    assert n[..|n| - |" " + v|] == b;
    SolidTrimmed(b);
    SolidTrimmed(n);
  }

  /** Without a '(' after the closing bracket the link parser falls back. */
  lemma NotLinkFalls(t: string, v: string)
    requires ']' !in t && Solid(v) && v[0] != '('
    ensures ParseLink("[" + t + "]" + (" " + v)) == LinkFallback("[" + t + "]" + (" " + v), " " + v)
  {
    NotLinkOpen(t, v);
    PlainHead(" " + v, v);
  }

  /** The fallback keeps the brackets and the text after them together. */
  lemma NotLinkText(t: string, v: string)
    requires Solid(v)
    ensures LinkFallback("[" + t + "]" + (" " + v), " " + v) == Parsed([], TextNode("[" + t + "]" + (" " + v)))
  {
    NotLinkFallback(t, v);
    PlainHead(" " + v, v);
    ParseTextFrom(" " + v, v);
    PlainText(v);
    SolidTrimmed(v);
  }

  /** "[text] more text" with no url after the brackets is kept as text,
      brackets and all. */
  lemma NotLinkParse(t: string, v: string)
    requires ']' !in t && Solid(v) && v[0] != '('
    ensures ParseLink("[" + t + "]" + (" " + v)) == Parsed([], TextNode("[" + t + "]" + (" " + v)))
  {
    NotLinkFalls(t, v);
    NotLinkText(t, v);
  }

  lemma NotLinkNodeAt(t: string, v: string, atLineStart: bool)
    requires ']' !in t && Solid(v) && v[0] != '('
    ensures ParseNodeAt("[" + t + "]" + (" " + v), atLineStart)
      == Parsed([], TextNode("[" + t + "]" + (" " + v)))
  {
    var n := "[" + t + "]" + (" " + v);
    NotLinkOpen(t, v);
    DispatchLink(n, n, atLineStart);
    NotLinkParse(t, v);
  }

  // ---------------------------------------------------------------------
  // Inline code, as written and as corrected.

  /** An inline code span is not a fence, and its body runs to the closing
      mark. */
  lemma InlineCodeCut(w: string, rest: string)
    requires w != [] && '`' !in w
    ensures var input := "`" + w + "`" + rest;
      && !StartsWith(input, FENCE)
      && DropFirst(input) == w + "`" + rest
      && Consume(w + "`" + rest, Char('`')) == Cut("`" + rest, w)
  {
    var input := "`" + w + "`" + rest;
    assert input[1] == w[0];
    assert input[1..] == w + "`" + rest;
    ConsumeUnique(w + "`" + rest, Char('`'), w, "`" + rest);
  }

  /** As written, the closing backtick of a span is left at the head of the
      remaining input. */
  lemma CodeAsWrittenKeepsMark(w: string, rest: string)
    requires w != [] && '`' !in w
    ensures ParseCodeAsWritten("`" + w + "`" + rest) == Parsed("`" + rest, CodeNode(w))
  {
    InlineCodeCut(w, rest);
  }

  /** As written, a left-over backtick opens a new span that takes the rest
      of the input as code. */
  lemma CodeAsWrittenReopens(t: string)
    requires '`' !in t
    ensures ParseCodeAsWritten("`" + t) == Parsed([], CodeNode(t))
  {
    var input := "`" + t;
    assert !StartsWith(input, FENCE) by {
      assert |input| >= 3 ==> input[..3][1] == t[0];
    }
    assert DropFirst(input) == t by {
      assert input[1..] == t;
    }
    assert t + [] == t;
    ConsumeUnique(t, Char('`'), t, []);
  }

  /** Corrected: the span's closing backtick is read with it. */
  lemma CodeDropsMark(w: string, rest: string)
    requires w != [] && '`' !in w
    ensures ParseCode("`" + w + "`" + rest) == Parsed(rest, CodeNode(w))
  {
    InlineCodeCut(w, rest);
    assert ("`" + rest)[1..] == rest;
  }

  /** Corrected: a node parse of an inline code span. */
  lemma CodeNodeAt(w: string, rest: string, atLineStart: bool)
    requires w != [] && '`' !in w
    ensures ParseNodeAt("`" + w + "`" + rest, atLineStart) == Parsed(rest, CodeNode(w))
  {
    var input := "`" + w + "`" + rest;
    assert input[0] == '`';
    SolidHead(input);
    DispatchCode(input, input, atLineStart);
    CodeDropsMark(w, rest);
  }

  /** Code with some solid text is not an empty node. */
  lemma CodeKept(w: string)
    requires !IsBlank(w)
    ensures AddNode([], CodeNode(w)) == [CodeNode(w)]
  {
    CodeNodeEmptyIff(w);
  }

  /** Corrected: a document that opens with an inline code span. */
  lemma CodeFirst(w: string, rest: string)
    requires w != [] && '`' !in w && !IsBlank(w)
    ensures ParseDocument("`" + w + "`" + rest).nodes == ParseLoop(rest, [CodeNode(w)])
  {
    CodeNodeAt(w, rest, true);
    CodeKept(w);
    FirstNode("`" + w + "`" + rest, Parsed(rest, CodeNode(w)));
  }

  /** Corrected: code followed by text on the same line gives a Code node and
      then a Text node. */
  lemma CodeThenText(w: string, v: string)
    requires w != [] && '`' !in w && !IsBlank(w) && Solid(v)
    ensures ParseDocument("`" + w + "`" + (" " + v)).nodes == [CodeNode(w), TextNode(v)]
  {
    CodeFirst(w, " " + v);
    PlainLoop(" " + v, v, [CodeNode(w)]);
  }

  /** The strings of the example "`a` b". */
  lemma CodeExampleStrings()
    ensures "`a` b" == "`" + "a" + "`" + " b"
    ensures " b" == " " + "b" && "` b" == "`" + " b"
    ensures "a" != [] && '`' !in "a" && !IsBlank("a") && '`' !in " b"
    ensures Solid("b") && "` b" != [] && !IsWhitespace("` b"[0])
    ensures CodeNode(" b").el == Code("b")
  {
    CodeExampleChars();
    CodeExampleTrim();
  }

  lemma CodeExampleChars()
    ensures "`a` b" == "`" + "a" + "`" + " b"
    ensures " b" == " " + "b" && "` b" == "`" + " b"
    ensures "a" != [] && '`' !in "a" && !IsBlank("a") && '`' !in " b"
    ensures "` b" != [] && !IsWhitespace("` b"[0])
  {
    assert "a"[0] == 'a' && "` b"[0] == '`';
  }

  lemma CodeExampleTrim()
    ensures Solid("b") && CodeNode(" b").el == Code("b")
  {
    SolidTrimmed("b");
    assert " b"[1..] == "b";
  }

  /** The input "`a` b" as written: the span's closing mark is left over, the
      node parser hands "` b" to the code parser again (its first solid
      character is a backtick), and "b" becomes code. */
  lemma CodeExampleAsWritten(s: string, left: string)
    requires s == "`a` b" && left == "` b"
    ensures ParseCodeAsWritten(s) == Parsed(left, CodeNode("a"))
    ensures FirstSolid(left) == Some('`')
    ensures ParseCodeAsWritten(left) == Parsed([], CodeNode("b"))
  {
    CodeExampleStrings();
    CodeAsWrittenKeepsMark("a", " b");
    CodeAsWrittenReopens(" b");
    SolidHead(left);
  }

  /** The input "`a` b" corrected: a Code node and then a Text node. */
  lemma CodeExampleCorrected(s: string)
    requires s == "`a` b"
    ensures ParseCode(s) == Parsed(" b", CodeNode("a"))
    ensures ParseDocument(s).nodes == [CodeNode("a"), TextNode("b")]
  {
    CodeExampleStrings();
    CodeDropsMark("a", " b");
    CodeThenText("a", "b");
  }

  /** After white space the first backtick is an opening mark: as in the
      program, an empty span is read up to it and the backtick is left to
      open the next node. */
  lemma CodeAfterSpace(s: string)
    requires s != [] && s[0] == '`'
    ensures ParseCode(" " + s) == Parsed(s, CodeNode([]))
    ensures ParseCodeAsWritten(" " + s) == Parsed(s, CodeNode([]))
  {
    var x := " " + s;
    assert x[0] == ' ' && x[1..] == s;
    assert !StartsWith(x, FENCE) by {
      assert |x| >= 3 ==> x[..3][0] == ' ';
    }
    assert [] + s == s;
    ConsumeUnique(s, Char('`'), [], s);
  }

  /** An inline code span inside the loop of `parse`. */
  lemma CodeLoop(w: string, rest: string, nodes: seq<Node>)
    requires w != [] && '`' !in w && !IsBlank(w)
    ensures ParseLoop("`" + w + "`" + rest, nodes) == ParseLoop(rest, nodes + [CodeNode(w)])
  {
    var s := "`" + w + "`" + rest;
    assert s[0] == '`';
    SolidHead(s);
    CodeNodeAt(w, rest, AtLineStart(s));
    CodeNodeEmptyIff(w);
    LoopStep(s, nodes, Parsed(rest, CodeNode(w)));
  }

  /** An empty span read before a backtick leaves the loop's nodes as they
      are. */
  lemma SpacedLoop(s: string, nodes: seq<Node>)
    requires s != [] && s[0] == '`'
    ensures ParseLoop(" " + s, nodes) == ParseLoop(s, nodes)
  {
    var x := " " + s;
    SpacedHead(s);
    DispatchCode(x, x, AtLineStart(x));
    CodeAfterSpace(s);
    CodeNodeEmptyIff([]);
    LoopStep(x, nodes, Parsed(s, CodeNode([])));
  }

  /** Corrected: a span with white space before it, as after a style, a link
      or a list bullet, is still read as code. */
  lemma SpacedCodeLoop(w: string, rest: string, nodes: seq<Node>)
    requires w != [] && '`' !in w && !IsBlank(w)
    ensures ParseLoop(" `" + w + "`" + rest, nodes) == ParseLoop(rest, nodes + [CodeNode(w)])
  {
    var s := "`" + w + "`" + rest;
    assert " `" + w + "`" + rest == " " + s;
    assert s[0] == '`';
    SpacedLoop(s, nodes);
    CodeLoop(w, rest, nodes);
  }

  /** Corrected: a one-line fenced block indented by a space is still read
      as a fenced block. */
  lemma SpacedFenceLoop(w: string, rest: string, nodes: seq<Node>)
    requires FenceBody(w) && '\n' !in Trim(w) && !IsBlank(w)
    ensures ParseLoop(" " + FENCE + w + FENCE + rest, nodes)
      == ParseLoop(rest, nodes + [CodeblockNode(None, w)])
  {
    var s := FENCE + w + FENCE + rest;
    assert " " + FENCE + w + FENCE + rest == " " + s;
    assert s[0] == '`';
    SpacedLoop(s, nodes);
    SolidHead(s);
    FenceNodeAt(w, rest, AtLineStart(s));
    CodeblockKept(None, w);
    LoopStep(s, nodes, Parsed(rest, CodeblockNode(None, w)));
  }

  /** The strings of the example "`a` `b`". */
  lemma TwoSpansStrings()
    ensures "`a` `b`" == "`" + "a" + "`" + " `b`"
    ensures " `b`" == " `" + "b" + "`" + []
    ensures "a" != [] && '`' !in "a" && !IsBlank("a")
    ensures "b" != [] && '`' !in "b" && !IsBlank("b")
  {
    assert "a"[0] == 'a' && "b"[0] == 'b';
  }

  /** Corrected: "`a` `b`" is two code spans; the second one has a space
      before its opening mark. */
  lemma TwoSpansExample(s: string)
    requires s == "`a` `b`"
    ensures ParseDocument(s).nodes == [CodeNode("a"), CodeNode("b")]
  {
    TwoSpansStrings();
    CodeFirst("a", " `b`");
    SpacedCodeLoop("b", [], [CodeNode("a")]);
    LoopEnd([], [CodeNode("a"), CodeNode("b")]);
  }

  // ---------------------------------------------------------------------
  // Fenced code blocks, as written and as corrected.

  /** No fence starts anywhere inside the text. */
  predicate FenceFree(w: string) {
    forall j :: 0 <= j < |w| ==> !StartsWith(w[j..], FENCE)
  }

  /** Text that can stand between two fences: no fence inside it, and no
      backtick at its end that the closing fence would complete. */
  predicate FenceBody(w: string) {
    FenceFree(w) && (w == [] || w[|w| - 1] != '`')
  }

  /** Text without a backtick holds no fence. */
  lemma NoTickFenceBody(w: string)
    requires '`' !in w
    ensures FenceBody(w)
  {
    forall j | 0 <= j < |w|
      ensures !StartsWith(w[j..], FENCE)
    {
      assert w[j..][0] == w[j];
    }
  }

  /** The first fence after a fence body is the one that follows it. */
  lemma FenceCut(w: string, rest: string)
    requires FenceBody(w)
    ensures ConsumeStr(w + FENCE + rest, FENCE) == Cut(FENCE + rest, w)
  {
    var s := w + FENCE + rest;
    assert s == w + (FENCE + rest);
    assert StartsWith(FENCE + rest, FENCE) by {
      assert (FENCE + rest)[..3] == FENCE;
    }
    forall j | 0 <= j < |w|
      ensures !StartsWith(s[j..], FENCE)
    {
      if j + 3 <= |w| {
        assert s[j..][..3] == w[j..][..3];
      } else {
        var k := |w| - 1 - j;
        assert s[j..][k] == w[|w| - 1];
      }
    }
    ConsumeStrUnique(s, FENCE, w, FENCE + rest);
  }

  /** A fenced block opens with a fence, and the code parser reads on after it. */
  lemma FenceOpen(w: string, rest: string)
    ensures var input := FENCE + w + FENCE + rest;
      StartsWith(input, FENCE) && DropN(input, 3) == w + FENCE + rest
  {
    var input := FENCE + w + FENCE + rest;
    assert input[..3] == FENCE;
    assert input[3..] == w + FENCE + rest;
  }

  /** As written, the closing fence is left at the head of the remaining
      input. */
  lemma FencedAsWrittenKeepsMark(w: string, rest: string)
    requires FenceBody(w)
    ensures ParseCodeAsWritten(FENCE + w + FENCE + rest) == Parsed(FENCE + rest, FencedBlock(Trim(w)))
  {
    FenceOpen(w, rest);
    FenceCut(w, rest);
  }

  /** As written, a left-over fence opens a new block that takes the rest of
      the input as code. */
  lemma FencedAsWrittenReopens(v: string)
    requires FenceFree(v)
    ensures ParseCodeAsWritten(FENCE + v) == Parsed([], FencedBlock(Trim(v)))
  {
    var input := FENCE + v;
    assert input[..3] == FENCE && input[3..] == v;
    assert v + [] == v;
    ConsumeStrUnique(v, FENCE, v, []);
  }

  /** Corrected: the closing fence is read with the block. */
  lemma FencedDropsMark(w: string, rest: string)
    requires FenceBody(w)
    ensures ParseCode(FENCE + w + FENCE + rest) == Parsed(rest, FencedBlock(Trim(w)))
  {
    FenceOpen(w, rest);
    FenceCut(w, rest);
    assert (FENCE + rest)[3..] == rest;
  }

  /** A language name followed by a line break and a body is fence-free text
      that trims to itself. */
  lemma LanguageLineBody(lang: string, body: string)
    requires lang != [] && forall i :: 0 <= i < |lang| ==> IsAlphanumeric(lang[i])
    requires FenceBody(body) && body != [] && !IsWhitespace(body[|body| - 1])
    ensures var w := lang + "\n" + body; FenceBody(w) && Trim(w) == w
  {
    var w := lang + "\n" + body;
    forall j | 0 <= j < |w|
      ensures !StartsWith(w[j..], FENCE)
    {
      if j <= |lang| {
        assert w[j..][0] == w[j];
      } else {
        assert w[j..] == body[j - |lang| - 1..];
      }
    }
    assert w[|w| - 1] == body[|body| - 1];
    assert w[0] == lang[0];
    SolidTrimmed(w);
  }

  /** Only one run of letters and digits at the head of a string is
      followed by some other character. */
  lemma AlphanumericRunUnique(code: string, a: string, b: string)
    requires |a| < |code| && code[..|a|] == a && !IsAlphanumeric(code[|a|])
    requires |b| < |code| && code[..|b|] == b && !IsAlphanumeric(code[|b|])
    requires forall i :: 0 <= i < |a| ==> IsAlphanumeric(a[i])
    requires forall i :: 0 <= i < |b| ==> IsAlphanumeric(b[i])
    ensures a == b
  {
  }

  /** A line break at the head is trimmed with the rest of the white space. */
  lemma TrimBreak(body: string)
    ensures Trim("\n" + body) == Trim(body)
  {
    assert ("\n" + body)[1..] == body;
  }

  /** The language name is the run of letters and digits before the first
      other character. */
  lemma LanguageName(lang: string, body: string)
    requires lang != [] && forall i :: 0 <= i < |lang| ==> IsAlphanumeric(lang[i])
    ensures var code := lang + "\n" + body; var n := FencedBlock(code);
      n.el.lang == Some(lang) && n.el.code == Trim(body)
  {
    var code := lang + "\n" + body;
    assert code[|lang|] == '\n' && code[..|lang|] == lang && code[|lang|..] == "\n" + body;
    var n := FencedBlock(code);
    assert n.el.lang.Some?;
    assert n.el.lang.value == lang by {
      AlphanumericRunUnique(code, n.el.lang.value, lang);
    }
    TrimBreak(body);
  }

  /** "```lang\nbody```" is a code block in language "lang" holding the
      body, the language line stripped. */
  lemma FencedLanguage(lang: string, body: string, rest: string)
    requires lang != [] && forall i :: 0 <= i < |lang| ==> IsAlphanumeric(lang[i])
    requires FenceBody(body) && body != [] && !IsWhitespace(body[|body| - 1])
    ensures ParseCode(FENCE + lang + "\n" + body + FENCE + rest) == Parsed(rest, CodeblockNode(Some(lang), body))
  {
    var w := lang + "\n" + body;
    assert FENCE + lang + "\n" + body == FENCE + w;
    LanguageLineBody(lang, body);
    FencedDropsMark(w, rest);
    LanguageName(lang, body);
  }

  /** Code on a single line, once trimmed, has no language and is kept whole. */
  lemma FencedOneLine(w: string, rest: string)
    requires FenceBody(w) && '\n' !in Trim(w)
    ensures ParseCode(FENCE + w + FENCE + rest) == Parsed(rest, CodeblockNode(None, w))
  {
    FencedDropsMark(w, rest);
    TrimIdempotent(w);
  }

  /** A code block with some solid code is not an empty node. */
  lemma CodeblockKept(lang: Option<string>, w: string)
    requires !IsBlank(w)
    ensures AddNode([], CodeblockNode(lang, w)) == [CodeblockNode(lang, w)]
  {
    TextKindsEmptyIff(CodeblockNode(lang, w));
    TrimIdempotent(w);
    TrimEmptyIffBlank(w);
    TrimEmptyIffBlank(Trim(w));
  }

  /** Line breaks before solid text are dropped by the node parser. */
  lemma BreakDropped(v: string)
    requires v != [] && !IsWhitespace(v[0])
    ensures DropNewlines("\n" + v) == v
  {
    var x := "\n" + v;
    assert Consume(x, Char('\n')) == Cut(x, []) by {
      ConsumeUnique(x, Char('\n'), [], x);
    }
    assert x[1..] == v;
    SolidHead(v);
  }

  /** The loop of `parse` adds plain text after blank lines as one Text node. */
  lemma PlainAfterBreaks(x: string, v: string, nodes: seq<Node>)
    requires Solid(v) && DropNewlines(x) == v
    ensures ParseLoop(x, nodes) == nodes + [TextNode(v)]
  {
    SolidHead(v);
    DispatchText(x, v, AtLineStart(x));
    ParseTextFrom(v, v);
    PlainText(v);
    PlainNodeKept(v, nodes);
    LoopStep(x, nodes, Parsed([], TextNode(v)));
    LoopEnd([], nodes + [TextNode(v)]);
  }

  /** Corrected: a node parse of a one-line fenced block. */
  lemma FenceNodeAt(w: string, rest: string, atLineStart: bool)
    requires FenceBody(w) && '\n' !in Trim(w)
    ensures ParseNodeAt(FENCE + w + FENCE + rest, atLineStart) == Parsed(rest, CodeblockNode(None, w))
  {
    var s := FENCE + w + FENCE + rest;
    assert s[0] == '`';
    SolidHead(s);
    DispatchCode(s, s, atLineStart);
    FencedOneLine(w, rest);
  }

  /** Corrected: a document that opens with a one-line fenced block. */
  lemma FenceFirst(w: string, rest: string)
    requires FenceBody(w) && '\n' !in Trim(w) && !IsBlank(w)
    ensures ParseDocument(FENCE + w + FENCE + rest).nodes == ParseLoop(rest, [CodeblockNode(None, w)])
  {
    FenceNodeAt(w, rest, true);
    CodeblockKept(None, w);
    FirstNode(FENCE + w + FENCE + rest, Parsed(rest, CodeblockNode(None, w)));
  }

  /** Corrected: a one-line fenced block and then text on the next line give
      a Codeblock node and then a Text node. */
  lemma FenceThenText(w: string, v: string)
    requires FenceBody(w) && '\n' !in Trim(w) && !IsBlank(w) && Solid(v)
    ensures ParseDocument(FENCE + w + FENCE + ("\n" + v)).nodes == [CodeblockNode(None, w), TextNode(v)]
  {
    var x := "\n" + v;
    var n := CodeblockNode(None, w);
    BreakDropped(v);
    PlainAfterBreaks(x, v, [n]);
    FenceFirst(w, x);
    Pair(n, TextNode(v));
  }

  /** The strings of the example "```\na\n```\nb". */
  lemma FenceExampleChars()
    ensures "```\na\n```\nb" == FENCE + "\na\n" + FENCE + "\nb" && "\nb" == "\n" + "b"
    ensures "```\nb" == FENCE + "\nb" && "```\nb"[0] == '`'
    ensures '`' !in "\na\n" && '`' !in "\nb" && '\n' !in "a"
  {
  }

  lemma FenceExampleTrimA()
    ensures Trim("\na\n") == "a" && !IsBlank("\na\n") && Trim("a") == "a"
  {
    assert "\na\n" == "\n" + "a" + "\n";
    LineTrim("a");
    SolidTrimmed("a");
  }

  lemma FenceExampleTrimB()
    ensures Trim("\nb") == "b" && Trim("b") == "b" && Solid("b")
  {
    TrimBreak("b");
    SolidTrimmed("b");
  }

  /** A solid character on a line of its own trims to itself. */
  lemma LineTrim(a: string)
    requires |a| == 1 && !IsWhitespace(a[0])
    ensures Trim("\n" + a + "\n") == a && !IsBlank("\n" + a + "\n")
  {
    var x := "\n" + a + "\n";
    assert x[1] == a[0];
    assert TrimStart(x) == a + "\n" by {
      assert x[1..] == a + "\n";
    }
    assert TrimEnd(a + "\n") == a by {
      assert (a + "\n")[..1] == a;
    }
  }

  lemma FenceExampleStrings()
    ensures "```\na\n```\nb" == FENCE + "\na\n" + FENCE + "\nb" && "\nb" == "\n" + "b"
    ensures "```\nb" == FENCE + "\nb" && "```\nb"[0] == '`'
    ensures FenceBody("\na\n") && FenceFree("\nb") && '\n' !in Trim("\na\n")
    ensures Trim("\na\n") == "a" && Trim("\nb") == "b" && Trim("a") == "a" && Trim("b") == "b"
    ensures !IsBlank("\na\n") && Solid("b")
  {
    FenceExampleChars();
    FenceExampleTrimA();
    FenceExampleTrimB();
    NoTickFenceBody("\na\n");
    NoTickFenceBody("\nb");
  }

  /** The single-line code of the example has no language. */
  lemma FenceExampleBlockA()
    ensures FencedBlock("a") == CodeblockNode(None, "a")
  {
    FenceExampleStrings();
  }

  lemma FenceExampleBlockB()
    ensures FencedBlock("b") == CodeblockNode(None, "b")
  {
    FenceExampleStrings();
  }

  /** As written, the example's block leaves its closing fence behind. */
  lemma FenceExampleLeftover(s: string, left: string)
    requires s == "```\na\n```\nb" && left == "```\nb"
    ensures ParseCodeAsWritten(s) == Parsed(left, CodeblockNode(None, "a"))
  {
    FenceExampleStrings();
    FencedAsWrittenKeepsMark("\na\n", "\nb");
    FenceExampleBlockA();
  }

  /** The left-over fence is the first solid text of what remains. */
  lemma FenceExampleLeftoverHead(left: string)
    requires left == "```\nb"
    ensures FirstSolid(left) == Some('`')
  {
    assert left[0] == '`';
    SolidHead(left);
  }

  /** As written, the left-over fence opens a second block. */
  lemma FenceExampleReopened(left: string)
    requires left == "```\nb"
    ensures ParseCodeAsWritten(left) == Parsed([], CodeblockNode(None, "b"))
  {
    FenceExampleStrings();
    FencedAsWrittenReopens("\nb");
    FenceExampleBlockB();
  }

  /** The input "```\na\n```\nb" as written: the block's closing fence is
      left over, the node parser hands "```\nb" to the code parser again
      (its first solid character is a backtick), and "b" becomes a second
      code block. */
  lemma FenceExampleAsWritten(s: string, left: string)
    requires s == "```\na\n```\nb" && left == "```\nb"
    ensures ParseCodeAsWritten(s) == Parsed(left, CodeblockNode(None, "a"))
    ensures FirstSolid(left) == Some('`')
    ensures ParseCodeAsWritten(left) == Parsed([], CodeblockNode(None, "b"))
  {
    FenceExampleLeftover(s, left);
    FenceExampleLeftoverHead(left);
    FenceExampleReopened(left);
  }

  /** The input "```\na\n```\nb" corrected: a Codeblock node and then a
      Text node. */
  lemma FenceExampleCorrected(s: string)
    requires s == "```\na\n```\nb"
    ensures ParseCode(s) == Parsed("\nb", CodeblockNode(None, "a"))
    ensures ParseDocument(s).nodes == [CodeblockNode(None, "a"), TextNode("b")]
  {
    FenceExampleStrings();
    FencedOneLine("\na\n", "\nb");
    FenceThenText("\na\n", "b");
  }

  // ---------------------------------------------------------------------
  // Line breaks and blank lines in text.

  /** The white space the blank line between two paragraphs consists of. */
  const BLANK_LINE: string := "\n  \n"

  /** A line break before plain text is trimmed away, and it is no empty
      line. */
  lemma BreakBeforeSolid(y: string)
    requires y != [] && !IsWhitespace(y[0])
    ensures TrimStart("\n" + y) == y && !StartsWithEmptyLine("\n" + y) && !IsBlank("\n" + y)
  {
    assert ("\n" + y)[1..] == y;
    assert !EmptyLineFrom(y, true);
    SolidHead(y);
  }

  /** A blank line before plain text is trimmed away, and it is an empty
      line. */
  lemma BlankLineBeforeSolid(y: string)
    requires y != [] && !IsWhitespace(y[0])
    ensures TrimStart(BLANK_LINE + y) == y && StartsWithEmptyLine(BLANK_LINE + y)
  {
    var x := BLANK_LINE + y;
    assert IsBlank(BLANK_LINE);
    TrimStartBlankPrefix(BLANK_LINE, y);
    SolidHead(y);
    assert x[3] == '\n' && x[..3] == "\n  ";
    assert SecondBreakAt(x, 3, false);
    StartsWithEmptyLineIff(x);
  }

  /** The node parser drops white space up to and including a line break. */
  lemma DropNewlinesAfterBreak(w: string, z: string)
    requires IsBlank(w) && '\n' !in w
    ensures DropNewlines(w + ("\n" + z)) == DropNewlines(z)
  {
    var s := w + ("\n" + z);
    assert s[|w|] == '\n' && s[..|w|] == w;
    StartsWithNewLineIff(s);
    ConsumeUnique(s, Char('\n'), w, "\n" + z);
    assert ("\n" + z)[1..] == z;
  }

  lemma BlankLineChars(y: string)
    ensures BLANK_LINE + y == "\n" + ("  " + ("\n" + y))
  {
  }

  /** The node parser drops a line break at the head. */
  lemma BreakSkipped(z: string)
    ensures DropNewlines("\n" + z) == DropNewlines(z)
  {
    var x := "\n" + z;
    assert Consume(x, Char('\n')) == Cut(x, []) by {
      ConsumeUnique(x, Char('\n'), [], x);
    }
    assert x[1..] == z;
  }

  /** The node parser drops spaces and the line break after them. */
  lemma SpacesBreakSkipped(y: string)
    ensures DropNewlines("  " + ("\n" + y)) == DropNewlines(y)
  {
    DropNewlinesAfterBreak("  ", y);
  }

  /** The node parser drops a blank line before plain text. */
  lemma BlankLineDropped(y: string)
    requires y != [] && !IsWhitespace(y[0])
    ensures DropNewlines(BLANK_LINE + y) == y
  {
    BlankLineChars(y);
    BreakSkipped("  " + ("\n" + y));
    SpacesBreakSkipped(y);
    SolidHead(y);
  }

  /** A text run that ends at a line break followed by plain text on the
      next line: the node goes on. */
  lemma RoundAtBreak(rest: string, text: string, a: string, y: string)
    requires Solid(a) && TrimStart(rest) == a + ("\n" + y)
    requires y != [] && !IsWhitespace(y[0]) && !IsControl(y[0])
    ensures TextRound(rest, text) == TextStep("\n" + y, AppendFragment(text, a), false)
  {
    PlainRunStops(a, "\n" + y);
    BreakBeforeSolid(y);
    SolidTrimmed(a);
  }

  /** A text run that ends at a blank line: the node ends there. */
  lemma RoundAtBlankLine(rest: string, text: string, a: string, y: string)
    requires Solid(a) && TrimStart(rest) == a + (BLANK_LINE + y)
    requires y != [] && !IsWhitespace(y[0]) && !IsControl(y[0])
    ensures TextRound(rest, text) == TextStep(BLANK_LINE + y, AppendFragment(text, a), true)
  {
    PlainRunStops(a, BLANK_LINE + y);
    BlankLineBeforeSolid(y);
    SolidTrimmed(a);
  }

  /** Two pieces of solid text joined by a space are solid text. */
  lemma SolidJoin(a: string, b: string)
    requires Solid(a) && Solid(b)
    ensures Solid(a + " " + b) && AppendFragment(a, b) == a + " " + b
    ensures TextEl(a + " " + b) == TextNode(a + " " + b)
  {
    var x := a + " " + b;
    forall i | 0 <= i < |x|
      ensures !IsControl(x[i]) && x[i] != '\n' && x[i] != '|'
    {
      if i < |a| {
        assert x[i] == a[i];
      } else if i > |a| {
        assert x[i] == b[i - |a| - 1];
      }
    }
    assert x[0] == a[0] && x[|x| - 1] == b[|b| - 1];
    SolidTrimmed(b);
    SolidTrimmed(x);
  }

  /** Two lines of plain text are one Text node, the line break read as a
      space. */
  lemma TwoLines(b: string, c: string)
    requires Solid(b) && Solid(c)
    ensures TextLoop(b + ("\n" + c), "") == Parsed([], TextNode(b + " " + c))
  {
    var x := b + ("\n" + c);
    assert x[0] == b[0];
    SolidHead(x);
    SolidTrimmed(b);
    RoundAtBreak(x, "", b, c);
    PlainRun(c);
    BreakBeforeSolid(c);
    RoundStopsAtEnd("\n" + c, b, Cut([], c));
    SolidJoin(b, c);
  }

  /** A line break inside a paragraph is read as a space; a blank line ends
      the paragraph's Text node. */
  lemma LineBreakText(a: string, b: string, c: string)
    requires Solid(a) && Solid(b) && Solid(c)
    ensures TextLoop(a + ("\n" + (b + (BLANK_LINE + c))), "") == Parsed(BLANK_LINE + c, TextNode(a + " " + b))
  {
    var y := b + (BLANK_LINE + c);
    var x := a + ("\n" + y);
    assert x[0] == a[0] && y[0] == b[0];
    SolidHead(x);
    SolidTrimmed(a);
    RoundAtBreak(x, "", a, y);
    BreakBeforeSolid(y);
    SolidHead(y);
    RoundAtBlankLine("\n" + y, a, b, c);
    SolidJoin(a, b);
  }

  lemma LineBreakStrings(a: string, b: string, c: string)
    ensures a + "\n" + b + "\n  \n" + c == a + ("\n" + (b + (BLANK_LINE + c)))
  {
  }

  /** "line\nno break\n  \nbroken": lines are joined into one Text node
      until a blank line, which starts the next. */
  lemma LineBreakDocument(a: string, b: string, c: string)
    requires Solid(a) && Solid(b) && Solid(c)
    ensures ParseDocument(a + "\n" + b + "\n  \n" + c).nodes == [TextNode(a + " " + b), TextNode(c)]
  {
    var s := a + ("\n" + (b + (BLANK_LINE + c)));
    var t := TextNode(a + " " + b);
    LineBreakStrings(a, b, c);
    assert s[0] == a[0];
    SolidHead(s);
    SolidJoin(a, b);
    assert ParseNodeAt(s, true) == Parsed(BLANK_LINE + c, t) by {
      DispatchText(s, s, true);
      ParseTextFrom(s, s);
      LineBreakText(a, b, c);
    }
    PlainNodeKept(a + " " + b, []);
    FirstNode(s, Parsed(BLANK_LINE + c, t));
    BlankLineDropped(c);
    PlainAfterBreaks(BLANK_LINE + c, c, [t]);
    Pair(t, TextNode(c));
  }

  /** Text before a line break that a control character other than '!'
      follows: the node ends at the line break. */
  lemma TextBeforeBreak(a: string, r: string)
    requires Solid(a) && r != [] && IsControl(r[0]) && r[0] != '!'
    ensures TextLoop(a + ("\n" + r), "") == Parsed("\n" + r, TextNode(a))
  {
    var x := a + ("\n" + r);
    assert x[0] == a[0];
    SolidHead(x);
    PlainRunStops(a, "\n" + r);
    ControlChars(r[0]);
    BreakBeforeSolid(r);
    ControlHead(r);
    RoundStopsAtControl(x, "", Cut("\n" + r, a));
    SolidTrimmed(a);
  }

  /** The string facts of a level-two heading line. */
  lemma HeadingTwoStrings(h: string, x: string)
    requires Solid(h)
    ensures var s := "## " + (h + ("\n" + x));
      && TrimStart(s) == s && FirstSolid(s) == Some('#') && DropNewlines(s) == s
      && Consume(s, NoneOf("#")) == Cut(" " + (h + ("\n" + x)), "##")
      && TrimStart(" " + (h + ("\n" + x))) == h + ("\n" + x)
      && Consume(h + ("\n" + x), Char('\n')) == Cut("\n" + x, h)
  {
    var y := h + ("\n" + x);
    var s := "## " + y;
    assert s[0] == '#';
    SolidHead(s);
    assert s == "##" + (" " + y);
    assert (" " + y)[0] == ' ';
    ConsumeUnique(s, NoneOf("#"), "##", " " + y);
    assert y[0] == h[0];
    SpacedHead(y);
    ConsumeUnique(y, Char('\n'), h, "\n" + x);
  }

  /** "## text" up to the end of its line is a level-two heading holding
      the text; the line break is left to the next node. */
  lemma HeadingTwoParse(h: string, x: string)
    requires Solid(h)
    ensures ParseHeading("## " + (h + ("\n" + x))) == Parsed("\n" + x, HeadingNode(2, [TextNode(h)]))
  {
    HeadingTwoStrings(h, x);
    PlainParse(h);
  }

  /** A heading holding solid text is not an empty node. */
  lemma HeadingTextKept(level: nat, v: string, nodes: seq<Node>)
    requires Solid(v)
    ensures AddNode(nodes, HeadingNode(level, [TextNode(v)])) == nodes + [HeadingNode(level, [TextNode(v)])]
  {
    SolidTrimmed(v);
    assert !IsEmpty(TextNode(v));
    assert !AllEmpty([TextNode(v)]);
  }

  /** The loop of `parse` reads a heading on the next line. */
  lemma NextLineHeading(h: string, x: string, nodes: seq<Node>)
    requires Solid(h)
    ensures var r := "## " + (h + ("\n" + x));
      ParseLoop("\n" + r, nodes) == ParseLoop("\n" + x, nodes + [HeadingNode(2, [TextNode(h)])])
  {
    var r := "## " + (h + ("\n" + x));
    var hd := HeadingNode(2, [TextNode(h)]);
    HeadingTwoStrings(h, x);
    BreakDropped(r);
    DispatchHeading("\n" + r, r, AtLineStart("\n" + r));
    HeadingTwoParse(h, x);
    HeadingTextKept(2, h, nodes);
    BreakBeforeSolid(r);
    LoopStep("\n" + r, nodes, Parsed("\n" + x, hd));
  }

  /** The loop of `parse` reads two lines of plain text on the next line as
      one Text node. */
  lemma NextLinesText(b: string, c: string, nodes: seq<Node>)
    requires Solid(b) && Solid(c)
    ensures ParseLoop("\n" + (b + ("\n" + c)), nodes) == nodes + [TextNode(b + " " + c)]
  {
    var x := b + ("\n" + c);
    var t := TextNode(b + " " + c);
    assert x[0] == b[0];
    SolidHead(x);
    BreakDropped(x);
    BreakBeforeSolid(x);
    DispatchText("\n" + x, x, AtLineStart("\n" + x));
    ParseTextFrom(x, x);
    TwoLines(b, c);
    SolidJoin(b, c);
    PlainNodeKept(b + " " + c, nodes);
    LoopStep("\n" + x, nodes, Parsed([], t));
    LoopEnd([], nodes + [t]);
  }

  lemma HeadingAfterTextStrings(a: string, h: string, b: string, c: string)
    ensures a + "\n## " + h + "\n" + b + "\n" + c
      == a + ("\n" + ("## " + (h + ("\n" + (b + ("\n" + c))))))
  {
  }

  /** A document that opens with text before a line break and a control
      character. */
  lemma TextLineFirst(a: string, r: string)
    requires Solid(a) && r != [] && IsControl(r[0]) && r[0] != '!'
    ensures ParseDocument(a + ("\n" + r)).nodes == ParseLoop("\n" + r, [TextNode(a)])
  {
    var s := a + ("\n" + r);
    assert s[0] == a[0];
    SolidHead(s);
    ControlChars(r[0]);
    DispatchText(s, s, true);
    ParseTextFrom(s, s);
    TextBeforeBreak(a, r);
    PlainNodeKept(a, []);
    FirstNode(s, Parsed("\n" + r, TextNode(a)));
  }

  /** "some text\n## Heading two\nSome other text\nmore text": text, then a
      level-two heading on its own line, then the following lines joined
      into one Text node. */
  lemma HeadingAfterText(a: string, h: string, b: string, c: string)
    requires Solid(a) && Solid(h) && Solid(b) && Solid(c)
    ensures ParseDocument(a + "\n## " + h + "\n" + b + "\n" + c).nodes
      == [TextNode(a), HeadingNode(2, [TextNode(h)]), TextNode(b + " " + c)]
  {
    var x := b + ("\n" + c);
    var r := "## " + (h + ("\n" + x));
    var hd := HeadingNode(2, [TextNode(h)]);
    HeadingAfterTextStrings(a, h, b, c);
    assert r[0] == '#';
    TextLineFirst(a, r);
    NextLineHeading(h, x, [TextNode(a)]);
    NextLinesText(b, c, [TextNode(a)] + [hd]);
    TwoMore([TextNode(a)], hd, TextNode(b + " " + c));
    OneThenTwo(TextNode(a), hd, TextNode(b + " " + c));
  }
}
