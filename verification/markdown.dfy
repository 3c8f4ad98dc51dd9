/**
  The Markdown parser: a recursive descent over the remaining input. Every
  parse function takes the text still to be read and returns what is left
  together with the node it built; nodes that are empty are dropped as they
  are collected.

  The parser's `while` loops are written as recursive functions over the
  remaining text. Each is shown to terminate by the length of that text:
  every node parse consumes at least one character of input that is not
  blank, which the contracts below state and the verifier checks.
*/
module Markdown {
  import opened Strings
  import opened Model
  import opened Documents
  import opened MarkdownScan

  /** What a node parse returns: the unread input and the node. */
  datatype Parsed = Parsed(rest: string, node: Node)

  /** What a table-row parse returns: the unread input and the row's cells. */
  datatype RowParsed = RowParsed(rest: string, cells: seq<Cell>)

  /** A run of collected nodes together with the unread input. */
  datatype NodesParsed = NodesParsed(rest: string, nodes: seq<Node>)

  predicate NoneEmpty(ns: seq<Node>) {
    forall i :: 0 <= i < |ns| ==> !IsEmpty(ns[i])
  }

  /** `add_node`: keep a node only when it is not empty. */
  function AddNode(to: seq<Node>, n: Node): (r: seq<Node>)
    ensures NoneEmpty(to) ==> NoneEmpty(r)
    ensures IsEmpty(n) ==> r == to
    ensures !IsEmpty(n) ==> r == to + [n]
  {
    if IsEmpty(n) then to else to + [n]
  }

  predicate StartsWithControl(s: string) {
    s != [] && IsControl(s[0])
  }

  /** `consume_whitespace`: skip to the first character that is not white space. */
  function ConsumeWhitespace(s: string): (r: string)
    ensures r == TrimStart(s)
  {
    var t := TrimStart(s);
    ConsumeUnique(s, NotWhitespace, s[..|s| - |t|], t);
    Consume(s, NotWhitespace).rest
  }

  lemma TrimStartTwice(s: string)
    ensures TrimStart(TrimStart(s)) == TrimStart(s)
    ensures FirstSolid(TrimStart(s)) == FirstSolid(s)
  {
  }

  /** The white space at the head, up to and including each line break that
      has only white space before it, is dropped (the loop at the top of
      `_parse_node`). */
  function DropNewlines(s: string): (r: string)
    ensures IsSuffix(r, s)
    ensures IsBlank(r) == IsBlank(s)
    ensures FirstSolid(r) == FirstSolid(s)
    ensures !StartsWithNewLine(r)
    decreases |s|
  {
    if StartsWithNewLine(s) then
      var c := Consume(s, Char('\n'));
      NewLineTakenBlank(s);
      TrimStartEmptyIff(s);
      TrimStartEmptyIff(DropFirst(c.rest));
      var r := DropNewlines(DropFirst(c.rest));
      SuffixTransitive(r, DropFirst(c.rest), s);
      r
    else s
  }

  /** A head line break is the first '\n', with only white space before it. */
  lemma {:induction false} NewLineCut(s: string)
    requires StartsWithNewLine(s)
    ensures var c := Consume(s, Char('\n'));
      IsBlank(c.taken) && c.rest != [] && c.rest[0] == '\n'
    decreases |s|
  {
    if s[0] != '\n' {
      var c' := Consume(s[1..], Char('\n'));
      ConsumeStep(s, Char('\n'));
      assert StartsWithNewLine(s[1..]) && IsWhitespace(s[0]);
      NewLineCut(s[1..]);
      var taken := [s[0]] + c'.taken;
      forall j | 0 <= j < |taken|
        ensures IsWhitespace(taken[j])
      {
        if j > 0 {
          assert taken[j] == c'.taken[j - 1];
        }
      }
    } else {
      assert Consume(s, Char('\n')).taken == [] by {
        ConsumeUnique(s, Char('\n'), [], s);
      }
    }
  }

  /** A blank prefix does not change where the solid text starts. */
  lemma {:induction false} TrimStartBlankPrefix(w: string, s: string)
    requires IsBlank(w)
    ensures TrimStart(w + s) == TrimStart(s)
    decreases |w|
  {
    if w != [] {
      assert (w + s)[0] == w[0] && (w + s)[1..] == w[1..] + s;
      TrimStartBlankPrefix(w[1..], s);
    } else {
      assert w + s == s;
    }
  }

  /** White space and a line break before `x` are dropped by trimming. */
  lemma BreakPrefix(s: string, taken: string, x: string)
    requires IsBlank(taken) && s == taken + ("\n" + x)
    ensures IsSuffix(x, s) && TrimStart(s) == TrimStart(x)
  {
    var w := taken + "\n";
    assert s == w + x;
    assert IsBlank(w) by {
      assert forall i :: 0 <= i < |taken| ==> w[i] == taken[i];
    }
    TrimStartBlankPrefix(w, x);
    assert s[|w|..] == x;
  }

  /** Dropping a head line break drops only white space. */
  lemma NewLineTakenBlank(s: string)
    requires StartsWithNewLine(s)
    ensures var x := DropFirst(Consume(s, Char('\n')).rest);
      IsSuffix(x, s) && TrimStart(x) == TrimStart(s)
  {
    var c := Consume(s, Char('\n'));
    NewLineCut(s);
    var x := DropFirst(c.rest);
    assert c.rest == "\n" + x by {
      assert c.rest[1..] == x;
    }
    BreakPrefix(s, c.taken, x);
  }

  lemma BlankSuffix(r: string, s: string)
    requires IsSuffix(r, s) && IsBlank(s)
    ensures IsBlank(r)
  {
    assert forall i :: 0 <= i < |r| ==> r[i] == s[|s| - |r| + i];
  }

  // ---------------------------------------------------------------------
  // Parses that never call back into the node parser.

  /** The text kept by the text parser's loop. */
  function TextEl(text: string): Node {
    Node(Text(text), [], [])
  }

  /** Where `parse_text` makes progress: the first solid character is plain
      text, or a '!' that does not open an image. */
  predicate TextStart(s: string) {
    FirstSolid(s).Some? &&
    (!IsControl(FirstSolid(s).value) || (FirstSolid(s).value == '!' && NthSolid(s, 2) != Some('[')))
  }

  /** The stop characters of one text run: the control characters and '\n'. */
  const TEXT_STOP: CharPattern := AnyOf(CONTROL + "\n")

  /** One text run reads at least one character unless it stops at a
      control character. */
  lemma TextRunProgress(rest: string)
    ensures var rest1 := Consume(TrimStart(rest), TEXT_STOP).rest;
      |rest1| <= |rest| &&
      (!StartsWithControl(TrimStart(rest1)) && !IsBlank(rest1) ==> |rest1| < |rest|)
  {
    var t := TrimStart(rest);
    var c := Consume(t, TEXT_STOP);
    assert |c.rest| <= |t|;
    if |c.rest| == |rest| && !IsBlank(c.rest) {
      assert c.taken == [] && c.rest == rest && t == rest;
      assert !IsWhitespace(rest[0]);
      assert rest[0] in CONTROL + "\n";
      ControlChars(rest[0]);
      assert TrimStart(c.rest) == c.rest;
    }
  }

  /** One round of the loop of `parse_text`, and whether the loop stops after it. */
  datatype TextStep = TextStep(rest: string, text: string, done: bool)

  /** One round of `parse_text`'s loop: read a run of plain text and add it
      to the node, then decide at the character that stopped the run. A '!'
      that does not open an image is kept as text; another control
      character, an empty line or the end of the input ends the node. */
  function TextRound(rest: string, text: string): (r: TextStep)
    ensures |r.rest| <= |rest|
    ensures !r.done ==> |r.rest| < |rest|
    ensures TextStart(rest) ==> |r.rest| < |rest|
  {
    var c := Consume(TrimStart(rest), TEXT_STOP);
    TextRunProgress(rest);
    TextStartProgress(rest);
    var rest1 := c.rest;
    var text1 := AppendFragment(text, c.taken);
    if !StartsWithControl(TrimStart(rest1)) then
      TextStep(rest1, text1, StartsWithEmptyLine(rest1) || IsBlank(rest1))
    else if FirstSolid(rest1) == Some('!') && NthSolid(rest1, 2) != Some('[') then
      var rest2 := DropFirst(rest1);
      TextStep(rest2, text1 + "!", StartsWithEmptyLine(rest2) || IsBlank(rest2))
    else
      TextStep(rest1, text1, true)
  }

  /** The loop of `parse_text`. */
  function TextLoop(rest: string, text: string): (r: Parsed)
    ensures |r.rest| <= |rest|
    ensures TextStart(rest) ==> |r.rest| < |rest|
    ensures r.node.el.Text? && r.node.attrs == [] && r.node.tags == []
    decreases |rest|
  {
    var step := TextRound(rest, text);
    if step.done then Parsed(step.rest, TextEl(step.text)) else TextLoop(step.rest, step.text)
  }

  /** On a text start the first run either reads something or stops at a
      '!' that is then kept, so the remaining input shrinks. */
  lemma TextStartProgress(rest: string)
    ensures var rest1 := Consume(TrimStart(rest), TEXT_STOP).rest;
      TextStart(rest) ==>
        (|rest1| < |rest| ||
         (rest1 != [] && StartsWithControl(TrimStart(rest1)) &&
          FirstSolid(rest1) == Some('!') && NthSolid(rest1, 2) != Some('[')))
  {
    var t := TrimStart(rest);
    var c := Consume(t, TEXT_STOP);
    if TextStart(rest) && |c.rest| >= |rest| {
      assert c.taken == [] && c.rest == t && t == rest;
      assert FirstSolid(rest) == Some(rest[0]);
      ControlChars(rest[0]);
      assert TrimStart(c.rest) == c.rest;
    }
  }

  /** `parse_text`: a Text node from the head of the input. */
  function ParseText(input: string): (r: Parsed)
    ensures |r.rest| <= |input|
    ensures TextStart(input) ==> |r.rest| < |input|
    ensures r.node.el.Text?
  {
    NthSolidTrim(input, 2);
    TrimStartTwice(input);
    TextLoop(TrimStart(input), "")
  }

  /** What the link parser falls back to when the brackets do not form a
      link: one Text node holding the consumed text and the text after it. */
  function LinkFallback(input: string, rest: string): (r: Parsed)
    requires |rest| <= |input|
    ensures |r.rest| <= |rest|
    ensures r.node.el.Text?
  {
    var consumed := |input| - |rest|;
    var p := ParseText(rest);
    Parsed(p.rest, TextNode(Trim(input[..consumed]) + " " + Trim(p.node.el.text)))
  }

  lemma TrimShorter(s: string)
    ensures |Trim(s)| <= |s|
  {
  }

  /** `parse_link`: "[text](url)" gives a Link; anything else falls back to
      text that starts with what was read. */
  function ParseLink(input: string): (r: Parsed)
    ensures |r.rest| <= |input|
    ensures !IsBlank(input) ==> |r.rest| < |input|
    ensures r.node.el.Link? || r.node.el.Text?
  {
    TrimStartEmptyIff(input);
    var rest0 := DropFirst(TrimStart(input));
    var c := Consume(rest0, Char(']'));
    var rest1 := if FirstChar(c.rest) == Some(']') then DropFirst(c.rest) else c.rest;
    if FirstSolid(rest1) == Some('(') then
      TrimShorter(rest1);
      var u := Consume(DropFirst(Trim(rest1)), Char(')'));
      if FirstSolid(u.rest) == Some(')') then
        TrimShorter(u.rest);
        Parsed(DropFirst(Trim(u.rest)), LinkNode(Trim(c.taken), u.taken))
      else LinkFallback(input, u.rest)
    else LinkFallback(input, rest1)
  }

  /** `parse_image`: a '!' and then a link; the link's text and url become
      the image's alt text and url. */
  function ParseImage(input: string): (r: Parsed)
    ensures |r.rest| <= |input|
    ensures !IsBlank(input) ==> |r.rest| < |input|
    ensures r.node.el.Image? || r.node.el.Text?
  {
    TrimStartEmptyIff(input);
    var link := DropFirst(TrimStart(input));
    assert |link| <= |input| && (!IsBlank(input) ==> |link| < |input|);
    var p := ParseLink(link);
    if p.node.el.Link? then Parsed(p.rest, ImageNode(p.node.el.text, p.node.el.url)) else p
  }

  const FENCE: string := "```"

  /** The fenced block's body: when the code spans more than one line, the
      letters and digits at its head name the language (possibly none of
      them, giving an empty name) and the rest is the code; code on a single
      line has no language. */
  function FencedBlock(code: string): (r: Node)
    ensures r.el.Codeblock? && r.attrs == [] && r.tags == []
    ensures r.el.lang.Some? <==> '\n' in code
    ensures r.el.lang.None? ==> r.el.code == Trim(code)
    ensures r.el.lang.Some? ==>
      var lang := r.el.lang.value;
      && |lang| < |code| && code[..|lang|] == lang
      && (forall i :: 0 <= i < |lang| ==> IsAlphanumeric(lang[i]))
      && !IsAlphanumeric(code[|lang|])
      && r.el.code == Trim(code[|lang|..])
  {
    var lang := Consume(code, NotAlphanumeric);
    if '\n' in code && lang.rest != [] then CodeblockNode(Some(lang.taken), lang.rest)
    else CodeblockNode(None, code)
  }

  /** `parse_code` as the program writes it: a fenced block between "```"
      marks, or inline code between single backticks. The closing mark is
      left at the head of the remaining input. */
  function ParseCodeAsWritten(input: string): (r: Parsed)
    ensures |r.rest| <= |input|
    ensures input != [] ==> |r.rest| < |input|
    ensures r.node.el.Codeblock? || r.node.el.Code?
  {
    if StartsWith(input, FENCE) then
      var c := ConsumeStr(DropN(input, 3), FENCE);
      Parsed(c.rest, FencedBlock(Trim(c.taken)))
    else
      var c := Consume(DropFirst(input), Char('`'));
      Parsed(c.rest, CodeNode(c.taken))
  }

  /** `parse_code`, corrected: the same node as the program reads, with the
      closing mark consumed (see the findings in the README). A closing mark
      is the three backticks after a fenced block, or the backtick after a
      span that opened with one. When white space comes before the first
      backtick, the backtick met after the first character is the opening
      mark, not a closing one: it stays in the input, as in the program, and
      opens the next node. */
  function ParseCode(input: string): (r: Parsed)
    ensures |r.rest| <= |input|
    ensures input != [] ==> |r.rest| < |input|
    ensures r.node.el.Codeblock? || r.node.el.Code?
  {
    var p := ParseCodeAsWritten(input);
    if StartsWith(input, FENCE) then Parsed(DropN(p.rest, 3), p.node)
    else if input != [] && input[0] == '`' then Parsed(DropFirst(p.rest), p.node)
    else p
  }

  // ---------------------------------------------------------------------
  // The mutually recursive node parser. Each `decreases` clause pairs the
  // length of the input with a rank that orders the calls made on input of
  // the same length.

  /** The '#' characters at the head of a heading. */
  lemma HashRun(s: string)
    requires s != [] && s[0] == '#'
    ensures var h := Consume(s, NoneOf("#"));
      && 1 <= |h.taken| <= |s|
      && (forall j :: 0 <= j < |h.taken| ==> s[j] == '#')
      && (|h.taken| < |s| ==> s[|h.taken|] != '#')
  {
    var h := Consume(s, NoneOf("#"));
    assert h.taken == s[..|h.taken|];
    assert forall j :: 0 <= j < |h.taken| ==> h.taken[j] in "#";
    assert |h.taken| < |s| ==> h.rest[0] == s[|h.taken|];
  }

  /** `parse_heading`: '#' characters give the level (at most six), and the
      rest of the line is parsed as the heading's content. */
  function ParseHeading(input: string): (r: Parsed)
    requires FirstSolid(input) == Some('#')
    ensures |r.rest| < |input|
    ensures r.node.el.Heading? && 1 <= r.node.el.level <= HEADING_MAX_LEVEL
    ensures var s := TrimStart(input); var level := r.node.el.level;
      level <= |s| && (forall j :: 0 <= j < level ==> s[j] == '#') &&
      (level == HEADING_MAX_LEVEL || level == |s| || s[level] != '#')
    decreases |input|, 6
  {
    var s := TrimStart(input);
    var hashes := Consume(s, NoneOf("#"));
    HashRun(s);
    var level := Min(|hashes.taken|, HEADING_MAX_LEVEL);
    var line := Consume(TrimStart(hashes.rest), Char('\n'));
    Parsed(line.rest, HeadingNode(level, Parse(line.taken, false)))
  }

  /** `parse_style`: "**" opens bold text up to the next "**", '*' italic
      text up to the next '*', and '~' struck-through text up to the next
      '~'. Only called where the first solid character is '*' or '~'. */
  function ParseStyle(input: string): (r: Parsed)
    requires FirstSolid(input) == Some('*') || FirstSolid(input) == Some('~')
    ensures |r.rest| < |input|
    ensures r.node.el.Style?
    ensures var s := TrimStart(input);
      r.node.el.style == (if StartsWith(s, "**") then Bold else if s[0] == '*' then Italic else Strikethrough)
    decreases |input|, 6
  {
    var s := ConsumeWhitespace(input);
    if StartsWith(s, "**") then
      var c := ConsumeStr(DropN(s, 2), "**");
      Parsed(DropN(c.rest, 2), StyleNode(Bold, Parse(c.taken, false)))
    else if s[0] == '*' then
      var c := Consume(DropFirst(s), Char('*'));
      Parsed(DropFirst(c.rest), StyleNode(Italic, Parse(c.taken, false)))
    else
      var c := Consume(DropFirst(s), Char('~'));
      Parsed(DropFirst(c.rest), StyleNode(Strikethrough, Parse(c.taken, false)))
  }

  /** `parse_list`: list items as long as the bullets keep the first one's
      indentation. Only called where the first solid character is '*'. */
  function ParseList(input: string): (r: Parsed)
    requires FirstSolid(input) == Some('*')
    ensures |r.rest| < |input|
    ensures r.node.el.List?
    decreases |input|, 6
  {
    var items := ListLoop(input, [], ListPrefixSize(input));
    Parsed(items.rest, ListNode(items.nodes))
  }

  /** The loop of `parse_list`. */
  function ListLoop(rest: string, nodes: seq<Node>, prefix: Option<nat>): (r: NodesParsed)
    requires prefix.Some?
    ensures |r.rest| <= |rest|
    ensures ListPrefixSize(rest) == prefix ==> |r.rest| < |rest|
    decreases |rest|, 5
  {
    if ListPrefixSize(rest) == prefix then
      var p := ParseListItem(rest);
      ListLoop(p.rest, AddNode(nodes, p.node), prefix)
    else NodesParsed(rest, nodes)
  }

  /** `parse_list_item`: the content after the bullet, line by line, until
      the input runs out, an empty line, or a bullet indented no deeper than
      this item's own. */
  function ParseListItem(input: string): (r: Parsed)
    ensures |r.rest| <= |input|
    ensures input != [] ==> |r.rest| < |input|
    ensures r.node.el.Item?
    decreases |input|, 4
  {
    var rest := DropFirst(Consume(input, Char('*')).rest);
    if input == [] then Parsed(rest, ItemNode([]))
    else
      var body := ItemLines(rest, [], ListPrefixSize(input));
      Parsed(body.rest, ItemNode(body.nodes))
  }

  /** The outer loop of `parse_list_item`: one line of content per round. */
  function ItemLines(rest: string, nodes: seq<Node>, prefix: Option<nat>): (r: NodesParsed)
    ensures |r.rest| <= |rest|
    decreases |rest|, 13
  {
    if IsBlank(rest) || StartsWithEmptyLine(rest) then NodesParsed(rest, nodes)
    else
      var line := ItemLine(rest, nodes);
      if FirstSolid(line.rest) == Some('*') && OptionLe(ListPrefixSize(line.rest), prefix) then line
      else if StartsWithEmptyLine(line.rest) then line
      else
        var p := ParseNodeAt(line.rest, true);
        ItemLines(p.rest, AddNode(line.nodes, p.node), prefix)
  }

  /** The inner loop of `parse_list_item`: nodes up to the end of the line. */
  function ItemLine(rest: string, nodes: seq<Node>): (r: NodesParsed)
    ensures |r.rest| <= |rest|
    decreases |rest|, 12
  {
    if IsBlank(rest) || FirstChar(rest) == Some('\n') then NodesParsed(rest, nodes)
    else
      var p := ParseNode(rest);
      ItemLine(p.rest, AddNode(nodes, p.node))
  }

  /** `parse_table`: rows as long as the next line starts with '|'. */
  function ParseTable(input: string): (r: Parsed)
    ensures |r.rest| <= |input|
    ensures input != [] ==> |r.rest| < |input|
    ensures r.node.el.Table?
    decreases |input|, 6
  {
    TableLoop(input, [])
  }

  /** The loop of `parse_table`: it reads a row before it tests. */
  function TableLoop(rest: string, rows: seq<Row>): (r: Parsed)
    ensures |r.rest| <= |rest|
    ensures rest != [] ==> |r.rest| < |rest|
    ensures r.node.el.Table? && |r.node.el.rows| > |rows|
    decreases |rest|, 5
  {
    var row := ParseRow(rest);
    var rows' := rows + [Row(row.cells)];
    if StartsWith(row.rest, "\n") && FirstSolid(row.rest) == Some('|') then TableLoop(row.rest, rows')
    else Parsed(row.rest, TableNode(rows'))
  }

  /** `parse_row`: skip to the first '|', then one cell per '|'-separated
      piece up to the end of the line. */
  function ParseRow(input: string): (r: RowParsed)
    ensures |r.rest| <= |input|
    ensures input != [] ==> |r.rest| < |input|
    ensures input == [] ==> r.rest == []
    decreases |input|, 4
  {
    // An empty input leaves nothing to drop and no cell to read.
    if input == [] then RowParsed([], [])
    else RowCells(DropFirst(Consume(input, Char('|')).rest), [])
  }

  /** The loop of `parse_row`. */
  function RowCells(rest: string, cells: seq<Cell>): (r: RowParsed)
    ensures |r.rest| <= |rest|
    ensures |r.cells| >= |cells|
    decreases |rest|, 11
  {
    if rest == [] || rest[0] == '\n' then RowParsed(rest, cells)
    else
      var c := Consume(rest, AnyOf("|\n"));
      var rest' := if StartsWith(c.rest, "|") then DropFirst(c.rest) else c.rest;
      RowCells(rest', cells + [Cell(Parse(c.taken, false))])
  }

  /** Which parser `_parse_node` hands the input to. */
  datatype Kind = Blank | CodeKind | HeadingKind | ListKind | StyleKind
                | LinkKind | ImageKind | TableKind | TextKind

  /** The dispatch of `_parse_node` on the first solid character: a `*`
      opens a list item only at the start of a line, a `!` opens an image
      only when the next solid character is `[`, and a `|` opens a table only
      at the start of a line; everything else is text. */
  function KindOf(rest: string, atLineStart: bool): (k: Kind)
    ensures k == Blank <==> IsBlank(rest)
    ensures k == HeadingKind ==> FirstSolid(rest) == Some('#')
    ensures k == ListKind ==> FirstSolid(rest) == Some('*')
    ensures k == StyleKind ==> FirstSolid(rest) == Some('*') || FirstSolid(rest) == Some('~')
    ensures k == TextKind ==> TextStart(rest)
  {
    match FirstSolid(rest)
    case None => Blank
    case Some(c) =>
      if c == '`' then CodeKind
      else if c == '#' then HeadingKind
      else if c == '*' && atLineStart then ListKind
      else if c == '*' || c == '~' then StyleKind
      else if c == '[' then LinkKind
      else if c == '!' && NthSolid(rest, 2) == Some('[') then ImageKind
      else if c == '|' && atLineStart then TableKind
      else TextKind
  }

  /** The classification read the other way: each kind holds exactly when
      its opening character (and, for lists and tables, the line start) is
      there. */
  lemma KindOfIff(rest: string, atLineStart: bool)
    ensures var k := KindOf(rest, atLineStart); var c := FirstSolid(rest);
      (k == CodeKind <==> c == Some('`')) &&
      (k == HeadingKind <==> c == Some('#')) &&
      (k == ListKind <==> c == Some('*') && atLineStart) &&
      (k == StyleKind <==> c == Some('~') || (c == Some('*') && !atLineStart)) &&
      (k == LinkKind <==> c == Some('[')) &&
      (k == ImageKind <==> c == Some('!') && NthSolid(rest, 2) == Some('[')) &&
      (k == TableKind <==> c == Some('|') && atLineStart)
  {
  }

  /** What the dispatch of `_parse_node` learns about the input: it is
      blank exactly when the classification says so, and otherwise what is
      left after the blank lines is not blank either. */
  lemma KindOfDropped(input: string, atLineStart: bool)
    ensures var rest := DropNewlines(input);
      |rest| <= |input| &&
      (KindOf(rest, atLineStart) == Blank <==> IsBlank(input)) &&
      (KindOf(rest, atLineStart) != Blank ==> rest != [] && !IsBlank(rest))
  {
  }

  /** `_parse_node`: skip leading blank lines, then choose the parse by the
      first solid character. A bullet starts a list and a '|' a table only
      at the start of a line. */
  function ParseNodeAt(input: string, atLineStart: bool): (r: Parsed)
    ensures |r.rest| <= |input|
    ensures !IsBlank(input) ==> |r.rest| < |input|
    ensures IsBlank(input) ==> r == Parsed([], EmptyNode())
    decreases |input|, 7
  {
    var rest := DropNewlines(input);
    KindOfDropped(input, atLineStart);
    match KindOf(rest, atLineStart)
    case Blank => Parsed([], EmptyNode())
    case CodeKind => ParseCode(rest)
    case HeadingKind => ParseHeading(rest)
    case ListKind => ParseList(rest)
    case StyleKind => ParseStyle(rest)
    case LinkKind => ParseLink(rest)
    case ImageKind => ParseImage(rest)
    case TableKind => ParseTable(rest)
    case TextKind => ParseText(rest)
  }

  /** `parse_node`: a node, at the start of a line when nothing but white
      space comes before the next line break. */
  function ParseNode(input: string): (r: Parsed)
    ensures |r.rest| <= |input|
    ensures !IsBlank(input) ==> |r.rest| < |input|
    decreases |input|, 8
  {
    ParseNodeAt(input, AtLineStart(input))
  }

  /** `parse`: nodes until only white space is left, the first one read at
      the start of a line when asked. Empty nodes are left out. */
  function Parse(input: string, atLineStart: bool): (r: seq<Node>)
    ensures NoneEmpty(r)
    decreases |input|, 10
  {
    if atLineStart then
      var p := ParseNodeAt(input, true);
      ParseLoop(p.rest, AddNode([], p.node))
    else ParseLoop(input, [])
  }

  /** The loop of `parse`. */
  function ParseLoop(rest: string, nodes: seq<Node>): (r: seq<Node>)
    ensures NoneEmpty(nodes) ==> NoneEmpty(r)
    ensures |r| >= |nodes| && r[..|nodes|] == nodes
    decreases |rest|, 9
  {
    if IsBlank(rest) then nodes
    else
      var p := ParseNode(rest);
      ParseLoop(p.rest, AddNode(nodes, p.node))
  }

  /** `parse_document`: the whole input, its first node read at the start
      of a line. */
  function ParseDocument(input: string): (r: Doc)
    ensures NoneEmpty(r.nodes)
  {
    FromNodes(Parse(input, true))
  }
}
