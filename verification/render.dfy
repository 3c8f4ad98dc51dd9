/**
  The page renderer of src/render/html.rs: `render` writes one node through
  the writer, `render_nodes` a sibling list (turning password-protected
  runs into encrypted spans), `render_root_range` the top level of a
  document (grouping inline content into paragraphs), and
  `render_document` the whole page.

  Every render function leaves the writer's stack of open tags as it found
  it; `render_root_range` starts a fresh writer and ends with nothing open;
  a rendered page closes every tag it opens.
*/
module Render {
  import opened Strings
  import opened Model
  import opened Documents
  import opened Naming
  import opened Css
  import opened Wiki
  import opened Nav
  import opened FileSystem
  import opened HtmlWriter
  import opened Sections
  import opened Secrets

  /** The options of src/config.rs, with the (tag, password) pairs. */
  datatype Config = Config(
    emptyLinks: bool,
    generateIndexes: bool,
    navTree: bool,
    pageHeading: bool,
    addBreadcrumbs: bool,
    tagKeys: seq<(Tag, string)>)

  /** What the render functions read: the options, the wiki, the page being
      rendered, the cipher, and the embedded style sheet and script. */
  datatype Context = Context(
    config: Config,
    tree: WikiTree,
    page: Id,
    cipher: Cipher,
    styleCss: string,
    decryptJs: string)

  predicate ValidContext(ctx: Context) {
    Valid(ctx.tree) && ctx.page < |ctx.tree.pages|
  }

  // ---------------------------------------------------------------------
  // Links and images

  /** `handle_empty_url`: an empty url is resolved through the link target
      search when `empty_links` is on; any other url is kept. */
  function HandleEmptyUrl(ctx: Context, text: string, ext: string, url: string): (r: string)
    requires ValidContext(ctx)
    ensures url != [] || !ctx.config.emptyLinks ==> r == url
    ensures r != url ==>
      && url == [] && ctx.config.emptyLinks
      && (exists x :: 0 < x < |ctx.tree.pages| && IsLinkMatch(ctx.tree.pages[x], text, ext)
            && r == ctx.tree.pages[x].url)
  {
    if url == [] && ctx.config.emptyLinks then
      FindLinkTargetSound(ctx.tree, text, ext, ctx.page);
      match FindLinkTarget(ctx.tree, text, ext, ctx.page)
      case Some(x) => ctx.tree.pages[x].url
      case None => url
    else url
  }

  /** An empty url with `empty_links` on is replaced whenever some page
      answers to the link. */
  lemma EmptyUrlResolved(ctx: Context, text: string, ext: string)
    requires ValidContext(ctx) && ctx.config.emptyLinks
    requires exists y :: 0 < y < |ctx.tree.pages| && IsLinkMatch(ctx.tree.pages[y], text, ext)
    ensures var x := FindLinkTarget(ctx.tree, text, ext, ctx.page);
      && x.Some? && 0 < x.value < |ctx.tree.pages|
      && IsLinkMatch(ctx.tree.pages[x.value], text, ext)
      && HandleEmptyUrl(ctx, text, ext, []) == ctx.tree.pages[x.value].url
  {
    FindLinkTargetComplete(ctx.tree, text, ext, ctx.page);
    FindLinkTargetSound(ctx.tree, text, ext, ctx.page);
  }

  /** An image's url: each image extension in turn while the url is still empty. */
  function ImageUrl(ctx: Context, text: string, url: string, exts: seq<string>): (r: string)
    requires ValidContext(ctx)
    ensures url != [] ==> r == url
    ensures !ctx.config.emptyLinks ==> r == url
    ensures r != url ==>
      && url == [] && ctx.config.emptyLinks
      && (exists i, x :: 0 <= i < |exts| && 0 < x < |ctx.tree.pages|
            && IsLinkMatch(ctx.tree.pages[x], text, exts[i]) && r == ctx.tree.pages[x].url)
    decreases |exts|
  {
    if exts == [] || url != [] then url
    else
      var first := HandleEmptyUrl(ctx, text, exts[0], url);
      var r := ImageUrl(ctx, text, first, exts[1..]);
      if r != url && first == url then
        var i, x :| 0 <= i < |exts[1..]| && 0 < x < |ctx.tree.pages|
          && IsLinkMatch(ctx.tree.pages[x], text, exts[1..][i]) && r == ctx.tree.pages[x].url;
        assert exts[1..][i] == exts[i + 1];
        r
      else r
  }

  // ---------------------------------------------------------------------
  // Sizes, for termination

  function Size(n: Node): (r: nat)
    ensures r >= 1
    decreases n, 1
  {
    match n.el
    case Block(_, cs) => 1 + SizeAll(cs)
    case Inline(_, cs) => 1 + SizeAll(cs)
    case Heading(_, cs) => 1 + SizeAll(cs)
    case Item(cs) => 1 + SizeAll(cs)
    case List(cs) => 1 + SizeAll(cs)
    case Style(_, cs) => 1 + SizeAll(cs)
    case Details(summary, body) => 1 + SizeAll(summary) + SizeAll(body)
    case _ => 1
  }

  function SizeAll(ns: seq<Node>): nat
    decreases ns, 0
  {
    if ns == [] then 0 else Size(ns[0]) + SizeAll(ns[1..])
  }

  lemma {:induction false} SizeAllPrefix(ns: seq<Node>, k: nat)
    requires k <= |ns|
    ensures SizeAll(ns[..k]) <= SizeAll(ns)
  {
    if k > 0 {
      assert ns[..k][1..] == ns[1..][..k - 1];
      SizeAllPrefix(ns[1..], k - 1);
    }
  }

  lemma {:induction false} SizeAllSuffix(ns: seq<Node>, k: nat)
    requires 1 <= k <= |ns|
    ensures SizeAll(ns[k..]) < SizeAll(ns)
  {
    if k > 1 {
      assert ns[k..] == ns[1..][k - 1..];
      SizeAllSuffix(ns[1..], k - 1);
    }
  }

  /** A node outweighs its children. */
  lemma SizeParts(n: Node)
    ensures IsContainer(n.el) ==> SizeAll(n.el.children) < Size(n)
    ensures n.el.Details? ==> SizeAll(n.el.summary) < Size(n) && SizeAll(n.el.body) < Size(n)
  {
  }

  /** An encrypted section and what follows it both weigh no more than the
      nodes they come from, and what follows weighs less. */
  lemma SectionSizes(nodes: seq<Node>, s: Section)
    requires s.skip < |nodes| && s.nodes == nodes[..s.skip + 1]
    ensures SizeAll(s.nodes) <= SizeAll(nodes) && SizeAll(nodes[s.skip + 1..]) < SizeAll(nodes)
  {
    SizeAllPrefix(nodes, s.skip + 1);
    SizeAllSuffix(nodes, s.skip + 1);
  }

  lemma SizeAllOne(n: Node)
    ensures SizeAll([n]) == Size(n)
  {
    assert [n][1..] == [];
  }

  function Flag(skip: bool): nat {
    if skip then 0 else 1
  }

  // ---------------------------------------------------------------------
  // Element names

  function StyleTag(s: StyleKind): string {
    match s
    case Bold => "b"
    case Italic => "i"
    case Strikethrough => "s"
  }

  function DigitChar(d: nat): char
    requires d < 10
  {
    ('0' as int + d) as char
  }

  /** The decimal digits of `n`. */
  function Decimal(n: nat): (r: string)
    ensures r != []
    ensures forall i :: 0 <= i < |r| ==> '0' <= r[i] <= '9'
  {
    if n < 10 then [DigitChar(n)] else Decimal(n / 10) + [DigitChar(n % 10)]
  }

  /** The value of a string of decimal digits. */
  function ValueOf(s: string): nat
    requires forall i :: 0 <= i < |s| ==> '0' <= s[i] <= '9'
  {
    if s == [] then 0 else ValueOf(s[..|s| - 1]) * 10 + (s[|s| - 1] as int - '0' as int)
  }

  /** Reading the digits back gives the number. */
  lemma {:induction false} DecimalValue(n: nat)
    ensures ValueOf(Decimal(n)) == n
  {
    if n >= 10 {
      DecimalValue(n / 10);
      var d := Decimal(n);
      assert d[..|d| - 1] == Decimal(n / 10);
    }
  }

  /** `format!("h{level}")`. */
  function HeadingTag(level: nat): string {
    "h" + Decimal(level)
  }

  // ---------------------------------------------------------------------
  // Leaves

  /** `El::Text`: a space first when the text starts with a letter, digit
      or '/'. */
  function RenderText(h: Html, text: string): (r: Html)
    ensures r.stack == h.stack && r.indentAdjust == h.indentAdjust && r.justClosed.None?
    ensures text != [] && (IsAlphanumeric(text[0]) || text[0] == '/') && NeedsSpace(h) ==>
      r.content == h.content + " " + text
    ensures text == [] || !(IsAlphanumeric(text[0]) || text[0] == '/') || !NeedsSpace(h) ==>
      r.content == h.content + text
  {
    if text != [] && (IsAlphanumeric(text[0]) || text[0] == '/') then PushStr(SpaceIfNeeded(h), text)
    else PushStr(h, text)
  }

  /** `El::Code`: escaped code in a `code` element. */
  function RenderCode(h: Html, attrs: Attrs, code: string): (r: Html)
    ensures r.stack == h.stack && r.indentAdjust == h.indentAdjust
    ensures r.justClosed == Some("code")
  {
    Close(PushStr(Open(h, "code", attrs), Escape(code)))
  }

  /** `El::Codeblock`: escaped code re-indented to the depth of its `pre`. */
  function RenderCodeblock(h: Html, attrs: Attrs, code: string): (r: Html)
    ensures r.stack == h.stack && r.indentAdjust == h.indentAdjust
  {
    var o := LOpenL(h, "pre", attrs);
    LCloseL(PushStr(o, IndentText(Escape(code), |o.stack|)))
  }

  /** `El::Image`: a spaced `img` with the escaped url and the alt text. */
  function RenderImage(ctx: Context, h: Html, attrs: Attrs, text: string, url: string): (r: Html)
    requires ValidContext(ctx)
    ensures r.stack == h.stack && r.indentAdjust == h.indentAdjust
  {
    var url := ImageUrl(ctx, text, url, IMAGE_EXTS);
    var s := StartNoPush(SpaceIfNeeded(h), "img");
    Finish(Attr(Attr(s, "src", Escape(url)), "alt", text), attrs)
  }

  /** `El::Link`: a spaced `a` element; an empty url is resolved to an
      ".html" page when possible. */
  function RenderLink(ctx: Context, h: Html, attrs: Attrs, text: string, url: string): (r: Html)
    requires ValidContext(ctx)
    ensures r.stack == h.stack && r.indentAdjust == h.indentAdjust
    ensures r.justClosed == Some("a")
  {
    var url := HandleEmptyUrl(ctx, text, OUTPUT_EXT, url);
    var s := Start(SpaceIfNeeded(h), "a");
    Close(PushStr(Finish(Attr(s, "href", Escape(url)), attrs), text))
  }

  /** How `render` draws the span `encrypt_text` builds (an inline span with
      one untagged text child); see `SecretRendersAsSpan`. */
  function RenderSecret(h: Html, secret: Node): (r: Html)
    requires secret.el.Inline? && |secret.el.children| == 1 && secret.el.children[0].el.Text?
    ensures r.stack == h.stack && r.indentAdjust == h.indentAdjust
    ensures r.justClosed == Some(secret.el.tag)
  {
    var o := Open(SpaceIfNeeded(h), secret.el.tag, secret.attrs);
    Close(RenderText(o, secret.el.children[0].el.text))
  }

  /** The secret span of some drawn text, sealed for the given pairs. */
  function SealedSpan(h: Html, cipher: Cipher, pairs: seq<(Tag, string)>, plain: string): (r: Html)
    ensures r.stack == h.stack && r.indentAdjust == h.indentAdjust
    ensures r.justClosed == Some("span")
  {
    RenderSecret(h, EncryptText(cipher, pairs, plain))
  }

  // ---------------------------------------------------------------------
  // Nodes

  /** `render`: a node whose tags have passwords is encrypted (unless
      encryption is being skipped) and drawn as a secret span; any other node
      is drawn as its element. */
  function Render(ctx: Context, h: Html, n: Node, skip: bool): (r: Html)
    requires ValidContext(ctx)
    ensures r.stack == h.stack && r.indentAdjust == h.indentAdjust
    decreases Size(n), Flag(skip), 2
  {
    var pairs := EncryptionPairs(ctx.config.tagKeys, n.tags);
    if !skip && pairs.Some? then
      SizeAllOne(n);
      var plain := RenderNodesOnly(ctx, [n]);
      RenderSecret(h, EncryptText(ctx.cipher, pairs.value, plain))
    else RenderEl(ctx, h, n, skip)
  }

  /** The `match node.el()` of `render`. Children are always drawn with
      encryption on, whatever `skip` says for the node itself. Tables draw
      nothing. */
  function RenderEl(ctx: Context, h: Html, n: Node, skip: bool): (r: Html)
    requires ValidContext(ctx)
    ensures r.stack == h.stack && r.indentAdjust == h.indentAdjust
    decreases Size(n), Flag(skip), 1
  {
    match n.el
    case Empty => h
    case Code(code) => RenderCode(h, n.attrs, code)
    case Codeblock(_, code) => RenderCodeblock(h, n.attrs, code)
    case Details(summary, body) => RenderDetails(ctx, h, n)
    case Image(text, url) => RenderImage(ctx, h, n.attrs, text, url)
    case Link(text, url) => RenderLink(ctx, h, n.attrs, text, url)
    case Table(_) => h
    case Text(text) => RenderText(h, text)
    case _ => RenderContainer(ctx, h, n)
  }

  /** A `details` block: the summary inside its own element, then the body. */
  function RenderDetails(ctx: Context, h: Html, n: Node): (r: Html)
    requires ValidContext(ctx) && n.el.Details?
    ensures r.stack == h.stack && r.indentAdjust == h.indentAdjust
    decreases Size(n), 0, 0
  {
    SizeParts(n);
    var d := LOpenL(h, "details", n.attrs);
    var s := Close(RenderNodes(ctx, LOpen(d, "summary", []), n.el.summary, false));
    LCloseL(RenderNodes(ctx, s, n.el.body, false))
  }

  /** The elements that are a tag around their children. */
  function RenderContainer(ctx: Context, h: Html, n: Node): (r: Html)
    requires ValidContext(ctx) && IsContainer(n.el)
    ensures r.stack == h.stack && r.indentAdjust == h.indentAdjust
    decreases Size(n), 0, 0
  {
    SizeParts(n);
    var cs := n.el.children;
    match n.el
    case Block(tag, _) =>
      LClose(RenderNodes(ctx, LOpenL(h, tag, n.attrs), cs, false))
    case Inline(tag, _) =>
      Close(RenderNodes(ctx, Open(SpaceIfNeeded(h), tag, n.attrs), cs, false))
    case Heading(level, _) =>
      CloseL(RenderNodes(ctx, LOpen(h, HeadingTag(level), n.attrs), cs, false))
    case Item(_) =>
      Close(RenderNodes(ctx, LOpen(h, "li", n.attrs), cs, false))
    case List(_) =>
      LCloseL(RenderNodes(ctx, LOpen(h, "ul", n.attrs), cs, false))
    case Style(style, _) =>
      var inner := RenderNodes(ctx, Open(SpaceIfNeeded(h), StyleTag(style), n.attrs), cs, false);
      Space(Close(TrimEndH(inner)))
  }

  /** `render_nodes`: the siblings in order. Unless encryption is skipped, a
      node whose tags have passwords is drawn, with the section it heads, as
      one secret span, and the loop resumes after the section. */
  function RenderNodes(ctx: Context, h: Html, nodes: seq<Node>, skip: bool): (r: Html)
    requires ValidContext(ctx)
    ensures r.stack == h.stack && r.indentAdjust == h.indentAdjust
    decreases SizeAll(nodes), Flag(skip), 3
  {
    if nodes == [] then h
    else
      SizeAllSuffix(nodes, 1);
      var pairs := EncryptionPairs(ctx.config.tagKeys, nodes[0].tags);
      if !skip && pairs.Some? then
        var section := SectionOf(nodes);
        SectionSizes(nodes, section);
        var plain := RenderNodesOnly(ctx, section.nodes);
        var e := SealedSpan(h, ctx.cipher, pairs.value, plain);
        RenderNodes(ctx, e, nodes[section.skip + 1..], skip)
      else
        RenderNodes(ctx, Render(ctx, h, nodes[0], skip), nodes[1..], skip)
  }

  /** `render_nodes_only` with encryption skipped: the nodes drawn by a fresh
      writer, trimmed. */
  function RenderNodesOnly(ctx: Context, nodes: seq<Node>): string
    requires ValidContext(ctx)
    decreases SizeAll(nodes), 0, 4
  {
    Trim(RenderNodes(ctx, NewHtml(), nodes, true).content)
  }

  /** A text node without tags is drawn by the text rule. */
  lemma UntaggedText(ctx: Context, h: Html, n: Node, skip: bool)
    requires ValidContext(ctx) && n.el.Text? && n.tags == []
    ensures Render(ctx, h, n, skip) == RenderText(h, n.el.text)
  {
    assert Render(ctx, h, n, skip) == RenderEl(ctx, h, n, skip);
  }

  /** A span without tags around one untagged text node. */
  lemma UntaggedSpan(ctx: Context, h: Html, n: Node, skip: bool)
    requires ValidContext(ctx) && n.tags == []
    requires n.el.Inline? && |n.el.children| == 1 && n.el.children[0].el.Text? && n.el.children[0].tags == []
    ensures Render(ctx, h, n, skip) == RenderSecret(h, n)
  {
    var t := n.el.children[0];
    var o := Open(SpaceIfNeeded(h), n.el.tag, n.attrs);
    assert Render(ctx, h, n, skip) == RenderEl(ctx, h, n, skip);
    assert RenderEl(ctx, h, n, skip) == RenderContainer(ctx, h, n);
    UntaggedText(ctx, o, t, false);
    assert n.el.children[1..] == [];
    assert RenderNodes(ctx, o, n.el.children, false) == RenderNodes(ctx, Render(ctx, o, t, false), [], false);
  }

  /** The secret span is drawn by `render` exactly as `RenderSecret` draws
      it: the span carries no tags, so it is not encrypted again, and its one
      text child is drawn as text. */
  lemma SecretRendersAsSpan(ctx: Context, h: Html, pairs: seq<(Tag, string)>, plain: string, skip: bool)
    requires ValidContext(ctx)
    ensures var e := EncryptText(ctx.cipher, pairs, plain);
      Render(ctx, h, e, skip) == RenderSecret(h, e)
  {
    UntaggedSpan(ctx, h, EncryptText(ctx.cipher, pairs, plain), skip);
  }

  /** The element drawing does not depend on `skip`: it only tells
      `render` whether to encrypt the node itself. */
  lemma RenderElIgnoresSkip(ctx: Context, h: Html, n: Node)
    requires ValidContext(ctx)
    ensures RenderEl(ctx, h, n, false) == RenderEl(ctx, h, n, true)
  {
  }

  /** Siblings none of which has a password are drawn the same with
      encryption on or skipped. */
  lemma {:induction false} UnprotectedNodes(ctx: Context, h: Html, nodes: seq<Node>)
    requires ValidContext(ctx)
    requires forall i :: 0 <= i < |nodes| ==> EncryptionPairs(ctx.config.tagKeys, nodes[i].tags).None?
    ensures RenderNodes(ctx, h, nodes, false) == RenderNodes(ctx, h, nodes, true)
    decreases |nodes|
  {
    if nodes != [] {
      RenderElIgnoresSkip(ctx, h, nodes[0]);
      var h1 := Render(ctx, h, nodes[0], false);
      assert h1 == Render(ctx, h, nodes[0], true);
      UnprotectedNodes(ctx, h1, nodes[1..]);
    }
  }

  /** Without configured passwords no node has encryption pairs. */
  lemma NoKeysNoPairs(ctx: Context, tags: seq<Tag>)
    requires ctx.config.tagKeys == []
    ensures EncryptionPairs(ctx.config.tagKeys, tags).None?
  {
  }

  /** Without configured passwords, the top-level loop draws the same with
      encryption on or skipped. */
  lemma {:induction false} NoKeysRootLoop(ctx: Context, h: Html, rest: seq<Node>, open: bool, prevText: bool)
    requires ValidContext(ctx) && ctx.config.tagKeys == []
    requires h.stack == (if open then ["p"] else [])
    ensures RootLoop(ctx, h, rest, open, prevText, false) == RootLoop(ctx, h, rest, open, prevText, true)
    decreases |rest|
  {
    if rest != [] {
      var n := rest[0];
      NoKeysNoPairs(ctx, n.tags);
      var m := ParagraphStep(open, prevText, n.el);
      var h1 := Paragraph(h, open, m);
      RenderElIgnoresSkip(ctx, h1, n);
      assert Render(ctx, h1, n, false) == Render(ctx, h1, n, true);
      NoKeysRootLoop(ctx, Render(ctx, h1, n, false), rest[1..], StillOpen(open, m), n.el.Text?);
    }
  }

  /** Without configured passwords, skipping encryption (as
      `render_document` does in that case) changes nothing. */
  lemma NoKeysRootRange(ctx: Context, adjust: nat, range: seq<Node>)
    requires ValidContext(ctx) && ctx.config.tagKeys == []
    ensures RootRange(ctx, adjust, range, false) == RootRange(ctx, adjust, range, true)
  {
    NoKeysRootLoop(ctx, NewHtml().(indentAdjust := adjust), range, false, false);
  }

  // ---------------------------------------------------------------------
  // The top level of a document

  /** What the top-level loop does to the paragraph before drawing a node:
      whether it closes the open paragraph, and whether the node needs one.
      Text right after text starts a new paragraph; code, links and styled
      text join the open one; block-level nodes end it; list items and
      empty nodes leave it alone. */
  datatype ParagraphMove = ParagraphMove(close: bool, needed: bool)

  predicate IsBlockLevel(el: El) {
    el.Block? || el.Inline? || el.Codeblock? || el.Details? || el.Heading?
      || el.Image? || el.List? || el.Table?
  }

  function ParagraphStep(open: bool, prevText: bool, el: El): (m: ParagraphMove)
    ensures m.close ==> open
    ensures el.Text? ==> m.needed && (m.close <==> open && prevText)
    ensures (el.Code? || el.Link? || el.Style?) ==> m.needed && !m.close
    ensures IsBlockLevel(el) ==> !m.needed && (m.close <==> open)
    ensures (el.Item? || el.Empty?) ==> !m.needed && !m.close
  {
    match el
    case Text(_) => ParagraphMove(open && prevText, true)
    case Code(_) => ParagraphMove(false, true)
    case Link(_, _) => ParagraphMove(false, true)
    case Style(_, _) => ParagraphMove(false, true)
    case Item(_) => ParagraphMove(false, false)
    case Empty => ParagraphMove(false, false)
    case _ => ParagraphMove(open, false)
  }

  /** After the move the paragraph is open exactly when the node needs it. */
  lemma ParagraphStepOpen(open: bool, prevText: bool, el: El)
    ensures var m := ParagraphStep(open, prevText, el);
      var stillOpen := open && !m.close;
      (stillOpen || m.needed) <==> (el.Text? || el.Code? || el.Link? || el.Style? || (open && (el.Item? || el.Empty?)))
  {
  }

  /** Whether a paragraph is open after the move. */
  function StillOpen(open: bool, m: ParagraphMove): bool {
    (open && !m.close) || m.needed
  }

  /** The move applied to the writer: close the paragraph (`lclosel`), then
      open one (`lopenl`) when the node needs it and none is open. */
  function Paragraph(h: Html, open: bool, m: ParagraphMove): (r: Html)
    requires h.stack == (if open then ["p"] else [])
    requires m.close ==> open
    ensures r.stack == (if StillOpen(open, m) then ["p"] else [])
    ensures r.indentAdjust == h.indentAdjust
    ensures !m.close && (open || !m.needed) ==> r == h
  {
    var h1 := if m.close then LCloseL(h) else h;
    if !(open && !m.close) && m.needed then LOpenL(h1, "p", []) else h1
  }

  /** `render_root_range`: a fresh writer indented `adjust` levels; the
      loop's text, ending with the open paragraph closed. */
  function RootRange(ctx: Context, adjust: nat, range: seq<Node>, skip: bool): (r: string)
    requires ValidContext(ctx)
    decreases SizeAll(range), Flag(skip), 4
  {
    RootLoop(ctx, NewHtml().(indentAdjust := adjust), range, false, false, skip).content
  }

  /** The loop of `render_root_range` over the nodes not yet drawn. The
      writer's stack is `["p"]` while a paragraph is open and empty
      otherwise; at the end nothing is open. */
  function RootLoop(ctx: Context, h: Html, rest: seq<Node>, open: bool, prevText: bool, skip: bool): (r: Html)
    requires ValidContext(ctx)
    requires h.stack == (if open then ["p"] else [])
    ensures r.stack == [] && r.indentAdjust == h.indentAdjust
    decreases SizeAll(rest), Flag(skip), 3
  {
    if rest == [] then
      if open then LClose(h) else h
    else
      SizeAllSuffix(rest, 1);
      var n := rest[0];
      var pairs := EncryptionPairs(ctx.config.tagKeys, n.tags);
      if !skip && pairs.Some? then
        var section := SectionOf(rest);
        SectionSizes(rest, section);
        var plain := RootRange(ctx, |h.stack|, section.nodes, true);
        var e := SealedSpan(h, ctx.cipher, pairs.value, plain);
        RootLoop(ctx, e, rest[section.skip + 1..], open, prevText, skip)
      else
        var m := ParagraphStep(open, prevText, n.el);
        var h1 := Paragraph(h, open, m);
        RootLoop(ctx, Render(ctx, h1, n, skip), rest[1..], StillOpen(open, m), n.el.Text?, skip)
  }

  // ---------------------------------------------------------------------
  // The page

  /** `header`: the page title, the style sheet and the decryption script. */
  function Header(ctx: Context, title: string): Node {
    BlockNode("head", [
      InlineNode("title", [TextNode(title)]),
      BlockNode("style", [TextNode(IndentText(ctx.styleCss, 3))]),
      BlockNode("script", [TextNode(IndentText(ctx.decryptJs, 3))])
    ])
  }

  /** One entry of the key menu: the tag, a password box, a clear button
      and a test secret that decrypts to "correct". */
  function TagKeyEntry(ctx: Context, tag: Tag, key: string): Node {
    ItemNode([
      WithClass(SpanNode([TextNode(tag)]), "tag-keys-label"),
      InlineNode("input", []).WithAttr("type", "password").WithAttr("autocomplete", "off"),
      InlineNode("button", [TextNode("Clear")]),
      EncryptText(ctx.cipher, [(tag, key)], "correct").WithAttr(CSS_CLASS_ATTR, "tag-keys-test")
    ])
  }

  /** `make_tag_key_menu`: a floating menu listing one entry per tag. */
  function TagKeyMenu(ctx: Context): (r: Node)
    ensures GetAttr(r.attrs, CSS_ID_ATTR) == Some("tag-keys-menu")
    ensures r.el.Block? && |r.el.children| == 1
  {
    var entries := seq(|ctx.config.tagKeys|, i requires 0 <= i < |ctx.config.tagKeys| =>
      TagKeyEntry(ctx, ctx.config.tagKeys[i].0, ctx.config.tagKeys[i].1));
    var menu := DivNode([DetailsNode([WithClass(SpanNode([TextNode("Keys")]), "title")], [ListNode(entries)])]);
    WithId(FloatingMenu(menu), "tag-keys-menu")
  }

  /** The result of `render_document`. */
  datatype Rendered = Ok(html: string) | Err

  /** The first half of `render_document`: html and body opened, the head,
      the navigation tree and the key menu drawn. */
  function PageTop(ctx: Context): (r: Html)
    requires ValidContext(ctx)
    ensures |r.stack| == 2 && r.indentAdjust == 0
  {
    var page := ctx.tree.pages[ctx.page];
    var h1 := LOpenL(NewHtml(), "html", []);
    var h2 := Render(ctx, h1, Header(ctx, page.title), true);
    var h3 := LOpenL(h2, "body", []);
    var h4 := if ctx.config.navTree then Render(ctx, h3, NavTree(ctx.tree, ctx.page), false) else h3;
    if ctx.config.tagKeys != [] then Render(ctx, h4, TagKeyMenu(ctx), true) else h4
  }

  /** The content div and main opened, the page heading and breadcrumb
      drawn, then the document's nodes. */
  function PageMain(ctx: Context, h: Html, doc: Doc): (r: Html)
    requires ValidContext(ctx)
    ensures |r.stack| == |h.stack| + 2 && r.indentAdjust == h.indentAdjust
  {
    var page := ctx.tree.pages[ctx.page];
    var h1 := Finish(Attr(Start(h, "div"), "id", "content"), []);
    var h2 := LOpen(h1, "main", []);
    var h3 := if ctx.config.pageHeading then Render(ctx, h2, HeadingNode(1, [TextNode(page.title)]), false) else h2;
    var h4 := if ctx.config.addBreadcrumbs then Render(ctx, h3, Breadcrumb(ctx.tree, ctx.page), false) else h3;
    PushStr(h4, RootRange(ctx, |h4.stack|, doc.nodes, ctx.config.tagKeys == []))
  }

  /** The whole page: the four tags still open after the content (html,
      body, the content div and main) are closed, and nothing stays open. */
  function Page(ctx: Context, doc: Doc): (r: Html)
    requires ValidContext(ctx)
    ensures r.stack == [] && r.indentAdjust == 0
  {
    var h := PageMain(ctx, PageTop(ctx), doc);
    var c1 := LClose(h);
    assert |c1.stack| == 3;
    var c2 := LClose(c1);
    assert |c2.stack| == 2;
    var c3 := LClose(c2);
    assert |c3.stack| == 1;
    LClose(c3)
  }

  /** `render_document`: an error exactly for a page without a document;
      otherwise the trimmed text of the page. */
  function RenderDocument(ctx: Context): (r: Rendered)
    requires ValidContext(ctx)
    ensures r.Err? <==> PageDocument(ctx.tree.pages[ctx.page]).None?
    ensures r.Ok? ==> r.html == Trim(Page(ctx, PageDocument(ctx.tree.pages[ctx.page]).value).content)
  {
    match PageDocument(ctx.tree.pages[ctx.page])
    case None => Err
    case Some(doc) => Ok(Trim(Page(ctx, doc).content))
  }
}
