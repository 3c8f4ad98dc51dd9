/**
  The node model: a tagged variant of content kinds, each node carrying an
  attribute list (HTML attributes such as `class`, `id`, `open`) and a list
  of tags that gate encryption.

  The variants are the fourteen the renderer matches on. Emptiness and text
  accumulation follow the node module's rules; the four variants that rule
  does not mention (Block, Inline, Details, Table) are containers whose
  emptiness is that of all their children.
*/
module Model {
  import opened Strings

  const HEADING_MAX_LEVEL: nat := 6

  type Tag = string

  datatype StyleKind = Bold | Italic | Strikethrough

  /** A table row: an ordered list of cells. */
  datatype Row = Row(cells: seq<Cell>)

  /** A table cell: the nodes parsed from its text. */
  datatype Cell = Cell(nodes: seq<Node>)

  datatype El =
    | Empty
    | Block(tag: string, children: seq<Node>)
    | Inline(tag: string, children: seq<Node>)
    | Code(code: string)
    | Codeblock(lang: Option<string>, code: string)
    | Details(summary: seq<Node>, body: seq<Node>)
    | Heading(level: nat, children: seq<Node>)
    | Image(text: string, url: string)
    | Item(children: seq<Node>)
    | Link(text: string, url: string)
    | List(children: seq<Node>)
    | Style(style: StyleKind, children: seq<Node>)
    | Table(rows: seq<Row>)
    | Text(text: string)

  /** Attributes as an association list with distinct keys. */
  type Attrs = seq<(string, string)>

  datatype Node = Node(el: El, attrs: Attrs, tags: seq<Tag>) {
    /** `with_attr` / `attr`: set one attribute, keeping the others. */
    function WithAttr(key: string, value: string): (r: Node)
      ensures r.el == el && r.tags == tags
      ensures GetAttr(r.attrs, key) == Some(value)
      ensures forall k :: k != key ==> GetAttr(r.attrs, k) == GetAttr(attrs, k)
    {
      Node(el, SetAttr(attrs, key, value), tags)
    }
  }

  predicate DistinctKeys(attrs: Attrs) {
    forall i, j :: 0 <= i < j < |attrs| ==> attrs[i].0 != attrs[j].0
  }

  function GetAttr(attrs: Attrs, key: string): (r: Option<string>)
    ensures r.None? <==> forall i :: 0 <= i < |attrs| ==> attrs[i].0 != key
    ensures r.Some? ==> (key, r.value) in attrs
  {
    if attrs == [] then None
    else if attrs[0].0 == key then Some(attrs[0].1)
    else GetAttr(attrs[1..], key)
  }

  /** Overwrite the value of `key` in place, or append the pair if absent. */
  function SetAttr(attrs: Attrs, key: string, value: string): (r: Attrs)
    ensures GetAttr(r, key) == Some(value)
    ensures forall k :: k != key ==> GetAttr(r, k) == GetAttr(attrs, k)
    ensures GetAttr(attrs, key).None? ==> r == attrs + [(key, value)]
  {
    if attrs == [] then [(key, value)]
    else if attrs[0].0 == key then [(key, value)] + attrs[1..]
    else [attrs[0]] + SetAttr(attrs[1..], key, value)
  }

  // Constructors. Those for text-bearing nodes trim their strings.

  function EmptyNode(): Node { Node(Empty, [], []) }

  function TextNode(s: string): (r: Node)
    ensures r.el == Text(Trim(s)) && r.attrs == [] && r.tags == []
  {
    Node(Text(Trim(s)), [], [])
  }

  function CodeNode(s: string): Node { Node(Code(Trim(s)), [], []) }

  function CodeblockNode(lang: Option<string>, s: string): Node {
    Node(Codeblock(lang, Trim(s)), [], [])
  }

  function LinkNode(text: string, url: string): Node {
    Node(Link(Trim(text), Trim(url)), [], [])
  }

  function ImageNode(alt: string, url: string): Node {
    Node(Image(Trim(alt), Trim(url)), [], [])
  }

  function HeadingNode(level: nat, children: seq<Node>): Node {
    Node(Heading(level, children), [], [])
  }

  function StyleNode(style: StyleKind, children: seq<Node>): Node {
    Node(Style(style, children), [], [])
  }

  function ItemNode(children: seq<Node>): Node { Node(Item(children), [], []) }

  function TableNode(rows: seq<Row>): Node { Node(Table(rows), [], []) }

  function DetailsNode(summary: seq<Node>, body: seq<Node>): Node {
    Node(Details(summary, body), [], [])
  }

  function BlockNode(tag: string, children: seq<Node>): Node {
    Node(Block(tag, children), [], [])
  }

  function InlineNode(tag: string, children: seq<Node>): Node {
    Node(Inline(tag, children), [], [])
  }

  function SpanNode(children: seq<Node>): Node { InlineNode("span", children) }

  function DivNode(children: seq<Node>): Node { BlockNode("div", children) }

  /** A list item as `Node::list` stores it: items pass, anything else is wrapped. */
  function AsItem(n: Node): Node {
    if n.el.Item? then n else ItemNode([n])
  }

  /** `Node::list`: every child that is not an Item is wrapped in one. */
  function ListNode(children: seq<Node>): (r: Node)
    ensures r.el.List? && |r.el.children| == |children| && r.attrs == [] && r.tags == []
    ensures forall i :: 0 <= i < |children| ==> r.el.children[i].el.Item?
    ensures forall i :: 0 <= i < |children| && children[i].el.Item? ==>
      r.el.children[i] == children[i]
    ensures forall i :: 0 <= i < |children| && !children[i].el.Item? ==>
      r.el.children[i] == ItemNode([children[i]])
  {
    Node(List(seq(|children|, i requires 0 <= i < |children| => AsItem(children[i]))), [], [])
  }

  predicate IsContainer(el: El) {
    el.Block? || el.Inline? || el.Heading? || el.Item? || el.List? || el.Style?
  }

  /** `is_empty`: recursive emptiness. */
  predicate IsEmpty(n: Node)
    decreases n, 1
  {
    match n.el
    case Empty => true
    case Image(_, url) => url == []
    case Link(text, _) => text == []
    case Code(s) => Trim(s) == []
    case Codeblock(_, s) => Trim(s) == []
    case Text(s) => Trim(s) == []
    case Block(_, cs) => AllEmpty(cs)
    case Inline(_, cs) => AllEmpty(cs)
    case Heading(_, cs) => AllEmpty(cs)
    case Item(cs) => AllEmpty(cs)
    case List(cs) => AllEmpty(cs)
    case Style(_, cs) => AllEmpty(cs)
    case Details(summary, body) => AllEmpty(summary) && AllEmpty(body)
    case Table(rows) =>
      forall r, c | 0 <= r < |rows| && 0 <= c < |rows[r].cells| :: AllEmpty(rows[r].cells[c].nodes)
  }

  predicate AllEmpty(cs: seq<Node>)
    decreases cs, 0
  {
    |cs| == 0 || (IsEmpty(cs[0]) && AllEmpty(cs[1..]))
  }

  /** `AllEmpty` is the recursive form of "every child is empty". */
  lemma {:induction false} AllEmptyIff(cs: seq<Node>)
    ensures AllEmpty(cs) <==> forall i :: 0 <= i < |cs| ==> IsEmpty(cs[i])
    decreases |cs|
  {
    if |cs| > 0 {
      AllEmptyIff(cs[1..]);
      assert forall i :: 1 <= i < |cs| ==> cs[i] == cs[1..][i - 1];
    }
  }

  /** A container's emptiness is that of its child list. */
  lemma ContainerEmptyIsAllEmpty(n: Node)
    requires IsContainer(n.el)
    ensures IsEmpty(n) <==> AllEmpty(n.el.children)
  {
    match n.el
    case Block(_, _) =>
    case Inline(_, _) =>
    case Heading(_, _) =>
    case Item(_) =>
    case List(_) =>
    case Style(_, _) =>
  }

  /** A container is empty iff every child is; so a childless one is empty. */
  lemma ContainerEmptyIff(n: Node)
    requires IsContainer(n.el)
    ensures IsEmpty(n) <==> forall i :: 0 <= i < |n.el.children| ==> IsEmpty(n.el.children[i])
    ensures n.el.children == [] ==> IsEmpty(n)
  {
    ContainerEmptyIsAllEmpty(n);
    AllEmptyIff(n.el.children);
  }

  lemma {:induction false} AllEmptyAppend(cs: seq<Node>, x: Node)
    ensures AllEmpty(cs + [x]) <==> AllEmpty(cs) && IsEmpty(x)
    decreases |cs|
  {
    if cs == [] {
      assert [x][1..] == [];
    } else {
      assert (cs + [x])[1..] == cs[1..] + [x];
      AllEmptyAppend(cs[1..], x);
    }
  }

  /** The string a text-bearing node holds. */
  function TextOf(el: El): string
    requires el.Text? || el.Code? || el.Codeblock?
  {
    if el.Text? then el.text else el.code
  }

  /** The text kinds are empty iff their trimmed string is empty, i.e. blank. */
  lemma TextKindsEmptyIff(n: Node)
    requires n.el.Text? || n.el.Code? || n.el.Codeblock?
    ensures IsEmpty(n) <==> IsBlank(TextOf(n.el))
  {
    var s := TextOf(n.el);
    assert IsEmpty(n) <==> Trim(s) == [];
    TrimEmptyIffBlank(s);
  }

  /** The trimming constructors: a text node is empty iff its source is blank. */
  lemma TextNodeEmptyIff(s: string)
    ensures IsEmpty(TextNode(s)) <==> IsBlank(s)
  {
    TrimIdempotent(s);
    TrimEmptyIffBlank(s);
  }

  lemma CodeNodeEmptyIff(s: string)
    ensures IsEmpty(CodeNode(s)) <==> IsBlank(s)
  {
    TrimIdempotent(s);
    TrimEmptyIffBlank(s);
  }

  /** A link is empty iff its text is empty; an image iff its url is empty. */
  lemma LinkImageEmptiness(n: Node)
    ensures n.el.Link? ==> (IsEmpty(n) <==> n.el.text == [])
    ensures n.el.Image? ==> (IsEmpty(n) <==> n.el.url == [])
  {
  }

  /** A link built from text and url is empty iff its text is blank. */
  lemma LinkNodeEmptyIff(text: string, url: string)
    ensures IsEmpty(LinkNode(text, url)) <==> IsBlank(text)
  {
    LinkImageEmptiness(LinkNode(text, url));
    TrimEmptyIffBlank(text);
  }

  /** An image built from alt text and url is empty iff its url is blank. */
  lemma ImageNodeEmptyIff(alt: string, url: string)
    ensures IsEmpty(ImageNode(alt, url)) <==> IsBlank(url)
  {
    LinkImageEmptiness(ImageNode(alt, url));
    TrimEmptyIffBlank(url);
  }

  /** The string `add_text` leaves in a text-bearing node: the old text, one
      separating space when the prior text is non-empty, then the trimmed fragment. */
  function AppendFragment(prior: string, fragment: string): (r: string)
    ensures prior == [] ==> r == Trim(fragment)
    ensures prior != [] ==> r == prior + " " + Trim(fragment)
  {
    (if prior == [] then prior else prior + " ") + Trim(fragment)
  }

  /** `add_text`: text kinds extend their string; containers gain one text child;
      every other kind is left alone. */
  function AddText(n: Node, fragment: string): (r: Node)
    ensures r.attrs == n.attrs && r.tags == n.tags
    ensures n.el.Text? ==> r.el == Text(AppendFragment(n.el.text, fragment))
    ensures n.el.Code? ==> r.el == Code(AppendFragment(n.el.code, fragment))
    ensures n.el.Codeblock? ==> r.el == Codeblock(n.el.lang, AppendFragment(n.el.code, fragment))
    ensures IsContainer(n.el) ==>
      IsContainer(r.el) && r.el.children == n.el.children + [TextNode(fragment)]
    ensures n.el.Empty? || n.el.Image? || n.el.Link? || n.el.Details? || n.el.Table? ==> r == n
  {
    match n.el
    case Empty => n
    case Image(_, _) => n
    case Link(_, _) => n
    case Details(_, _) => n
    case Table(_) => n
    case Text(s) => n.(el := Text(AppendFragment(s, fragment)))
    case Code(s) => n.(el := Code(AppendFragment(s, fragment)))
    case Codeblock(lang, s) => n.(el := Codeblock(lang, AppendFragment(s, fragment)))
    case Block(tag, cs) => n.(el := Block(tag, cs + [TextNode(fragment)]))
    case Inline(tag, cs) => n.(el := Inline(tag, cs + [TextNode(fragment)]))
    case Heading(level, cs) => n.(el := Heading(level, cs + [TextNode(fragment)]))
    case Item(cs) => n.(el := Item(cs + [TextNode(fragment)]))
    case List(cs) => n.(el := List(cs + [TextNode(fragment)]))
    case Style(style, cs) => n.(el := Style(style, cs + [TextNode(fragment)]))
  }

  lemma BlankAppend(a: string, b: string)
    ensures IsBlank(a + b) <==> IsBlank(a) && IsBlank(b)
  {
    if IsBlank(a + b) {
      assert forall i :: 0 <= i < |a| ==> a[i] == (a + b)[i];
      assert forall i :: 0 <= i < |b| ==> b[i] == (a + b)[|a| + i];
    }
  }

  /** The accumulated text is blank iff both the old text and the fragment are. */
  lemma AppendFragmentBlank(prior: string, fragment: string)
    ensures IsBlank(AppendFragment(prior, fragment)) <==> IsBlank(prior) && IsBlank(fragment)
  {
    var t := Trim(fragment);
    TrimEmptyIffBlank(fragment);
    if prior != [] {
      BlankAppend(prior, " ");
      BlankAppend(prior + " ", t);
    }
  }

  /** Emptiness after `add_text` on a text kind: empty exactly when the old
      text and the fragment are both blank. */
  lemma AddTextEmptinessText(n: Node, fragment: string)
    requires n.el.Text? || n.el.Code? || n.el.Codeblock?
    ensures IsEmpty(AddText(n, fragment)) <==> IsEmpty(n) && IsBlank(fragment)
  {
    var r := AddText(n, fragment);
    assert TextOf(r.el) == AppendFragment(TextOf(n.el), fragment);
    TextKindsEmptyIff(n);
    TextKindsEmptyIff(r);
    AppendFragmentBlank(TextOf(n.el), fragment);
  }

  /** Emptiness after `add_text` on a container: it gains the child
      `TextNode(fragment)`, so it is empty exactly when it was and the
      fragment is blank. */
  lemma AddTextEmptinessContainer(n: Node, fragment: string)
    requires IsContainer(n.el)
    ensures IsEmpty(AddText(n, fragment)) <==> IsEmpty(n) && IsBlank(fragment)
  {
    var r := AddText(n, fragment);
    var cs := n.el.children;
    assert IsContainer(r.el) && r.el.children == cs + [TextNode(fragment)];
    assert IsEmpty(n) <==> AllEmpty(cs) by {
      ContainerEmptyIsAllEmpty(n);
    }
    assert IsEmpty(r) <==> AllEmpty(cs + [TextNode(fragment)]) by {
      ContainerEmptyIsAllEmpty(r);
    }
    AllEmptyAppend(cs, TextNode(fragment));
    TextNodeEmptyIff(fragment);
  }
}
