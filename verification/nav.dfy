/**
  The navigation shown on every page: the tree of all pages (a directory
  with an index page is shown through that index, and the branch holding the
  viewed page is open), the breadcrumb of ancestors above the viewed page,
  and the document generated for a directory without an index.
*/
module Nav {
  import opened Strings
  import opened Model
  import opened Documents
  import opened Naming
  import opened Css
  import opened Wiki

  const CSS_CLASS_THIS_PAGE: string := "nav-tree-selected"
  const CSS_CLASS_BULLET: string := "nav-tree-bullet"
  const CSS_ID_NAV_TREE: string := "nav-tree"
  const CSS_ID_NAV_BREADCRUMB: string := "nav-breadcrumb"
  const OPEN_ATTR: string := "open"
  /** The text node placed between breadcrumb links. */
  const CRUMB_SEPARATOR: Node := TextNode("/")

  /** `make_page_link`: a link to the page, labelled with its capitalised title. */
  function PageLink(p: Page): Node {
    LinkNode(Capitalise(p.title), p.url)
  }

  /** Children have larger ids than their parent. */
  lemma ChildrenAbove(t: WikiTree, x: Id)
    requires Valid(t) && x < |t.pages|
    ensures forall i :: 0 <= i < |Children(t, x)| ==> x < Children(t, x)[i] < |t.pages|
  {
    var kids := Children(t, x);
    forall i | 0 <= i < |kids|
      ensures x < kids[i]
    {
      assert kids[i] in kids;
      ChildPath(t, kids[i], x);
    }
  }

  // ---------------------------------------------------------------------
  // The nav tree

  /** The page a directory is shown as: its last Index child, or the
      directory itself when it has none. */
  function ShownPage(t: WikiTree, kids: seq<Id>, current: Id): (r: Id)
    requires forall i :: 0 <= i < |kids| ==> kids[i] < |t.pages|
    ensures r == current || exists i :: 0 <= i < |kids| && kids[i] == r && t.pages[r].kind.Index?
  {
    if kids == [] then current
    else
      var last := kids[|kids| - 1];
      if t.pages[last].kind.Index? then last
      else
        var front := kids[..|kids| - 1];
        var r := ShownPage(t, front, current);
        assert forall i :: 0 <= i < |front| ==> front[i] == kids[i];
        r
  }

  /** The shown page is the last Index child. */
  lemma {:induction false} ShownPageLast(t: WikiTree, kids: seq<Id>, current: Id, j: nat)
    requires forall i :: 0 <= i < |kids| ==> kids[i] < |t.pages|
    requires j < |kids| && t.pages[kids[j]].kind.Index?
    requires forall k :: j < k < |kids| ==> !t.pages[kids[k]].kind.Index?
    ensures ShownPage(t, kids, current) == kids[j]
    decreases |kids|
  {
    if j < |kids| - 1 {
      var front := kids[..|kids| - 1];
      assert !t.pages[kids[|kids| - 1]].kind.Index?;
      ShownPageLast(t, front, current, j);
    }
  }

  /** Without an Index child the page is shown as itself. */
  lemma {:induction false} ShownPageNoIndex(t: WikiTree, kids: seq<Id>, current: Id)
    requires forall i :: 0 <= i < |kids| ==> kids[i] < |t.pages| && !t.pages[kids[i]].kind.Index?
    ensures ShownPage(t, kids, current) == current
    decreases |kids|
  {
    if kids != [] {
      ShownPageNoIndex(t, kids[..|kids| - 1], current);
    }
  }

  /** Reading the children front to back and remembering the last Index met
      gives the same page. */
  lemma {:induction false} ShownPageCons(t: WikiTree, c: Id, kids: seq<Id>, current: Id)
    requires c < |t.pages| && forall i :: 0 <= i < |kids| ==> kids[i] < |t.pages|
    ensures ShownPage(t, [c] + kids, current)
      == ShownPage(t, kids, if t.pages[c].kind.Index? then c else current)
    decreases |kids|
  {
    var s := [c] + kids;
    if kids == [] {
      assert s[..0] == [];
    } else {
      assert s[|s| - 1] == kids[|kids| - 1];
      assert s[..|s| - 1] == [c] + kids[..|kids| - 1];
      ShownPageCons(t, c, kids[..|kids| - 1], current);
    }
  }

  /** The link of the shown page; the viewed page's link, and no other, is
      marked as selected. */
  function SelectedLink(t: WikiTree, shown: Id, page: Id): (r: Node)
    requires shown < |t.pages|
    ensures r.el == PageLink(t.pages[shown]).el
    ensures shown == page ==> r.attrs == [(CSS_CLASS_ATTR, CSS_CLASS_THIS_PAGE)]
    ensures shown != page ==> r.attrs == []
  {
    var link := PageLink(t.pages[shown]);
    if shown == page then link.WithAttr(CSS_CLASS_ATTR, CSS_CLASS_THIS_PAGE) else link
  }

  /** The empty span drawn before a leaf of the tree. */
  function Bullet(): Node {
    SpanNode([]).WithAttr(CSS_CLASS_ATTR, CSS_CLASS_BULLET)
  }

  /** A branch is open when the viewed page lies below the shown page, or
      below the directory an index page stands for. */
  predicate Opens(t: WikiTree, shown: Id, page: Id)
    requires shown < |t.pages| && page < |t.pages|
  {
    || IsDescendentOf(t.pages[page], shown)
    || (t.pages[shown].kind.Index? && Parent(t.pages[shown]).Some?
        && IsDescendentOf(t.pages[page], Parent(t.pages[shown]).value))
  }

  /** The node for a page once its children are known: a collapsible
      branch when some child is shown, a leaf item for a page that is not a
      directory, and nothing for an empty directory. */
  function Assemble(t: WikiTree, shown: Id, nodes: seq<Node>, page: Id): (r: Node)
    requires shown < |t.pages| && page < |t.pages|
    ensures nodes != [] ==> (r.el == Details([SelectedLink(t, shown, page)], [ListNode(nodes)])
      && (GetAttr(r.attrs, OPEN_ATTR).Some? <==> Opens(t, shown, page)))
    ensures nodes == [] && !t.pages[shown].kind.Directory? ==>
      r == ItemNode([Bullet(), SelectedLink(t, shown, page)])
    ensures nodes == [] && t.pages[shown].kind.Directory? ==> r == EmptyNode()
  {
    var link := SelectedLink(t, shown, page);
    if nodes != [] then
      var node := DetailsNode([link], [ListNode(nodes)]);
      if Opens(t, shown, page) then node.WithAttr(OPEN_ATTR, "") else node
    else if !t.pages[shown].kind.Directory? then ItemNode([Bullet(), link])
    else EmptyNode()
  }

  /** What the loop over a page's children gathers: the page shown so far
      and the non-empty subtrees of the other children. */
  datatype Gathered = Gathered(shown: Id, nodes: seq<Node>)

  /** `make_nav_subtree`: nothing for media; otherwise the children are
      walked, an Index child taking the page's place and every other child
      contributing its subtree when that is not empty. */
  function NavSubtree(t: WikiTree, current: Id, page: Id): (r: Node)
    requires Valid(t) && current < |t.pages| && page < |t.pages|
    ensures t.pages[current].kind.Media? ==> r == EmptyNode()
    decreases |t.pages| - current, 2
  {
    if t.pages[current].kind.Media? then EmptyNode()
    else
      var g := Gather(t, current, page);
      Assemble(t, g.shown, g.nodes, page)
  }

  /** The walk over a page's children: the page it is shown as, and the
      non-empty subtrees of its other children. */
  function Gather(t: WikiTree, current: Id, page: Id): (g: Gathered)
    requires Valid(t) && current < |t.pages| && page < |t.pages|
    ensures g.shown == ShownPage(t, Children(t, current), current)
    decreases |t.pages| - current, 1
  {
    ChildrenAbove(t, current);
    NavLoop(t, current, Children(t, current), Gathered(current, []), page)
  }

  /** The loop of `make_nav_subtree` over the children of `owner`. */
  function NavLoop(t: WikiTree, owner: Id, kids: seq<Id>, acc: Gathered, page: Id): (r: Gathered)
    requires Valid(t) && owner < |t.pages| && page < |t.pages| && acc.shown < |t.pages|
    requires forall i :: 0 <= i < |kids| ==> owner < kids[i] < |t.pages|
    ensures r.shown < |t.pages|
    ensures r.shown == ShownPage(t, kids, acc.shown)
    decreases |t.pages| - owner, 0, |kids|
  {
    if kids == [] then acc
    else
      var c := kids[0];
      ShownPageCons(t, c, kids[1..], acc.shown);
      assert [c] + kids[1..] == kids;
      var acc' := Visit(t, owner, c, acc, page);
      NavLoop(t, owner, kids[1..], acc', page)
  }

  /** The loop only appends to what it was given, appends only non-empty
      subtrees, and at most one per child. */
  lemma {:induction false} NavLoopNodes(t: WikiTree, owner: Id, kids: seq<Id>, acc: Gathered, page: Id)
    requires Valid(t) && owner < |t.pages| && page < |t.pages| && acc.shown < |t.pages|
    requires forall i :: 0 <= i < |kids| ==> owner < kids[i] < |t.pages|
    ensures var r := NavLoop(t, owner, kids, acc, page);
      && |acc.nodes| <= |r.nodes| <= |acc.nodes| + |kids|
      && r.nodes[..|acc.nodes|] == acc.nodes
      && forall i :: |acc.nodes| <= i < |r.nodes| ==> !IsEmpty(r.nodes[i])
    decreases |kids|
  {
    if kids != [] {
      var acc' := Visit(t, owner, kids[0], acc, page);
      NavLoopNodes(t, owner, kids[1..], acc', page);
      var r := NavLoop(t, owner, kids[1..], acc', page);
      assert NavLoop(t, owner, kids, acc, page) == r;
      assert r.nodes[..|acc.nodes|] == r.nodes[..|acc'.nodes|][..|acc.nodes|];
      forall i | |acc.nodes| <= i < |acc'.nodes|
        ensures !IsEmpty(r.nodes[i])
      {
        assert r.nodes[i] == r.nodes[..|acc'.nodes|][i];
      }
    }
  }

  /** The walk keeps no empty subtree, and at most one per child. */
  lemma GatherNodes(t: WikiTree, current: Id, page: Id)
    requires Valid(t) && current < |t.pages| && page < |t.pages|
    ensures var g := Gather(t, current, page);
      && (forall i :: 0 <= i < |g.nodes| ==> !IsEmpty(g.nodes[i]))
      && |g.nodes| <= |Children(t, current)|
  {
    ChildrenAbove(t, current);
    NavLoopNodes(t, current, Children(t, current), Gathered(current, []), page);
  }

  /** One step of the loop: an Index child becomes the shown page, any other
      child adds its subtree unless that is empty. */
  function Visit(t: WikiTree, owner: Id, c: Id, acc: Gathered, page: Id): (r: Gathered)
    requires Valid(t) && owner < c < |t.pages| && page < |t.pages| && acc.shown < |t.pages|
    ensures r.shown == if t.pages[c].kind.Index? then c else acc.shown
    ensures r.nodes == acc.nodes || (|r.nodes| == |acc.nodes| + 1
      && r.nodes[..|acc.nodes|] == acc.nodes && !IsEmpty(r.nodes[|acc.nodes|]))
    decreases |t.pages| - owner, 0, 0
  {
    if t.pages[c].kind.Index? then Gathered(c, acc.nodes)
    else
      var s := NavSubtree(t, c, page);
      if IsEmpty(s) then acc else Gathered(acc.shown, acc.nodes + [s])
  }

  /** Any other page is assembled from what the walk over its children gathered. */
  lemma NavSubtreeAssembles(t: WikiTree, current: Id, page: Id)
    requires Valid(t) && current < |t.pages| && page < |t.pages|
    requires !t.pages[current].kind.Media?
    ensures var g := Gather(t, current, page);
      NavSubtree(t, current, page) == Assemble(t, g.shown, g.nodes, page)
  {
  }

  /** A directory shows nothing when none of its children is an index page
      and every child's own subtree is empty (media, or directories pruned in
      turn); in particular a directory with no children at all. */
  lemma EmptyDirectoryPruned(t: WikiTree, current: Id, page: Id)
    requires Valid(t) && current < |t.pages| && page < |t.pages|
    requires t.pages[current].kind.Directory?
    requires var kids := Children(t, current);
      forall i :: 0 <= i < |kids| ==> !t.pages[kids[i]].kind.Index? && IsEmpty(NavSubtree(t, kids[i], page))
    ensures NavSubtree(t, current, page) == EmptyNode()
  {
    var kids := Children(t, current);
    ChildrenAbove(t, current);
    NavLoopQuiet(t, current, kids, 0, Gathered(current, []), page);
    assert kids[0..] == kids;
    NavSubtreeAssembles(t, current, page);
  }

  /** Children that are not index pages and whose subtrees are empty leave
      the loop's gathering as it was, from any position `k` on. */
  lemma {:induction false} NavLoopQuiet(t: WikiTree, owner: Id, kids: seq<Id>, k: nat, acc: Gathered, page: Id)
    requires Valid(t) && owner < |t.pages| && page < |t.pages| && acc.shown < |t.pages| && k <= |kids|
    requires forall i :: 0 <= i < |kids| ==> owner < kids[i] < |t.pages|
    requires forall i :: 0 <= i < |kids| ==> !t.pages[kids[i]].kind.Index? && IsEmpty(NavSubtree(t, kids[i], page))
    ensures NavLoop(t, owner, kids[k..], acc, page) == acc
    decreases |kids| - k
  {
    if k < |kids| {
      var c := kids[k];
      VisitQuiet(t, owner, c, acc, page);
      assert kids[k..][0] == c && kids[k..][1..] == kids[k + 1..];
      NavLoopQuiet(t, owner, kids, k + 1, acc, page);
    }
  }

  /** A child that is not an index page and whose subtree is empty changes nothing. */
  lemma VisitQuiet(t: WikiTree, owner: Id, c: Id, acc: Gathered, page: Id)
    requires Valid(t) && owner < c < |t.pages| && page < |t.pages| && acc.shown < |t.pages|
    requires !t.pages[c].kind.Index? && IsEmpty(NavSubtree(t, c, page))
    ensures Visit(t, owner, c, acc, page) == acc
  {
  }

  /** A page other than a directory with no children is a leaf: a bullet
      and its link, selected when it is the viewed page. */
  lemma LeafItem(t: WikiTree, current: Id, page: Id)
    requires Valid(t) && current < |t.pages| && page < |t.pages|
    requires !t.pages[current].kind.Directory? && !t.pages[current].kind.Media?
    requires Children(t, current) == []
    ensures NavSubtree(t, current, page) == ItemNode([Bullet(), SelectedLink(t, current, page)])
  {
    NavSubtreeAssembles(t, current, page);
  }

  /** A directory whose only child is an index page without children is
      drawn as a leaf for that index page. */
  lemma IndexOnlyChild(t: WikiTree, x: Id, i: Id, page: Id)
    requires Valid(t) && x < |t.pages| && i < |t.pages| && page < |t.pages|
    requires !t.pages[x].kind.Media?
    requires Children(t, x) == [i] && t.pages[i].kind.Index? && Children(t, i) == []
    ensures NavSubtree(t, x, page) == ItemNode([Bullet(), SelectedLink(t, i, page)])
  {
    ChildrenAbove(t, x);
    assert Visit(t, x, i, Gathered(x, []), page) == Gathered(i, []);
    assert [i][1..] == [];
    assert NavLoop(t, x, [i], Gathered(x, []), page) == Gathered(i, []);
    NavSubtreeAssembles(t, x, page);
  }

  /** A page's link shows its capitalised, trimmed title. */
  lemma PageLinkText(p: Page)
    ensures PageLink(p).el.Link? && PageLink(p).el.text == Trim(Capitalise(p.title))
  {
  }

  /** A leaf is kept in the tree exactly when its link has text. */
  lemma LeafItemNonEmpty(t: WikiTree, shown: Id, page: Id)
    requires shown < |t.pages|
    ensures !IsEmpty(ItemNode([Bullet(), SelectedLink(t, shown, page)]))
      <==> Trim(Capitalise(t.pages[shown].title)) != []
  {
    var link := SelectedLink(t, shown, page);
    assert IsEmpty(Bullet()) by {
      ContainerEmptyIff(Bullet());
    }
    var text := Trim(Capitalise(t.pages[shown].title));
    assert IsEmpty(link) <==> text == [] by {
      PageLinkText(t.pages[shown]);
      LinkImageEmptiness(link);
    }
    ItemAfterEmpty(Bullet(), link);
  }

  /** An item whose first child is empty is empty exactly when its second is. */
  lemma ItemAfterEmpty(a: Node, b: Node)
    requires IsEmpty(a)
    ensures IsEmpty(ItemNode([a, b])) <==> IsEmpty(b)
  {
    var cs := [a, b];
    var item := ItemNode(cs);
    assert item.el == Item(cs);
    ContainerEmptyIsAllEmpty(item);
    assert cs[1..] == [b];
    assert AllEmpty([b]) <==> IsEmpty(b) by {
      assert [b][1..] == [];
    }
  }

  /** `make_nav_tree`: the non-empty subtrees of the root's children, as a
      list with the id "nav-tree". At the top level an Index child is listed
      as its own entry. */
  function NavTree(t: WikiTree, page: Id): (r: Node)
    requires Valid(t) && page < |t.pages|
    ensures r.el.List? && GetAttr(r.attrs, CSS_ID_ATTR) == Some(CSS_ID_NAV_TREE)
    ensures var items := NonEmpty(Subtrees(t, Children(t, ROOT), page));
      r.el == ListNode(items).el && forall i :: 0 <= i < |items| ==> !IsEmpty(items[i])
  {
    ListNode(NonEmpty(Subtrees(t, Children(t, ROOT), page))).WithAttr(CSS_ID_ATTR, CSS_ID_NAV_TREE)
  }

  /** The subtree of each page in `kids`, in order. */
  function Subtrees(t: WikiTree, kids: seq<Id>, page: Id): (r: seq<Node>)
    requires Valid(t) && page < |t.pages|
    requires forall i :: 0 <= i < |kids| ==> kids[i] < |t.pages|
    ensures |r| == |kids| && forall i :: 0 <= i < |kids| ==> r[i] == NavSubtree(t, kids[i], page)
  {
    seq(|kids|, i requires 0 <= i < |kids| => NavSubtree(t, kids[i], page))
  }

  /** The loop of `make_nav_tree`: the subtrees that are not empty, in order. */
  function NonEmpty(ns: seq<Node>): (r: seq<Node>)
    ensures |r| <= |ns|
    ensures forall i :: 0 <= i < |r| ==> !IsEmpty(r[i])
  {
    if ns == [] then []
    else
      var rest := NonEmpty(ns[1..]);
      if IsEmpty(ns[0]) then rest
      else
        assert forall i :: 1 <= i < |rest| + 1 ==> ([ns[0]] + rest)[i] == rest[i - 1];
        [ns[0]] + rest
  }

  /** Exactly the non-empty nodes are kept: a node of `ns` is in the result
      if and only if it is not empty. */
  lemma {:induction false} NonEmptyKeeps(ns: seq<Node>, n: Node)
    ensures n in NonEmpty(ns) <==> n in ns && !IsEmpty(n)
  {
    if ns != [] {
      NonEmptyKeeps(ns[1..], n);
      assert ns == [ns[0]] + ns[1..];
    }
  }

  // ---------------------------------------------------------------------
  // The breadcrumb

  /** `next_breadcrumb`: the parent, or for an index page the parent's
      parent, since the index stands for its directory. */
  function NextBreadcrumb(t: WikiTree, p: Id): (r: Option<Id>)
    requires Valid(t) && p < |t.pages|
    ensures r.Some? ==> r.value < p && IsDescendentOf(t.pages[p], r.value)
    ensures !t.pages[p].kind.Index? ==> r == Parent(t.pages[p])
    ensures var path := t.pages[p].path;
      t.pages[p].kind.Index? ==> r == (if |path| >= 3 then Some(path[|path| - 3]) else None)
  {
    assert WellPlaced(t, p);
    var path := t.pages[p].path;
    if t.pages[p].kind.Index? then
      match GetParent(t, t.pages[p])
      case Some(q) =>
        PathPrefix(t, p, |path| - 1);
        assert WellPlaced(t, q);
        GetParent(t, t.pages[q])
      case None => None
    else GetParent(t, t.pages[p])
  }

  /** The pages the breadcrumb walk visits, nearest first, stopping at the root. */
  function Trail(t: WikiTree, cur: Option<Id>): (r: seq<Id>)
    requires Valid(t) && (cur.Some? ==> cur.value < |t.pages|)
    ensures ROOT !in r
    ensures forall i :: 0 <= i < |r| ==> r[i] < |t.pages|
    ensures forall i, j :: 0 <= i < j < |r| ==> r[j] < r[i]
    ensures r != [] ==> cur == Some(r[0])
    decreases if cur.Some? then cur.value + 1 else 0
  {
    match cur
    case None => []
    case Some(e) =>
      if e == ROOT then []
      else
        var rest := Trail(t, NextBreadcrumb(t, e));
        assert forall i :: 0 <= i < |rest| ==> rest[i] <= rest[0] < e;
        [e] + rest
  }

  function Reverse<T>(s: seq<T>): (r: seq<T>)
    ensures |r| == |s| && forall i :: 0 <= i < |s| ==> r[i] == s[|s| - 1 - i]
  {
    if s == [] then [] else Reverse(s[1..]) + [s[0]]
  }

  /** The links of the pages `ids`, in the same order. */
  function Links(t: WikiTree, ids: seq<Id>): (r: seq<Node>)
    requires forall i :: 0 <= i < |ids| ==> ids[i] < |t.pages|
    ensures |r| == |ids| && forall i :: 0 <= i < |ids| ==> r[i] == PageLink(t.pages[ids[i]])
  {
    seq(|ids|, i requires 0 <= i < |ids| => PageLink(t.pages[ids[i]]))
  }

  lemma LinksReversed(t: WikiTree, ids: seq<Id>)
    requires forall i :: 0 <= i < |ids| ==> ids[i] < |t.pages|
    ensures Reverse(Links(t, ids)) == Links(t, Reverse(ids))
  {
    var a := Reverse(Links(t, ids));
    var b := Links(t, Reverse(ids));
    assert |a| == |ids| == |b|;
    forall i | 0 <= i < |ids|
      ensures a[i] == b[i]
    {
      LinkReversedAt(t, ids, i);
    }
  }

  lemma LinkReversedAt(t: WikiTree, ids: seq<Id>, i: nat)
    requires forall i :: 0 <= i < |ids| ==> ids[i] < |t.pages|
    requires i < |ids|
    ensures Reverse(Links(t, ids))[i] == Links(t, Reverse(ids))[i]
  {
    var links := Links(t, ids);
    ReverseAt(links, i);
    ReverseAt(ids, i);
  }

  lemma ReverseAt<T>(s: seq<T>, i: nat)
    requires i < |s|
    ensures Reverse(s)[i] == s[|s| - 1 - i]
  {
  }

  /** The nodes pushed while walking: "/" and then the entry's link, for
      each entry in the order visited. */
  function Crumbs(links: seq<Node>): (r: seq<Node>)
    ensures |r| == 2 * |links|
  {
    if links == [] then [] else [CRUMB_SEPARATOR, links[0]] + Crumbs(links[1..])
  }

  /** The breadcrumb as shown, top down: each link followed by "/". */
  function Shown(links: seq<Node>): (r: seq<Node>)
    ensures |r| == 2 * |links|
  {
    if links == [] then [] else [links[0], CRUMB_SEPARATOR] + Shown(links[1..])
  }

  lemma {:induction false} ReverseAppend<T>(a: seq<T>, b: seq<T>)
    ensures Reverse(a + b) == Reverse(b) + Reverse(a)
  {
    if a != [] {
      assert (a + b)[1..] == a[1..] + b;
      ReverseAppend(a[1..], b);
    } else {
      assert a + b == b;
    }
  }

  lemma ShownCons(x: Node, rest: seq<Node>)
    ensures Shown([x] + rest) == [x, CRUMB_SEPARATOR] + Shown(rest)
  {
    assert ([x] + rest)[0] == x && ([x] + rest)[1..] == rest;
  }

  lemma {:induction false} ShownAppend(links: seq<Node>, l: Node)
    ensures Shown(links + [l]) == Shown(links) + [l, CRUMB_SEPARATOR]
  {
    if links != [] {
      var x := links[0];
      var rest := links[1..];
      assert links == [x] + rest;
      assert links + [l] == [x] + (rest + [l]);
      ShownAppend(rest, l);
      ShownCons(x, rest + [l]);
      ShownCons(x, rest);
      AppendAssociative([x, CRUMB_SEPARATOR], Shown(rest), [l, CRUMB_SEPARATOR]);
    } else {
      assert links + [l] == [l];
    }
  }

  /** Reversing the pushed nodes shows the links in reverse order, each
      before its "/". */
  lemma {:induction false} CrumbsReversed(links: seq<Node>)
    ensures Reverse(Crumbs(links)) == Shown(Reverse(links))
  {
    if links != [] {
      var l := links[0];
      var rest := links[1..];
      var c := Crumbs(rest);
      assert Crumbs(links) == [CRUMB_SEPARATOR, l] + c;
      assert Reverse(links) == Reverse(rest) + [l];
      CrumbsReversed(rest);
      ReverseAppend([CRUMB_SEPARATOR, l], c);
      assert Reverse([CRUMB_SEPARATOR, l]) == [l, CRUMB_SEPARATOR] by {
        assert [CRUMB_SEPARATOR, l][1..] == [l];
      }
      ShownAppend(Reverse(rest), l);
    }
  }

  /** `make_nav_breadcrumb`: the visited entries shown top down, each link
      followed by "/", as a level-3 heading with the id "nav-breadcrumb";
      nothing when the walk meets the root at once. */
  function Breadcrumb(t: WikiTree, page: Id): (r: Node)
    requires Valid(t) && page < |t.pages|
    ensures var trail := Trail(t, NextBreadcrumb(t, page));
      && (r == EmptyNode() <==> trail == [])
      && (trail != [] ==>
        && r.el == Heading(3, Shown(Links(t, Reverse(trail))))
        && GetAttr(r.attrs, CSS_ID_ATTR) == Some(CSS_ID_NAV_BREADCRUMB))
  {
    var trail := Trail(t, NextBreadcrumb(t, page));
    var nodes := Reverse(Crumbs(Links(t, trail)));
    CrumbsReversed(Links(t, trail));
    LinksReversed(t, trail);
    if nodes == [] then EmptyNode()
    else HeadingNode(3, nodes).WithAttr(CSS_ID_ATTR, CSS_ID_NAV_BREADCRUMB)
  }

  /** No page on `path` is an index page. */
  predicate NoIndexOn(t: WikiTree, path: seq<Id>) {
    forall j :: 0 <= j < |path| ==> path[j] < |t.pages| && !t.pages[path[j]].kind.Index?
  }

  lemma {:induction false} ReverseSnoc<T>(s: seq<T>, x: T)
    ensures Reverse(s + [x]) == [x] + Reverse(s)
  {
  }

  lemma NoIndexPrefix(t: WikiTree, path: seq<Id>, k: nat)
    requires NoIndexOn(t, path) && k <= |path|
    ensures NoIndexOn(t, path[..k])
  {
    assert forall j :: 0 <= j < k ==> path[..k][j] == path[j];
  }

  /** From a page with no index page on its path, the walk climbs the path
      to just below the root. */
  lemma {:induction false} TrailClimbsPath(t: WikiTree, a: Id)
    requires Valid(t) && a < |t.pages|
    requires t.pages[a].path != [] && NoIndexOn(t, t.pages[a].path)
    ensures Trail(t, Some(a)) == Reverse(t.pages[a].path[1..])
    decreases a
  {
    var path := t.pages[a].path;
    RootPath(t, a);
    if a != ROOT {
      ClimbStep(t, a);
      var q := path[|path| - 2];
      TrailClimbsPath(t, q);
      TrailStep(t, a, q);
      var between := path[1..|path| - 1];
      assert t.pages[q].path[1..] == between;
      assert path[1..] == between + [a];
      ReverseSnoc(between, a);
    }
  }

  /** A page other than the root with no index page on its path climbs to
      its parent, whose path is its own without the last entry. */
  lemma ClimbStep(t: WikiTree, a: Id)
    requires Valid(t) && a < |t.pages| && a != ROOT
    requires NoIndexOn(t, t.pages[a].path)
    ensures var path := t.pages[a].path;
      && |path| >= 2 && path[|path| - 1] == a && path[|path| - 2] < a
      && NextBreadcrumb(t, a) == Some(path[|path| - 2])
      && t.pages[path[|path| - 2]].path == path[..|path| - 1]
      && NoIndexOn(t, t.pages[path[|path| - 2]].path)
  {
    var path := t.pages[a].path;
    assert WellPlaced(t, a);
    RootPath(t, a);
    PathPrefix(t, a, |path| - 1);
    assert !t.pages[a].kind.Index? by { assert path[|path| - 1] == a; }
    NoIndexPrefix(t, path, |path| - 1);
  }

  /** One step of the walk: a page other than the root is followed by the
      walk from its next crumb. */
  lemma TrailStep(t: WikiTree, a: Id, q: Id)
    requires Valid(t) && a < |t.pages| && a != ROOT && NextBreadcrumb(t, a) == Some(q)
    ensures Trail(t, Some(a)) == [a] + Trail(t, Some(q))
  {
  }

  /** When no ancestor is an index page, the breadcrumb walk visits the
      ancestors strictly between the root and the page, nearest first; an
      index page also leaves out its own directory. */
  lemma BreadcrumbFollowsPath(t: WikiTree, p: Id)
    requires Valid(t) && p < |t.pages|
    requires t.pages[p].path != [] && NoIndexOn(t, t.pages[p].path[..|t.pages[p].path| - 1])
    ensures var path := t.pages[p].path;
      && (!t.pages[p].kind.Index? && |path| >= 2 ==> Trail(t, NextBreadcrumb(t, p)) == Reverse(path[1..|path| - 1]))
      && (t.pages[p].kind.Index? && |path| == 2 ==> Trail(t, NextBreadcrumb(t, p)) == [])
      && (t.pages[p].kind.Index? && |path| >= 3 ==> Trail(t, NextBreadcrumb(t, p)) == Reverse(path[1..|path| - 2]))
  {
    assert WellPlaced(t, p);
    var path := t.pages[p].path;
    if |path| >= 2 {
      var q := path[|path| - 2];
      PathPrefix(t, p, |path| - 1);
      if !t.pages[p].kind.Index? {
        TrailClimbsPath(t, q);
      } else if |path| == 2 {
        RootPath(t, q);
      } else {
        var g := path[|path| - 3];
        PathPrefix(t, p, |path| - 2);
        assert WellPlaced(t, q);
        assert Parent(t.pages[q]) == Some(g);
        NoIndexPrefix(t, path[..|path| - 1], |path| - 2);
        assert path[..|path| - 1][..|path| - 2] == path[..|path| - 2];
        TrailClimbsPath(t, g);
      }
    }
  }

  // ---------------------------------------------------------------------
  // Generated index pages

  /** `create_index`: a level-1 heading with the directory's capitalised
      title, then a list linking to each child in order. */
  function CreateIndex(dir: Page, children: seq<Page>): (r: Doc)
    ensures |r.nodes| == 2
    ensures r.nodes[0] == HeadingNode(1, [TextNode(Capitalise(dir.title))])
    ensures var items := r.nodes[1].el;
      && items.List? && |items.children| == |children|
      && forall i :: 0 <= i < |children| ==> items.children[i] == ItemNode([PageLink(children[i])])
  {
    var links := seq(|children|, i requires 0 <= i < |children| => PageLink(children[i]));
    FromNodes([HeadingNode(1, [TextNode(Capitalise(dir.title))]), ListNode(links)])
  }

  /** The generated page is titled after its directory. */
  lemma CreateIndexTitle(dir: Page, children: seq<Page>)
    ensures TitleFromHeading(CreateIndex(dir, children)) == Some(Trim(Capitalise(dir.title)))
  {
    var d := CreateIndex(dir, children);
    var h := d.nodes[0];
    assert IsFirstText(h.el.children, 0);
    assert IsFirstTitleHeading(d.nodes, 0);
  }
}
