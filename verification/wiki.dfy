/**
  The page arena: every page of the wiki lives in one append-only sequence
  and is referred to by its index (its id). Each page stores its `path`,
  the ids of its ancestors from the root down to itself, so the parent of a
  page is the second-to-last entry of its path.

  Page references returned by the program (`&WikiPage`) are modelled by
  their ids: under `Valid`, the page at index `i` has id `i`.
*/
module Wiki {
  import opened Strings
  import opened Model
  import opened Documents
  import opened Naming

  type Id = nat

  const ROOT: Id := 0

  datatype PageKind =
    | Document(doc: Doc)
    | Directory
    | Index(doc: Doc)
    | Media(file: string)

  datatype Page = Page(kind: PageKind, path: seq<Id>, title: string, url: string)

  datatype WikiTree = WikiTree(pages: seq<Page>)

  // ---------------------------------------------------------------------
  // Page accessors

  /** `id`: the last entry of the path (the program requires it non-empty). */
  function PageId(p: Page): Id
    requires p.path != []
  {
    p.path[|p.path| - 1]
  }

  /** `parent`: the second-to-last entry of the path, if there is one. */
  function Parent(p: Page): Option<Id> {
    if |p.path| >= 2 then Some(p.path[|p.path| - 2]) else None
  }

  /** `filename`: the part of the url after its last '/', or "" without one. */
  function Filename(p: Page): (r: string)
    ensures '/' !in p.url ==> r == []
    ensures '/' in p.url ==> '/' !in r && EndsWith(p.url, "/" + r)
  {
    match LastIndexOf(p.url, '/')
    case Some(i) =>
      assert p.url[|p.url| - |"/" + p.url[i + 1..]|..] == "/" + p.url[i + 1..];
      p.url[i + 1..]
    case None => []
  }

  /** `document`: documents and index pages carry one; the others do not. */
  function PageDocument(p: Page): (r: Option<Doc>)
    ensures r.Some? <==> p.kind.Document? || p.kind.Index?
    ensures r.Some? ==> r.value == p.kind.doc
  {
    match p.kind
    case Document(d) => Some(d)
    case Index(d) => Some(d)
    case _ => None
  }

  /** `is_descendent_of`: the ancestor appears on the page's path. */
  predicate IsDescendentOf(p: Page, ancestor: Id) {
    ancestor in p.path
  }

  predicate IsRoot(p: Page)
    requires p.path != []
  {
    PageId(p) == ROOT
  }

  // ---------------------------------------------------------------------
  // The arena invariant

  /** Page `i` sits where its path says: the path runs from the root to `i`,
      every ancestor has a smaller id, and each ancestor's own path is the
      matching prefix. */
  predicate WellPlaced(t: WikiTree, i: nat)
    requires i < |t.pages|
  {
    var path := t.pages[i].path;
    && |path| > 0
    && path[0] == ROOT
    && path[|path| - 1] == i
    && forall j :: 0 <= j < |path| - 1 ==> path[j] < i && t.pages[path[j]].path == path[..j + 1]
  }

  predicate Valid(t: WikiTree) {
    |t.pages| > 0 && forall i :: 0 <= i < |t.pages| ==> WellPlaced(t, i)
  }

  /** `WikiTree::new`: a single root directory titled "Index" with an empty url. */
  function New(): (r: WikiTree)
    ensures Valid(r) && |r.pages| == 1
    ensures r.pages[0].kind == Directory && r.pages[0].path == [ROOT]
    ensures r.pages[0].title == "Index" && r.pages[0].url == ""
  {
    WikiTree([Page(Directory, [ROOT], "Index", "")])
  }

  /** `get`: the page with this id, if any. */
  function Get(t: WikiTree, id: Id): (r: Option<Page>)
    ensures r.Some? <==> id < |t.pages|
    ensures r.Some? ==> r.value == t.pages[id]
  {
    if id < |t.pages| then Some(t.pages[id]) else None
  }

  /** The page a new page is attached under: the requested parent if it
      exists, the root otherwise. */
  function AttachPoint(t: WikiTree, parent: Id): Id {
    if parent < |t.pages| then parent else ROOT
  }

  /** `add`: append a page under `parent` (or the root when `parent` is not
      a page); its id is the old page count, its path extends the parent's
      and its url is the parent's url, '/', and the file name. */
  function Add(t: WikiTree, kind: PageKind, parent: Id, filename: string, title: string): (r: (WikiTree, Id))
    requires t.pages != []
    ensures r.1 == |t.pages|
    ensures |r.0.pages| == |t.pages| + 1 && r.0.pages[..|t.pages|] == t.pages
    ensures r.0.pages[r.1].kind == kind && r.0.pages[r.1].title == title
    ensures r.0.pages[r.1].path == t.pages[AttachPoint(t, parent)].path + [r.1]
    ensures r.0.pages[r.1].url == t.pages[AttachPoint(t, parent)].url + "/" + filename
  {
    var id := |t.pages|;
    var p := t.pages[AttachPoint(t, parent)];
    (WikiTree(t.pages + [Page(kind, p.path + [id], title, p.url + "/" + filename)]), id)
  }

  function AddDoc(t: WikiTree, parent: Id, filename: string, title: string, d: Doc): (r: (WikiTree, Id))
    requires t.pages != []
  {
    Add(t, Document(d), parent, filename, title)
  }

  /** `add_dir`: the title is the capitalised file name, hyphens read as spaces. */
  function AddDir(t: WikiTree, parent: Id, filename: string): (r: (WikiTree, Id))
    requires t.pages != []
  {
    Add(t, Directory, parent, filename, Capitalise(Replace(filename, "-", " ")))
  }

  function AddIndex(t: WikiTree, parent: Id, filename: string, title: string, d: Doc): (r: (WikiTree, Id))
    requires t.pages != []
  {
    Add(t, Index(d), parent, filename, title)
  }

  function AddMedia(t: WikiTree, parent: Id, filename: string, title: string, file: string): (r: (WikiTree, Id))
    requires t.pages != []
  {
    Add(t, Media(file), parent, filename, title)
  }

  /** Adding a page keeps the arena invariant. */
  lemma AddValid(t: WikiTree, kind: PageKind, parent: Id, filename: string, title: string)
    requires Valid(t)
    ensures Valid(Add(t, kind, parent, filename, title).0)
  {
    var (t', n) := Add(t, kind, parent, filename, title);
    var q := AttachPoint(t, parent);
    assert WellPlaced(t, q);
    forall i | 0 <= i < |t'.pages|
      ensures WellPlaced(t', i)
    {
      if i < n {
        assert t'.pages[i] == t.pages[i];
        assert WellPlaced(t, i);
        var path := t.pages[i].path;
        forall j | 0 <= j < |path| - 1
          ensures t'.pages[path[j]] == t.pages[path[j]]
        {
        }
      } else {
        var pp := t.pages[q].path;
        var path := t'.pages[n].path;
        assert path == pp + [n];
        forall j | 0 <= j < |path| - 1
          ensures path[j] < n && t'.pages[path[j]].path == path[..j + 1]
        {
          assert path[j] == pp[j];
          if j < |pp| - 1 {
            assert t.pages[pp[j]].path == pp[..j + 1];
          } else {
            assert pp[j] == q;
          }
          assert path[..j + 1] == pp[..j + 1];
        }
      }
    }
  }

  /** The new page's id is the returned id, its parent is the page it was
      attached under (the root for an unknown parent), and it descends from
      itself and from every ancestor of that parent. */
  lemma AddParent(t: WikiTree, kind: PageKind, parent: Id, filename: string, title: string)
    requires Valid(t)
    ensures var (t', id) := Add(t, kind, parent, filename, title);
      && PageId(t'.pages[id]) == id
      && Parent(t'.pages[id]) == Some(AttachPoint(t, parent))
      && (parent < |t.pages| ==> Parent(t'.pages[id]) == Some(parent))
      && (parent >= |t.pages| ==> Parent(t'.pages[id]) == Some(ROOT))
      && forall a :: IsDescendentOf(t.pages[AttachPoint(t, parent)], a) ==> IsDescendentOf(t'.pages[id], a)
  {
    assert WellPlaced(t, AttachPoint(t, parent));
  }

  /** A file name without '/' is read back unchanged from the new page. */
  lemma AddFilename(t: WikiTree, kind: PageKind, parent: Id, filename: string, title: string)
    requires t.pages != [] && '/' !in filename
    ensures var (t', id) := Add(t, kind, parent, filename, title);
      Filename(t'.pages[id]) == filename
  {
    var p := t.pages[AttachPoint(t, parent)];
    LastIndexOfJoin(p.url, '/', filename);
    assert p.url + "/" + filename == p.url + ['/'] + filename;
  }

  /** The page of the program's filename test. */
  lemma FilenameExample()
    ensures Filename(Page(Document(Doc([])), [0, 1], "Title", "/rootdir" + "/" + "title.html")) == "title.html"
  {
    assert "/rootdir" + "/" + "title.html" == "/rootdir" + ['/'] + "title.html";
    LastIndexOfJoin("/rootdir", '/', "title.html");
  }

  /** Every page descends from itself and from the root. */
  lemma DescendsFromSelfAndRoot(t: WikiTree, i: nat)
    requires Valid(t) && i < |t.pages|
    ensures IsDescendentOf(t.pages[i], i) && IsDescendentOf(t.pages[i], ROOT)
  {
    assert WellPlaced(t, i);
  }

  /** The root's path is just the root, and no other page has a one-entry path. */
  lemma RootPath(t: WikiTree, i: nat)
    requires Valid(t) && i < |t.pages|
    ensures i == ROOT <==> |t.pages[i].path| == 1
    ensures i == ROOT ==> t.pages[i].path == [ROOT]
  {
    assert WellPlaced(t, i);
  }

  /** In a valid arena no path is longer than its page's id plus one. */
  lemma {:induction false} PathLengthBound(t: WikiTree, i: nat)
    requires Valid(t) && i < |t.pages|
    ensures |t.pages[i].path| <= i + 1
    decreases i
  {
    assert WellPlaced(t, i);
    var path := t.pages[i].path;
    if |path| >= 2 {
      var p := path[|path| - 2];
      assert t.pages[p].path == path[..|path| - 1];
      PathLengthBound(t, p);
    }
  }

  /** Every prefix of a page's path is the path of the page it ends at. */
  lemma PathPrefix(t: WikiTree, y: nat, k: nat)
    requires Valid(t) && y < |t.pages| && 0 < k <= |t.pages[y].path|
    ensures t.pages[y].path[k - 1] < |t.pages|
    ensures t.pages[t.pages[y].path[k - 1]].path == t.pages[y].path[..k]
  {
    assert WellPlaced(t, y);
    if k == |t.pages[y].path| {
      assert t.pages[y].path[..k] == t.pages[y].path;
    }
  }

  /** A child's path is its parent's path followed by the child's id. */
  lemma ChildPath(t: WikiTree, c: nat, x: Id)
    requires Valid(t) && c < |t.pages| && Parent(t.pages[c]) == Some(x)
    ensures x < c && t.pages[c].path == t.pages[x].path + [c]
  {
    assert WellPlaced(t, c);
    var path := t.pages[c].path;
    assert path == path[..|path| - 1] + [c];
  }

  // ---------------------------------------------------------------------
  // Children

  /** The ids below `n` whose parent is `id`, in increasing order. */
  function ChildrenBelow(t: WikiTree, id: Id, n: nat): (r: seq<Id>)
    requires n <= |t.pages|
    ensures forall c: Id :: c in r <==> c < n && Parent(t.pages[c]) == Some(id)
    ensures forall a, b :: 0 <= a < b < |r| ==> r[a] < r[b]
    ensures forall a :: 0 <= a < |r| ==> r[a] < n
  {
    if n == 0 then []
    else
      var r := ChildrenBelow(t, id, n - 1);
      assert n - 1 !in r;
      assert forall a :: 0 <= a < |r| ==> r[a] in r;
      if Parent(t.pages[n - 1]) == Some(id) then r + [n - 1] else r
  }

  /** `children`: the pages whose parent is `id`, in insertion order. */
  function Children(t: WikiTree, id: Id): (r: seq<Id>)
    ensures forall c: Id :: c in r <==> c < |t.pages| && Parent(t.pages[c]) == Some(id)
    ensures forall a, b :: 0 <= a < b < |r| ==> r[a] < r[b]
    ensures forall a :: 0 <= a < |r| ==> r[a] < |t.pages|
  {
    ChildrenBelow(t, id, |t.pages|)
  }

  /** `get_parent`: the parent page, when the page has a parent that exists. */
  function GetParent(t: WikiTree, p: Page): (r: Option<Id>)
    ensures r.Some? <==> |p.path| >= 2 && p.path[|p.path| - 2] < |t.pages|
    ensures r.Some? ==> r == Parent(p)
  {
    match Parent(p)
    case Some(id) => if id < |t.pages| then Some(id) else None
    case None => None
  }

  // ---------------------------------------------------------------------
  // Link resolution

  /** `link_target_filename`: the title lower-cased, spaces turned into
      hyphens, then '.' and the extension. */
  function LinkTargetFilename(title: string, ext: string): (r: string)
    ensures |r| == |title| + 1 + |ext|
    ensures forall i :: 0 <= i < |title| ==>
      r[i] == (if title[i] == ' ' then '-' else ToLowerChar(title[i]))
    ensures r[|title|] == '.' && r[|title| + 1..] == ext
  {
    ReplaceSingleChar(ToLower(title), ' ', '-');
    Replace(ToLower(title), " ", "-") + "." + ext
  }

  /** The two ways a page answers to a link: by file name or by title,
      ignoring ASCII case. */
  predicate IsLinkMatch(p: Page, title: string, ext: string) {
    Filename(p) == LinkTargetFilename(title, ext) || EqIgnoreAsciiCase(p.title, title)
  }

  predicate AllPages(t: WikiTree, ids: seq<Id>) {
    forall x: Id :: x in ids ==> x < |t.pages|
  }

  /** No page of `ids` answers to the link. */
  predicate NoneMatch(t: WikiTree, ids: seq<Id>, title: string, ext: string) {
    forall x: Id :: x in ids ==> x < |t.pages| && !IsLinkMatch(t.pages[x], title, ext)
  }

  /** `id` stands at position `i` of `level`, and no page before it answers
      to the link. */
  predicate FirstAt(t: WikiTree, level: seq<Id>, i: int, id: Id, title: string, ext: string) {
    0 <= i < |level| && level[i] == id && NoneMatch(t, level[..i], title, ext)
  }

  /** The first page of `level`, in order, that answers to the link. */
  function FirstMatch(t: WikiTree, level: seq<Id>, title: string, ext: string): (r: Option<Id>)
    requires AllPages(t, level)
    ensures r.Some? ==> r.value in level && IsLinkMatch(t.pages[r.value], title, ext)
    ensures r.Some? ==> exists i :: FirstAt(t, level, i, r.value, title, ext)
    ensures r.None? ==> NoneMatch(t, level, title, ext)
  {
    if level == [] then None
    else
      assert level[0] in level;
      assert forall x :: x in level[1..] ==> x in level;
      if IsLinkMatch(t.pages[level[0]], title, ext) then
        assert FirstAt(t, level, 0, level[0], title, ext) by {
          assert level[..0] == [];
        }
        Some(level[0])
      else
        var r := FirstMatch(t, level[1..], title, ext);
        if r.Some? then
          FirstAtShift(t, level, r.value, title, ext);
          r
        else r
  }

  /** A first match after a non-matching head is a first match of the whole
      level, one place further on. */
  lemma FirstAtShift(t: WikiTree, level: seq<Id>, id: Id, title: string, ext: string)
    requires level != [] && level[0] < |t.pages| && !IsLinkMatch(t.pages[level[0]], title, ext)
    requires exists i :: FirstAt(t, level[1..], i, id, title, ext)
    ensures exists i :: FirstAt(t, level, i, id, title, ext)
  {
    var i :| FirstAt(t, level[1..], i, id, title, ext);
    assert level[..i + 1] == [level[0]] + level[1..][..i];
    assert FirstAt(t, level, i + 1, id, title, ext);
  }

  /** The frontier one generation down: the children of each page of
      `level`, in order. */
  function NextLevel(t: WikiTree, level: seq<Id>): (r: seq<Id>)
    ensures forall c: Id :: c in r <==> c < |t.pages| && exists x: Id :: x in level && Parent(t.pages[c]) == Some(x)
  {
    if level == [] then []
    else Children(t, level[0]) + NextLevel(t, level[1..])
  }

  /** Pages of `level` all lie `depth` steps from the root. */
  predicate AtDepth(t: WikiTree, level: seq<Id>, depth: nat) {
    forall x: Id :: x in level ==> x < |t.pages| && |t.pages[x].path| == depth
  }

  /** The breadth-first scan of `find_link_target`, one generation at a time:
      the first match among `level`, otherwise among its children, and so on.
      Scanning whole generations in order visits pages in the same order as
      the program's growing frontier queue. */
  function SearchLevels(t: WikiTree, level: seq<Id>, depth: nat, title: string, ext: string): (r: Option<Id>)
    requires Valid(t) && AtDepth(t, level, depth)
    ensures r.Some? ==> r.value < |t.pages| && IsLinkMatch(t.pages[r.value], title, ext)
    decreases |t.pages| + 1 - depth
  {
    if level == [] then None
    else match FirstMatch(t, level, title, ext)
      case Some(x) => Some(x)
      case None =>
        PathLengthBound(t, level[0]);
        NextLevelDepth(t, level, depth);
        SearchLevels(t, NextLevel(t, level), depth + 1, title, ext)
  }

  lemma NextLevelDepth(t: WikiTree, level: seq<Id>, depth: nat)
    requires Valid(t) && AtDepth(t, level, depth)
    ensures AtDepth(t, NextLevel(t, level), depth + 1)
  {
    forall c | c in NextLevel(t, level)
      ensures c < |t.pages| && |t.pages[c].path| == depth + 1
    {
      var x :| x in level && Parent(t.pages[c]) == Some(x);
      ChildPath(t, c, x);
    }
  }

  /** `find_link_target`: search the subtree below `from` breadth first;
      failing that, start again from its parent, up to the root. */
  function FindLinkTarget(t: WikiTree, title: string, ext: string, from: Id): (r: Option<Id>)
    requires Valid(t) && from < |t.pages|
    ensures r.Some? ==> r.value < |t.pages| && IsLinkMatch(t.pages[r.value], title, ext)
    decreases from
  {
    var depth := |t.pages[from].path| + 1;
    ChildrenDepth(t, from);
    match SearchLevels(t, Children(t, from), depth, title, ext)
    case Some(x) => Some(x)
    case None =>
      match GetParent(t, t.pages[from])
      case None => None
      case Some(p) =>
        assert WellPlaced(t, from);
        FindLinkTarget(t, title, ext, p)
  }

  lemma ChildrenDepth(t: WikiTree, x: Id)
    requires Valid(t) && x < |t.pages|
    ensures AtDepth(t, Children(t, x), |t.pages[x].path| + 1)
  {
    forall c | c in Children(t, x)
      ensures |t.pages[c].path| == |t.pages[x].path| + 1
    {
      ChildPath(t, c, x);
    }
  }

  /** Page `y` lies strictly below page `x`: `x`'s path is a proper prefix of `y`'s. */
  predicate StrictlyBelow(t: WikiTree, y: Id, x: Id)
    requires x < |t.pages| && y < |t.pages|
  {
    |t.pages[x].path| < |t.pages[y].path| && t.pages[y].path[..|t.pages[x].path|] == t.pages[x].path
  }

  /** Under the arena invariant, "strictly below" is the descendant test of
      the program restricted to other pages. */
  lemma StrictlyBelowIsDescendent(t: WikiTree, y: Id, x: Id)
    requires Valid(t) && x < |t.pages| && y < |t.pages|
    ensures StrictlyBelow(t, y, x) <==> y != x && IsDescendentOf(t.pages[y], x)
  {
    var px, py := t.pages[x].path, t.pages[y].path;
    assert WellPlaced(t, x) && WellPlaced(t, y);
    if StrictlyBelow(t, y, x) {
      assert py[|px| - 1] == x;
      assert py[|py| - 1] == y;
      assert x < y;
    }
    if y != x && IsDescendentOf(t.pages[y], x) {
      var j :| 0 <= j < |py| && py[j] == x;
      assert j != |py| - 1;
      assert t.pages[x].path == py[..j + 1];
    }
  }

  /** Page `y` lies in the subtree of some page of `level`, `depth` being the
      length of their paths. */
  predicate UnderLevel(t: WikiTree, y: Id, level: seq<Id>, depth: nat)
    requires y < |t.pages|
  {
    depth <= |t.pages[y].path| &&
    exists x: Id :: x in level && x < |t.pages| && t.pages[y].path[..depth] == t.pages[x].path
  }

  /** One step of the generation scan: with no match in a non-empty
      generation, the scan continues with the next one, one level deeper. */
  lemma SearchLevelsStep(t: WikiTree, level: seq<Id>, depth: nat, title: string, ext: string)
    requires Valid(t) && AtDepth(t, level, depth) && level != []
    requires FirstMatch(t, level, title, ext).None?
    ensures depth <= |t.pages| && AtDepth(t, NextLevel(t, level), depth + 1)
    ensures SearchLevels(t, level, depth, title, ext) == SearchLevels(t, NextLevel(t, level), depth + 1, title, ext)
  {
    PathLengthBound(t, level[0]);
    NextLevelDepth(t, level, depth);
  }

  /** A page below the next generation is below the current one. */
  lemma UnderPreviousLevel(t: WikiTree, y: Id, level: seq<Id>, depth: nat)
    requires Valid(t) && AtDepth(t, level, depth) && y < |t.pages|
    requires UnderLevel(t, y, NextLevel(t, level), depth + 1)
    ensures UnderLevel(t, y, level, depth)
  {
    var py := t.pages[y].path;
    var c: Id :| c in NextLevel(t, level) && c < |t.pages| && py[..depth + 1] == t.pages[c].path;
    var x: Id :| x in level && Parent(t.pages[c]) == Some(x);
    ChildPath(t, c, x);
    assert py[..depth] == t.pages[c].path[..depth];
    assert t.pages[c].path[..depth] == t.pages[x].path;
  }

  /** A page found by the generation scan answers to the link and lies in
      the subtree of some page of the starting generation. */
  lemma {:induction false} SearchLevelsSound(t: WikiTree, level: seq<Id>, depth: nat, title: string, ext: string)
    requires Valid(t) && AtDepth(t, level, depth)
    ensures var r := SearchLevels(t, level, depth, title, ext);
      r.Some? ==>
        && r.value < |t.pages| && IsLinkMatch(t.pages[r.value], title, ext)
        && UnderLevel(t, r.value, level, depth)
    decreases |t.pages| + 1 - depth
  {
    if level != [] {
      match FirstMatch(t, level, title, ext)
      case Some(x) =>
        assert t.pages[x].path[..depth] == t.pages[x].path;
      case None =>
        SearchLevelsStep(t, level, depth, title, ext);
        var next := NextLevel(t, level);
        SearchLevelsSound(t, next, depth + 1, title, ext);
        var r := SearchLevels(t, next, depth + 1, title, ext);
        if r.Some? {
          UnderPreviousLevel(t, r.value, level, depth);
        }
    }
  }

  /** A page below the current generation is in it or below the next one. */
  lemma UnderNextLevel(t: WikiTree, y: Id, level: seq<Id>, depth: nat)
    requires Valid(t) && AtDepth(t, level, depth) && y < |t.pages|
    requires UnderLevel(t, y, level, depth)
    ensures y in level || UnderLevel(t, y, NextLevel(t, level), depth + 1)
  {
    var py := t.pages[y].path;
    var x: Id :| x in level && x < |t.pages| && py[..depth] == t.pages[x].path;
    assert WellPlaced(t, x) && WellPlaced(t, y);
    if |py| == depth {
      assert py == t.pages[x].path;
      assert y == x;
    } else {
      var c := py[depth];
      PathPrefix(t, y, depth + 1);
      var pc := t.pages[c].path;
      assert pc == py[..depth + 1];
      assert pc[depth - 1] == t.pages[x].path[depth - 1] == x;
      assert Parent(t.pages[c]) == Some(x);
      assert c in NextLevel(t, level);
    }
  }

  /** When the generation scan finds nothing, no page below the starting
      generation answers to the link. */
  lemma {:induction false} SearchLevelsComplete(t: WikiTree, level: seq<Id>, depth: nat, title: string, ext: string)
    requires Valid(t) && AtDepth(t, level, depth)
    ensures SearchLevels(t, level, depth, title, ext).None? ==>
      forall y: Id :: y < |t.pages| && UnderLevel(t, y, level, depth) ==> !IsLinkMatch(t.pages[y], title, ext)
    decreases |t.pages| + 1 - depth
  {
    if level != [] && SearchLevels(t, level, depth, title, ext).None? {
      assert FirstMatch(t, level, title, ext).None?;
      SearchLevelsStep(t, level, depth, title, ext);
      SearchLevelsComplete(t, NextLevel(t, level), depth + 1, title, ext);
      forall y: Id | y < |t.pages| && UnderLevel(t, y, level, depth)
        ensures !IsLinkMatch(t.pages[y], title, ext)
      {
        UnderNextLevel(t, y, level, depth);
      }
    }
  }

  /** The generation scan returns a match as close to the starting
      generation as any other: none lies in fewer generations. */
  lemma {:induction false} SearchLevelsNearest(t: WikiTree, level: seq<Id>, depth: nat, title: string, ext: string, y: Id)
    requires Valid(t) && AtDepth(t, level, depth)
    requires y < |t.pages| && UnderLevel(t, y, level, depth) && IsLinkMatch(t.pages[y], title, ext)
    ensures var r := SearchLevels(t, level, depth, title, ext);
      r.Some? && r.value < |t.pages| && |t.pages[r.value].path| <= |t.pages[y].path|
    decreases |t.pages| + 1 - depth
  {
    SearchLevelsComplete(t, level, depth, title, ext);
    SearchLevelsSound(t, level, depth, title, ext);
    match FirstMatch(t, level, title, ext)
    case Some(x) =>
    case None =>
      SearchLevelsStep(t, level, depth, title, ext);
      UnderNextLevel(t, y, level, depth);
      SearchLevelsNearest(t, NextLevel(t, level), depth + 1, title, ext, y);
  }

  /** The children of `x` are the generation just below it: a page lies
      strictly below `x` exactly when it lies under one of its children. */
  lemma UnderChildren(t: WikiTree, x: Id, y: Id)
    requires Valid(t) && x < |t.pages| && y < |t.pages|
    ensures StrictlyBelow(t, y, x) <==> UnderLevel(t, y, Children(t, x), |t.pages[x].path| + 1)
  {
    var px, py := t.pages[x].path, t.pages[y].path;
    var depth := |px| + 1;
    assert WellPlaced(t, x);
    if StrictlyBelow(t, y, x) {
      var c := py[|px|];
      PathPrefix(t, y, depth);
      assert t.pages[c].path == py[..depth];
      assert t.pages[c].path[|px| - 1] == px[|px| - 1] == x;
      assert c in Children(t, x);
    }
    if UnderLevel(t, y, Children(t, x), depth) {
      var c: Id :| c in Children(t, x) && c < |t.pages| && py[..depth] == t.pages[c].path;
      ChildPath(t, c, x);
      assert py[..|px|] == t.pages[c].path[..|px|];
    }
  }

  /** Whatever `find_link_target` returns answers to the link by file name
      or by title, and is never the root. */
  lemma {:induction false} FindLinkTargetSound(t: WikiTree, title: string, ext: string, from: Id)
    requires Valid(t) && from < |t.pages|
    ensures var r := FindLinkTarget(t, title, ext, from);
      r.Some? ==> 0 < r.value < |t.pages| && IsLinkMatch(t.pages[r.value], title, ext)
    decreases from
  {
    var depth := |t.pages[from].path| + 1;
    ChildrenDepth(t, from);
    SearchLevelsSound(t, Children(t, from), depth, title, ext);
    var found := SearchLevels(t, Children(t, from), depth, title, ext);
    if found.Some? {
      UnderChildren(t, from, found.value);
      RootPath(t, found.value);
      RootPath(t, from);
    } else {
      match GetParent(t, t.pages[from])
      case None =>
      case Some(p) =>
        assert WellPlaced(t, from);
        FindLinkTargetSound(t, title, ext, p);
    }
  }

  /** A match inside the subtree of `from` wins over anything outside it:
      the result then lies strictly below `from`, in as few generations as
      any matching page there. */
  lemma FindLinkTargetNearest(t: WikiTree, title: string, ext: string, from: Id, y: Id)
    requires Valid(t) && from < |t.pages| && y < |t.pages|
    requires StrictlyBelow(t, y, from) && IsLinkMatch(t.pages[y], title, ext)
    ensures var r := FindLinkTarget(t, title, ext, from);
      && r.Some? && r.value < |t.pages|
      && StrictlyBelow(t, r.value, from)
      && |t.pages[r.value].path| <= |t.pages[y].path|
  {
    var depth := |t.pages[from].path| + 1;
    ChildrenDepth(t, from);
    UnderChildren(t, from, y);
    SearchLevelsNearest(t, Children(t, from), depth, title, ext, y);
    SearchLevelsSound(t, Children(t, from), depth, title, ext);
    var found := SearchLevels(t, Children(t, from), depth, title, ext);
    UnderChildren(t, from, found.value);
  }

  /** `find_link_target` gives up only when no page but the root answers to
      the link: the climb ends at the root, whose subtree is every page. */
  lemma {:induction false} FindLinkTargetComplete(t: WikiTree, title: string, ext: string, from: Id)
    requires Valid(t) && from < |t.pages|
    ensures FindLinkTarget(t, title, ext, from).None? ==>
      forall y: Id :: 0 < y < |t.pages| ==> !IsLinkMatch(t.pages[y], title, ext)
    decreases from
  {
    if FindLinkTarget(t, title, ext, from).None? {
      var depth := |t.pages[from].path| + 1;
      ChildrenDepth(t, from);
      SearchLevelsComplete(t, Children(t, from), depth, title, ext);
      assert WellPlaced(t, from);
      match GetParent(t, t.pages[from])
      case None =>
        RootPath(t, from);
        forall y: Id | 0 < y < |t.pages|
          ensures !IsLinkMatch(t.pages[y], title, ext)
        {
          RootPath(t, y);
          assert WellPlaced(t, y);
          assert t.pages[y].path[..1] == [ROOT];
          UnderChildren(t, from, y);
        }
      case Some(p) =>
        FindLinkTargetComplete(t, title, ext, p);
    }
  }

  // ---------------------------------------------------------------------
  // The arena of the program's link-resolution test (wiki.rs): a directory
  // (the test calls it "rootdir") holding the document "file.html" titled
  // "File" and a directory ("childdir"), which later gains its own
  // "file.html". Each step is one `add` call. The directory names are
  // parameters: any name that has no '/' and whose length differs from both
  // "File" and "file.file.html" behaves like the test's names.

  /** A directory name that can never answer to the link "File" / "file.html". */
  predicate QuietDirName(name: string) {
    '/' !in name && |name| != 4 && |name| != 14
  }

  /** The root with the directory `a` (id 1) under it. */
  function RootdirArena(a: string): (r: WikiTree)
    requires QuietDirName(a)
    ensures Valid(r) && |r.pages| == 2
    ensures r.pages[0].path == [0] && r.pages[0].title == "Index" && r.pages[0].url == ""
    ensures r.pages[1].path == [0, 1] && |r.pages[1].title| == |a| && Filename(r.pages[1]) == a
  {
    var title := Capitalise(Replace(a, "-", " "));
    AddValid(New(), Directory, ROOT, a, title);
    AddFilename(New(), Directory, ROOT, a, title);
    ReplaceSingleChar(a, '-', ' ');
    AddDir(New(), ROOT, a).0
  }

  /** ... then the document "file.html" titled "File" (id 2) in `a`. */
  function FileArena(a: string): (r: WikiTree)
    requires QuietDirName(a)
    ensures Valid(r) && |r.pages| == 3 && r.pages[..2] == RootdirArena(a).pages
    ensures r.pages[2].path == [0, 1, 2] && r.pages[2].title == "File"
  {
    AddValid(RootdirArena(a), Document(Doc([])), 1, "file.html", "File");
    AddDoc(RootdirArena(a), 1, "file.html", "File", Doc([])).0
  }

  /** ... then the directory `b` (id 3) in `a`. */
  function ChilddirArena(a: string, b: string): (r: WikiTree)
    requires QuietDirName(a) && QuietDirName(b)
    ensures Valid(r) && |r.pages| == 4 && r.pages[..3] == FileArena(a).pages
    ensures r.pages[3].path == [0, 1, 3] && |r.pages[3].title| == |b| && Filename(r.pages[3]) == b
  {
    var title := Capitalise(Replace(b, "-", " "));
    AddValid(FileArena(a), Directory, 1, b, title);
    AddFilename(FileArena(a), Directory, 1, b, title);
    ReplaceSingleChar(b, '-', ' ');
    AddDir(FileArena(a), 1, b).0
  }

  /** ... and finally a second "file.html" titled "File" (id 4) in `b`. */
  function ChildFileArena(a: string, b: string): (r: WikiTree)
    requires QuietDirName(a) && QuietDirName(b)
    ensures Valid(r) && |r.pages| == 5 && r.pages[..4] == ChilddirArena(a, b).pages
    ensures r.pages[4].path == [0, 1, 3, 4] && r.pages[4].title == "File"
  {
    AddValid(ChilddirArena(a, b), Document(Doc([])), 3, "file.html", "File");
    AddDoc(ChilddirArena(a, b), 3, "file.html", "File", Doc([])).0
  }

  /** A page whose title and file name both differ in length from the link's
      never answers to the link "File" / "file.html". */
  lemma OtherLengthNoMatch(p: Page)
    requires |p.title| != 4 && |Filename(p)| != 14
    ensures !IsLinkMatch(p, "File", "file.html")
  {
  }

  /** In the final arena exactly the two documents titled "File" answer to
      the link; the root and both directories do not. */
  lemma ExampleMatches(a: string, b: string, i: Id)
    requires QuietDirName(a) && QuietDirName(b) && i < 5
    ensures IsLinkMatch(ChildFileArena(a, b).pages[i], "File", "file.html") <==> i == 2 || i == 4
  {
    var t := ChildFileArena(a, b);
    var t3 := ChilddirArena(a, b);
    var t2 := FileArena(a);
    if i < 4 {
      assert t.pages[i] == t3.pages[i] by { assert t.pages[..4][i] == t.pages[i]; }
    }
    if i < 3 {
      assert t3.pages[i] == t2.pages[i] by { assert t3.pages[..3][i] == t3.pages[i]; }
    }
    if i < 2 {
      assert t2.pages[i] == RootdirArena(a).pages[i] by { assert t2.pages[..2][i] == t2.pages[i]; }
    }
    if i == 2 || i == 4 {
      assert t.pages[i].title == "File";
      assert EqIgnoreAsciiCase(t.pages[i].title, "File");
    } else {
      assert i == 0 ==> Filename(t.pages[i]) == [];
      OtherLengthNoMatch(t.pages[i]);
    }
  }

  /** Before `b` has a document, the link resolves to `a`'s document both
      from `a` and from `b`. */
  lemma LinkExampleBeforeChildDoc(a: string, b: string)
    requires QuietDirName(a) && QuietDirName(b)
    ensures FindLinkTarget(ChilddirArena(a, b), "File", "file.html", 1) == Some(2)
    ensures FindLinkTarget(ChilddirArena(a, b), "File", "file.html", 3) == Some(2)
  {
    var t := ChilddirArena(a, b);
    var big := ChildFileArena(a, b);
    forall i: Id | i < 4
      ensures IsLinkMatch(t.pages[i], "File", "file.html") <==> i == 2
    {
      ExampleMatches(a, b, i);
      assert big.pages[..4][i] == big.pages[i];
    }
    assert t.pages[2].path == [0, 1, 2] by {
      assert t.pages[..3][2] == t.pages[2];
    }
    FindLinkTargetSound(t, "File", "file.html", 1);
    FindLinkTargetSound(t, "File", "file.html", 3);
    FindLinkTargetComplete(t, "File", "file.html", 3);
    FindLinkTargetNearest(t, "File", "file.html", 1, 2);
  }

  /** The link matches in the final arena, for every page. */
  lemma ExampleMatchesAll(a: string, b: string)
    requires QuietDirName(a) && QuietDirName(b)
    ensures forall i: Id :: i < 5 ==>
      (IsLinkMatch(ChildFileArena(a, b).pages[i], "File", "file.html") <==> i == 2 || i == 4)
  {
    forall i: Id | i < 5
      ensures IsLinkMatch(ChildFileArena(a, b).pages[i], "File", "file.html") <==> i == 2 || i == 4
    {
      ExampleMatches(a, b, i);
    }
  }

  /** Once `b` has its own document, the link still resolves to `a`'s
      document from `a`: it is nearer than the one in `b`. */
  lemma LinkExampleAfterFromRootdir(a: string, b: string)
    requires QuietDirName(a) && QuietDirName(b)
    ensures FindLinkTarget(ChildFileArena(a, b), "File", "file.html", 1) == Some(2)
  {
    var t := ChildFileArena(a, b);
    ExampleMatchesAll(a, b);
    assert t.pages[2].path == [0, 1, 2] by {
      var t3 := ChilddirArena(a, b);
      assert t.pages[..4][2] == t.pages[2];
      assert t3.pages[..3][2] == t3.pages[2];
    }
    FindLinkTargetNearest(t, "File", "file.html", 1, 2);
  }

  /** ... but from `b` it resolves to the new document, since `b`'s subtree
      is searched before climbing to `a`. */
  lemma LinkExampleAfterFromChilddir(a: string, b: string)
    requires QuietDirName(a) && QuietDirName(b)
    ensures FindLinkTarget(ChildFileArena(a, b), "File", "file.html", 3) == Some(4)
  {
    var t := ChildFileArena(a, b);
    ExampleMatchesAll(a, b);
    assert t.pages[2].path == [0, 1, 2] && t.pages[3].path == [0, 1, 3] by {
      var t3 := ChilddirArena(a, b);
      assert t.pages[..4][2] == t.pages[2];
      assert t.pages[..4][3] == t.pages[3];
      assert t3.pages[..3][2] == t3.pages[2];
    }
    FindLinkTargetNearest(t, "File", "file.html", 3, 4);
  }

  /** The program's test itself, with its directory names. */
  lemma LinkExampleTest()
    ensures FindLinkTarget(ChilddirArena("rootdir", "childdir"), "File", "file.html", 1) == Some(2)
    ensures FindLinkTarget(ChilddirArena("rootdir", "childdir"), "File", "file.html", 3) == Some(2)
    ensures FindLinkTarget(ChildFileArena("rootdir", "childdir"), "File", "file.html", 1) == Some(2)
    ensures FindLinkTarget(ChildFileArena("rootdir", "childdir"), "File", "file.html", 3) == Some(4)
  {
    LinkExampleBeforeChildDoc("rootdir", "childdir");
    LinkExampleAfterFromRootdir("rootdir", "childdir");
    LinkExampleAfterFromChilddir("rootdir", "childdir");
  }
}
