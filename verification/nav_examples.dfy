/**
  The navigation tree on two small wikis: a lone empty directory is left
  out of the tree, and a directory whose only child is its index page is
  drawn as that page.
*/
module NavExamples {
  import opened Strings
  import opened Model
  import opened Documents
  import opened Css
  import opened Naming
  import opened Wiki
  import opened Nav

  /** The root and one directory below it. */
  function DirTree(title: string, url: string): (t: WikiTree)
    ensures Valid(t) && |t.pages| == 2
    ensures t.pages[1].kind.Directory? && Parent(t.pages[1]) == Some(ROOT)
  {
    var t := WikiTree([Page(Directory, [ROOT], "Index", ""), Page(Directory, [ROOT, 1], title, url)]);
    assert WellPlaced(t, 0) && WellPlaced(t, 1);
    t
  }

  /** The directory, and an index page inside it. */
  function IndexTree(title: string, url: string, ititle: string, d: Doc): (t: WikiTree)
    ensures Valid(t) && |t.pages| == 3
    ensures t.pages[2].kind == Index(d) && Parent(t.pages[2]) == Some(1)
  {
    var t := WikiTree([Page(Directory, [ROOT], "Index", ""), Page(Directory, [ROOT, 1], title, url),
      Page(Index(d), [ROOT, 1, 2], ititle, url + "/index.html")]);
    assert WellPlaced(t, 0) && WellPlaced(t, 1) && WellPlaced(t, 2);
    t
  }

  /** A directory without pages is not listed, whatever page is viewed. */
  lemma EmptyDirExcluded(title: string, url: string, page: Id)
    requires page < 2
    ensures NavTree(DirTree(title, url), page).el == List([])
  {
    var t := DirTree(title, url);
    DirTreeChildren(title, url);
    EmptyDirectoryPruned(t, 1, page);
    var subs := Subtrees(t, [1], page);
    assert subs == [EmptyNode()];
    assert NonEmpty(subs) == [];
  }

  /** The children of each page of `DirTree`. */
  lemma DirTreeChildren(title: string, url: string)
    ensures var t := DirTree(title, url);
      Children(t, ROOT) == [1] && Children(t, 1) == []
  {
    var t := DirTree(title, url);
    assert ChildrenBelow(t, ROOT, 1) == [];
    assert ChildrenBelow(t, 1, 1) == [];
  }

  /** The children of each page of `IndexTree`. */
  lemma IndexTreeChildren(title: string, url: string, ititle: string, d: Doc)
    ensures var t := IndexTree(title, url, ititle, d);
      Children(t, ROOT) == [1] && Children(t, 1) == [2] && Children(t, 2) == []
  {
    var t := IndexTree(title, url, ititle, d);
    assert t.pages[0].path == [ROOT] && t.pages[1].path == [ROOT, 1];
    assert ChildrenBelow(t, ROOT, 1) == [];
    assert ChildrenBelow(t, ROOT, 2) == [1];
    assert ChildrenBelow(t, 1, 1) == [];
    assert ChildrenBelow(t, 1, 2) == [];
    assert ChildrenBelow(t, 2, 1) == [];
    assert ChildrenBelow(t, 2, 2) == [];
  }

  /** Viewing the index page of the only directory: the directory is drawn
      as a leaf for its index page, the index page's selected link after a
      bullet. */
  lemma IndexReplacesDir(title: string, url: string, ititle: string, d: Doc)
    ensures var t := IndexTree(title, url, ititle, d);
      NavSubtree(t, 1, 2)
        == ItemNode([Bullet(), PageLink(t.pages[2]).WithAttr(CSS_CLASS_ATTR, CSS_CLASS_THIS_PAGE)])
  {
    var t := IndexTree(title, url, ititle, d);
    IndexTreeChildren(title, url, ititle, d);
    IndexOnlyChild(t, 1, 2, 2);
  }
}
