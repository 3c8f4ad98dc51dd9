/**
  `add_indexes` (src/main.rs): after the wiki is read, every directory that
  has pages but no index page of its own gets a generated one. The ids of
  the directories are taken before any page is added; each generated page
  is appended under its directory as "index.html", titled like the
  directory, holding `create_index` of the directory and its children.

  The pass only appends, adds at most one page per directory, and leaves
  nothing for a second pass to do.
*/
module Indexes {
  import opened Strings
  import opened Model
  import opened Documents
  import opened Naming
  import opened Wiki
  import opened Nav

  /** Builds a directory's index document from the directory and its
      children; the pass uses `CreateIndex`. */
  type IndexMaker = (Page, seq<Page>) -> Doc

  // ---------------------------------------------------------------------
  // The pass

  /** The ids of the directories among the first `n` pages, in order. */
  function DirectoriesBelow(t: WikiTree, n: nat): (r: seq<Id>)
    requires n <= |t.pages|
    ensures |r| <= n
  {
    if n == 0 then []
    else DirectoriesBelow(t, n - 1) + (if t.pages[n - 1].kind.Directory? then [n - 1] else [])
  }

  lemma {:induction false} DirectoriesBelowAre(t: WikiTree, n: nat)
    requires n <= |t.pages|
    ensures var r := DirectoriesBelow(t, n);
      && (forall d: Id :: d in r <==> d < n && t.pages[d].kind.Directory?)
      && (forall a, b :: 0 <= a < b < |r| ==> r[a] < r[b])
      && (forall a :: 0 <= a < |r| ==> r[a] < n)
  {
    if n > 0 {
      DirectoriesBelowAre(t, n - 1);
      var r := DirectoriesBelow(t, n - 1);
      assert forall a :: 0 <= a < |r| ==> r[a] in r;
      if !t.pages[n - 1].kind.Directory? {
        assert DirectoriesBelow(t, n) == r;
      }
    }
  }

  /** The snapshot of directory ids taken before the loop: every directory,
      in id order. */
  function Directories(t: WikiTree): (r: seq<Id>)
    ensures forall d: Id :: d in r <==> d < |t.pages| && t.pages[d].kind.Directory?
    ensures forall a, b :: 0 <= a < b < |r| ==> r[a] < r[b]
    ensures forall a :: 0 <= a < |r| ==> r[a] < |t.pages|
  {
    DirectoriesBelowAre(t, |t.pages|);
    DirectoriesBelow(t, |t.pages|)
  }

  /** `children` as the pass reads it: the pages among the first `n` whose
      parent is `d`, in id order. */
  function ChildPagesBelow(t: WikiTree, d: Id, n: nat): (r: seq<Page>)
    requires n <= |t.pages|
    ensures |r| <= n
  {
    if n == 0 then []
    else ChildPagesBelow(t, d, n - 1) + (if Parent(t.pages[n - 1]) == Some(d) then [t.pages[n - 1]] else [])
  }

  function ChildPages(t: WikiTree, d: Id): seq<Page> {
    ChildPagesBelow(t, d, |t.pages|)
  }

  /** The directory has children and none of them is an index page. */
  predicate NeedsIndex(t: WikiTree, d: Id) {
    var cs := ChildPages(t, d);
    cs != [] && forall i :: 0 <= i < |cs| ==> !cs[i].kind.Index?
  }

  /** The generated index of directory `d`. */
  function IndexDoc(t: WikiTree, d: Id, make: IndexMaker): Doc
    requires d < |t.pages|
  {
    make(t.pages[d], ChildPages(t, d))
  }

  /** One turn of the loop: the index page is added when `d` needs one. */
  function IndexStep(t: WikiTree, d: Id, make: IndexMaker): (r: WikiTree)
    requires t.pages != [] && d < |t.pages|
    ensures |t.pages| <= |r.pages| <= |t.pages| + 1 && r.pages[..|t.pages|] == t.pages
  {
    if NeedsIndex(t, d) then AddIndex(t, d, INDEX_FILE, t.pages[d].title, IndexDoc(t, d, make)).0
    else t
  }

  function AddIndexesLoop(t: WikiTree, dirs: seq<Id>, make: IndexMaker): (r: WikiTree)
    requires t.pages != [] && AllPages(t, dirs)
    ensures |t.pages| <= |r.pages|
    decreases |dirs|
  {
    if dirs == [] then t
    else
      assert dirs[0] in dirs;
      assert forall x :: x in dirs[1..] ==> x in dirs;
      AddIndexesLoop(IndexStep(t, dirs[0], make), dirs[1..], make)
  }

  /** The loop keeps the arena invariant. */
  lemma {:induction false} LoopValid(t: WikiTree, dirs: seq<Id>, make: IndexMaker)
    requires Valid(t) && AllPages(t, dirs)
    ensures Valid(AddIndexesLoop(t, dirs, make))
    decreases |dirs|
  {
    if dirs != [] {
      var d := dirs[0];
      assert d in dirs;
      if NeedsIndex(t, d) {
        AddValid(t, Index(IndexDoc(t, d, make)), d, INDEX_FILE, t.pages[d].title);
      }
      assert forall x :: x in dirs[1..] ==> x in dirs;
      LoopValid(IndexStep(t, d, make), dirs[1..], make);
    }
  }

  /** The pass, with the given builder of index documents. */
  function AddIndexesWith(t: WikiTree, make: IndexMaker): (r: WikiTree)
    requires Valid(t)
    ensures Valid(r)
  {
    LoopValid(t, Directories(t), make);
    AddIndexesLoop(t, Directories(t), make)
  }

  /** `add_indexes`: the pass with `create_index`. */
  function AddIndexes(t: WikiTree): (r: WikiTree)
    requires Valid(t)
    ensures Valid(r)
  {
    AddIndexesWith(t, CreateIndex)
  }

  // ---------------------------------------------------------------------
  // Children, as ids and as pages

  /** The pages with the given ids, in order. */
  function PagesOf(t: WikiTree, ids: seq<Id>): (r: seq<Page>)
    requires forall i :: 0 <= i < |ids| ==> ids[i] < |t.pages|
    ensures |r| == |ids| && forall i :: 0 <= i < |ids| ==> r[i] == t.pages[ids[i]]
  {
    seq(|ids|, i requires 0 <= i < |ids| => t.pages[ids[i]])
  }

  lemma {:induction false} ChildPagesBelowAre(t: WikiTree, d: Id, n: nat)
    requires n <= |t.pages|
    ensures ChildPagesBelow(t, d, n) == PagesOf(t, ChildrenBelow(t, d, n))
  {
    if n > 0 {
      ChildPagesBelowAre(t, d, n - 1);
      var ids := ChildrenBelow(t, d, n - 1);
      if Parent(t.pages[n - 1]) == Some(d) {
        assert ChildrenBelow(t, d, n) == ids + [n - 1];
        assert PagesOf(t, ids + [n - 1]) == PagesOf(t, ids) + [t.pages[n - 1]];
      }
    }
  }

  /** The child pages the pass reads are the pages of `children`. */
  lemma ChildPagesAre(t: WikiTree, d: Id)
    ensures ChildPages(t, d) == PagesOf(t, Children(t, d))
  {
    ChildPagesBelowAre(t, d, |t.pages|);
  }

  /** Every page under `d` is among its child pages. */
  lemma {:induction false} ChildPageIn(t: WikiTree, d: Id, n: nat, c: Id)
    requires c < n <= |t.pages| && Parent(t.pages[c]) == Some(d)
    ensures t.pages[c] in ChildPagesBelow(t, d, n)
  {
    if c < n - 1 {
      ChildPageIn(t, d, n - 1, c);
    }
  }

  /** Pages appended under other parents do not change a page's children. */
  lemma {:induction false} ChildPagesBelowKept(t0: WikiTree, t: WikiTree, d: Id, n: nat)
    requires Extends(t0, t) && n <= |t.pages|
    requires forall k :: |t0.pages| <= k < |t.pages| ==> Parent(t.pages[k]) != Some(d)
    ensures ChildPagesBelow(t, d, n) == ChildPagesBelow(t0, d, if n <= |t0.pages| then n else |t0.pages|)
  {
    if n > 0 {
      ChildPagesBelowKept(t0, t, d, n - 1);
      if n <= |t0.pages| {
        assert t.pages[n - 1] == t.pages[..|t0.pages|][n - 1];
      }
    }
  }

  lemma ChildPagesKept(t0: WikiTree, t: WikiTree, d: Id)
    requires Extends(t0, t)
    requires forall k :: |t0.pages| <= k < |t.pages| ==> Parent(t.pages[k]) != Some(d)
    ensures ChildPages(t, d) == ChildPages(t0, d)
  {
    ChildPagesBelowKept(t0, t, d, |t.pages|);
  }

  // ---------------------------------------------------------------------
  // What the pass adds, stated on the tree it starts from

  predicate Increasing(s: seq<Id>) {
    forall a, b :: 0 <= a < b < |s| ==> s[a] < s[b]
  }

  /** Every id in `s` is below `n`. */
  predicate Below(s: seq<Id>, n: nat) {
    forall i :: 0 <= i < |s| ==> s[i] < n
  }

  /** The directories of `dirs` that need an index in `t`, in order. */
  function Planned(t: WikiTree, dirs: seq<Id>): (r: seq<Id>)
    ensures |r| <= |dirs|
  {
    if dirs == [] then []
    else (if NeedsIndex(t, dirs[0]) then [dirs[0]] else []) + Planned(t, dirs[1..])
  }

  /** A directory is planned exactly when it is listed and needs an index. */
  lemma {:induction false} PlannedMember(t: WikiTree, dirs: seq<Id>, d: Id)
    ensures d in Planned(t, dirs) <==> d in dirs && NeedsIndex(t, d)
  {
    if dirs != [] {
      PlannedMember(t, dirs[1..], d);
      assert dirs == [dirs[0]] + dirs[1..];
    }
  }

  lemma {:induction false} PlannedBelow(t: WikiTree, dirs: seq<Id>, n: nat)
    requires Below(dirs, n)
    ensures Below(Planned(t, dirs), n)
  {
    if dirs != [] {
      assert Below(dirs[1..], n) by {
        forall i | 0 <= i < |dirs| - 1
          ensures dirs[1..][i] < n
        {
          assert dirs[1..][i] == dirs[i + 1];
        }
      }
      PlannedBelow(t, dirs[1..], n);
      var rest := Planned(t, dirs[1..]);
      if NeedsIndex(t, dirs[0]) {
        assert Planned(t, dirs) == [dirs[0]] + rest;
      } else {
        assert Planned(t, dirs) == rest;
      }
    }
  }

  /** A subsequence of an increasing sequence is increasing, and starts no
      lower than the sequence does. */
  lemma {:induction false} PlannedIncreasing(t: WikiTree, dirs: seq<Id>)
    requires Increasing(dirs)
    ensures Increasing(Planned(t, dirs))
    ensures dirs != [] ==> forall i :: 0 <= i < |Planned(t, dirs)| ==> dirs[0] <= Planned(t, dirs)[i]
  {
    if dirs != [] {
      var rest := Planned(t, dirs[1..]);
      if |dirs| > 1 {
        PlannedIncreasing(t, dirs[1..]);
        assert dirs[0] < dirs[1..][0];
      }
      var r := Planned(t, dirs);
      if NeedsIndex(t, dirs[0]) {
        assert r == [dirs[0]] + rest;
      } else {
        assert r == rest;
      }
    }
  }

  /** The index page generated for directory `d` of `t`, with id `id`. */
  function IndexPage(t: WikiTree, d: Id, id: Id, make: IndexMaker): Page
    requires d < |t.pages|
  {
    Page(Index(IndexDoc(t, d, make)), t.pages[d].path + [id], t.pages[d].title, t.pages[d].url + "/" + INDEX_FILE)
  }

  /** The index pages for `plan`, numbered from `base`. */
  function NewPages(t: WikiTree, plan: seq<Id>, base: nat, make: IndexMaker): (r: seq<Page>)
    requires Below(plan, |t.pages|)
    ensures |r| == |plan|
  {
    if plan == [] then []
    else
      assert Below(plan[1..], |t.pages|) by {
        forall i | 0 <= i < |plan| - 1
          ensures plan[1..][i] < |t.pages|
        {
          assert plan[1..][i] == plan[i + 1];
        }
      }
      [IndexPage(t, plan[0], base, make)] + NewPages(t, plan[1..], base + 1, make)
  }

  /** The `j`-th new page is the index page of the `j`-th planned directory. */
  lemma {:induction false} NewPagesAt(t: WikiTree, plan: seq<Id>, base: nat, make: IndexMaker, j: nat)
    requires Below(plan, |t.pages|) && j < |plan|
    ensures plan[j] < |t.pages| && NewPages(t, plan, base, make)[j] == IndexPage(t, plan[j], base + j, make)
  {
    if j > 0 {
      assert Below(plan[1..], |t.pages|) by {
        forall i | 0 <= i < |plan| - 1
          ensures plan[1..][i] < |t.pages|
        {
          assert plan[1..][i] == plan[i + 1];
        }
      }
      NewPagesAt(t, plan[1..], base + 1, make, j - 1);
    }
  }

  /** `t` with pages appended after the pages of `t0`. */
  predicate Extends(t0: WikiTree, t: WikiTree) {
    |t0.pages| <= |t.pages| && t.pages[..|t0.pages|] == t0.pages
  }

  /** The ids in `dirs` are pages of `t0` whose paths end in their ids. */
  predicate PagesEndAt(t0: WikiTree, dirs: seq<Id>) {
    forall i :: 0 <= i < |dirs| ==>
      && dirs[i] < |t0.pages|
      && |t0.pages[dirs[i]].path| > 0
      && t0.pages[dirs[i]].path[|t0.pages[dirs[i]].path| - 1] == dirs[i]
  }

  /** The pages after those of `t0` hang under directories not in `dirs`. */
  predicate HangElsewhere(t0: WikiTree, t: WikiTree, dirs: seq<Id>)
    requires |t0.pages| <= |t.pages|
  {
    forall k :: |t0.pages| <= k < |t.pages| ==> Parent(t.pages[k]).Some? && Parent(t.pages[k]).value !in dirs
  }

  /** The turn for a directory whose children are those it had in `t0`. */
  lemma StepKept(t0: WikiTree, t: WikiTree, d: Id, make: IndexMaker)
    requires t0.pages != [] && Extends(t0, t) && d < |t0.pages|
    requires forall k :: |t0.pages| <= k < |t.pages| ==> Parent(t.pages[k]) != Some(d)
    ensures NeedsIndex(t, d) <==> NeedsIndex(t0, d)
    ensures NeedsIndex(t0, d) ==> IndexStep(t, d, make).pages == t.pages + [IndexPage(t0, d, |t.pages|, make)]
    ensures !NeedsIndex(t0, d) ==> IndexStep(t, d, make) == t
  {
    ChildPagesKept(t0, t, d);
    assert t.pages[d] == t.pages[..|t0.pages|][d];
  }

  /** The turn of the loop for the first directory, seen from `t0`. */
  lemma StepHangs(t0: WikiTree, t: WikiTree, dirs: seq<Id>, make: IndexMaker)
    requires t0.pages != [] && Extends(t0, t) && dirs != [] && PagesEndAt(t0, dirs) && Increasing(dirs)
    requires HangElsewhere(t0, t, dirs)
    ensures dirs[0] < |t0.pages|
    ensures var t1 := IndexStep(t, dirs[0], make);
      && Extends(t0, t1) && HangElsewhere(t0, t1, dirs[1..])
      && (NeedsIndex(t0, dirs[0]) ==> t1.pages == t.pages + [IndexPage(t0, dirs[0], |t.pages|, make)])
      && (!NeedsIndex(t0, dirs[0]) ==> t1 == t)
  {
    var d := dirs[0];
    assert d in dirs;
    StepKept(t0, t, d, make);
    var t1 := IndexStep(t, d, make);
    forall i | 0 <= i < |dirs| - 1
      ensures dirs[1..][i] != d
    {
      assert dirs[1..][i] == dirs[i + 1];
    }
    assert d !in dirs[1..];
    assert forall x :: x in dirs[1..] ==> x in dirs;
    if NeedsIndex(t0, d) {
      assert Parent(IndexPage(t0, d, |t.pages|, make)) == Some(d);
      assert t1.pages[..|t0.pages|] == t.pages[..|t0.pages|];
      forall k | |t0.pages| <= k < |t1.pages|
        ensures Parent(t1.pages[k]).Some? && Parent(t1.pages[k]).value !in dirs[1..]
      {
        if k < |t.pages| {
          assert t1.pages[k] == t.pages[k];
        }
      }
    }
  }

  /** The loop adds, in order, one index page per planned directory. The
      pages added so far hang under directories that are not left to do. */
  lemma {:induction false} LoopAppends(t0: WikiTree, t: WikiTree, dirs: seq<Id>, base: nat, make: IndexMaker)
    requires t0.pages != [] && Extends(t0, t) && PagesEndAt(t0, dirs) && Increasing(dirs)
    requires HangElsewhere(t0, t, dirs) && base == |t.pages|
    ensures AllPages(t, dirs) && Below(Planned(t0, dirs), |t0.pages|)
    ensures AddIndexesLoop(t, dirs, make).pages == t.pages + NewPages(t0, Planned(t0, dirs), base, make)
    decreases |dirs|
  {
    assert Below(dirs, |t0.pages|);
    PlannedBelow(t0, dirs, |t0.pages|);
    if dirs != [] {
      var d := dirs[0];
      StepHangs(t0, t, dirs, make);
      var t1 := IndexStep(t, d, make);
      DropFirst(t0, dirs);
      PlannedUnfold(t0, dirs);
      if NeedsIndex(t0, d) {
        LoopAppends(t0, t1, dirs[1..], base + 1, make);
        PlanNeeded(t0, t.pages, base, d, Planned(t0, dirs[1..]), AddIndexesLoop(t1, dirs[1..], make).pages, make);
      } else {
        LoopAppends(t0, t1, dirs[1..], base, make);
      }
    }
  }

  lemma DropFirst(t0: WikiTree, dirs: seq<Id>)
    requires dirs != [] && PagesEndAt(t0, dirs) && Increasing(dirs)
    ensures PagesEndAt(t0, dirs[1..]) && Increasing(dirs[1..])
  {
    forall i | 0 <= i < |dirs| - 1
      ensures dirs[1..][i] == dirs[i + 1]
    {
    }
  }

  lemma PlannedUnfold(t: WikiTree, dirs: seq<Id>)
    requires dirs != []
    ensures NeedsIndex(t, dirs[0]) ==> Planned(t, dirs) == [dirs[0]] + Planned(t, dirs[1..])
    ensures !NeedsIndex(t, dirs[0]) ==> Planned(t, dirs) == Planned(t, dirs[1..])
  {
    if !NeedsIndex(t, dirs[0]) {
      assert [] + Planned(t, dirs[1..]) == Planned(t, dirs[1..]);
    }
  }

  /** The loop's bookkeeping when the first directory gets its page. */
  lemma PlanNeeded(t0: WikiTree, pages: seq<Page>, base: nat, d: Id, rest: seq<Id>, after: seq<Page>, make: IndexMaker)
    requires base == |pages| && d < |t0.pages| && Below(rest, |t0.pages|) && Below([d] + rest, |t0.pages|)
    requires after == (pages + [IndexPage(t0, d, base, make)]) + NewPages(t0, rest, base + 1, make)
    ensures after == pages + NewPages(t0, [d] + rest, base, make)
  {
    var p := IndexPage(t0, d, base, make);
    var tail := NewPages(t0, rest, base + 1, make);
    assert ([d] + rest)[1..] == rest;
    AppendAssociative(pages, [p], tail);
  }

  /** In a valid tree a page's path ends in its own id. */
  lemma PathEndsAt(t: WikiTree, x: Id)
    requires Valid(t) && x < |t.pages|
    ensures |t.pages[x].path| > 0 && t.pages[x].path[|t.pages[x].path| - 1] == x
  {
    assert WellPlaced(t, x);
  }

  /** The directories of a valid tree are increasing, and each one's path
      ends in its id. */
  lemma DirectoriesEndAt(t: WikiTree)
    requires Valid(t)
    ensures PagesEndAt(t, Directories(t)) && Increasing(Directories(t))
  {
    var ds := Directories(t);
    forall i | 0 <= i < |ds|
      ensures ds[i] < |t.pages| && |t.pages[ds[i]].path| > 0
      ensures t.pages[ds[i]].path[|t.pages[ds[i]].path| - 1] == ds[i]
    {
      PathEndsAt(t, ds[i]);
    }
  }

  /** `add_indexes` appends one generated index page per directory that
      needs one, in id order of the directories, and changes nothing else. */
  lemma AddIndexesPages(t: WikiTree, make: IndexMaker)
    requires Valid(t)
    ensures Below(Planned(t, Directories(t)), |t.pages|)
    ensures AddIndexesWith(t, make).pages == t.pages + NewPages(t, Planned(t, Directories(t)), |t.pages|, make)
  {
    DirectoriesEndAt(t);
    assert Extends(t, t);
    LoopAppends(t, t, Directories(t), |t.pages|, make);
  }

  /** A page past `t`'s own in `t`'s pages followed by the new pages. */
  lemma AppendedPage(t: WikiTree, plan: seq<Id>, pages: seq<Page>, base: nat, k: nat, make: IndexMaker)
    requires Below(plan, |t.pages|) && base == |t.pages|
    requires pages == t.pages + NewPages(t, plan, base, make)
    requires base <= k < |pages|
    ensures |plan| == |pages| - base && plan[k - base] < |t.pages|
    ensures pages[k] == IndexPage(t, plan[k - base], k, make)
  {
    NewPagesAt(t, plan, base, make, k - base);
  }

  /** Page `k` of the result, past the original pages, is the index page of
      the planned directory in the same position. */
  lemma AddedPage(t: WikiTree, k: nat, make: IndexMaker)
    requires Valid(t) && |t.pages| <= k < |AddIndexesWith(t, make).pages|
    ensures var r := AddIndexesWith(t, make);
      var plan := Planned(t, Directories(t));
      && |plan| == |r.pages| - |t.pages|
      && Parent(r.pages[k]) == Some(plan[k - |t.pages|])
      && plan[k - |t.pages|] < |t.pages|
      && t.pages[plan[k - |t.pages|]].kind.Directory?
      && NeedsIndex(t, plan[k - |t.pages|])
      && r.pages[k] == IndexPage(t, plan[k - |t.pages|], k, make)
  {
    var r := AddIndexesWith(t, make);
    var ds := Directories(t);
    var plan := Planned(t, ds);
    AddIndexesPages(t, make);
    AppendedPage(t, plan, r.pages, |t.pages|, k, make);
    var d := plan[k - |t.pages|];
    assert d in plan;
    PlannedMember(t, ds, d);
    PathEndsAt(t, d);
  }

  /** No directory gets two index pages. */
  lemma AddedOncePerDirectory(t: WikiTree, make: IndexMaker)
    requires Valid(t)
    ensures var r := AddIndexesWith(t, make);
      forall k1, k2 :: |t.pages| <= k1 < k2 < |r.pages| ==> Parent(r.pages[k1]) != Parent(r.pages[k2])
  {
    var r := AddIndexesWith(t, make);
    var plan := Planned(t, Directories(t));
    DirectoriesEndAt(t);
    PlannedIncreasing(t, Directories(t));
    forall k1, k2 | |t.pages| <= k1 < k2 < |r.pages|
      ensures Parent(r.pages[k1]) != Parent(r.pages[k2])
    {
      AddedPage(t, k1, make);
      AddedPage(t, k2, make);
      assert plan[k1 - |t.pages|] < plan[k2 - |t.pages|];
    }
  }

  /** A directory gets a page exactly when it needs one. */
  lemma AddedIff(t: WikiTree, d: Id, make: IndexMaker)
    requires Valid(t) && d < |t.pages| && t.pages[d].kind.Directory?
    ensures var r := AddIndexesWith(t, make);
      (exists k :: |t.pages| <= k < |r.pages| && Parent(r.pages[k]) == Some(d)) <==> NeedsIndex(t, d)
  {
    var r := AddIndexesWith(t, make);
    var ds := Directories(t);
    var plan := Planned(t, ds);
    AddIndexesPages(t, make);
    if NeedsIndex(t, d) {
      PlannedMember(t, ds, d);
      var j :| 0 <= j < |plan| && plan[j] == d;
      AddedPage(t, |t.pages| + j, make);
    } else {
      forall k | |t.pages| <= k < |r.pages|
        ensures Parent(r.pages[k]) != Some(d)
      {
        AddedPage(t, k, make);
      }
    }
  }

  // ---------------------------------------------------------------------
  // A second pass adds nothing

  /** Pages that are not directories do not change the directory list. */
  lemma {:induction false} DirectoriesBelowKept(t0: WikiTree, t: WikiTree, n: nat)
    requires Extends(t0, t) && n <= |t.pages|
    requires forall k :: |t0.pages| <= k < |t.pages| ==> !t.pages[k].kind.Directory?
    ensures DirectoriesBelow(t, n) == DirectoriesBelow(t0, if n <= |t0.pages| then n else |t0.pages|)
  {
    if n > 0 {
      DirectoriesBelowKept(t0, t, n - 1);
      if n <= |t0.pages| {
        assert t.pages[n - 1] == t.pages[..|t0.pages|][n - 1];
      }
    }
  }

  /** A directory that received a page has an index among its children. */
  lemma NoneNeededWhenAdded(t: WikiTree, d: Id, k: nat, make: IndexMaker)
    requires Valid(t) && |t.pages| <= k < |AddIndexesWith(t, make).pages| && Parent(AddIndexesWith(t, make).pages[k]) == Some(d)
    ensures !NeedsIndex(AddIndexesWith(t, make), d)
  {
    var r := AddIndexesWith(t, make);
    AddedPage(t, k, make);
    ChildPageIn(r, d, |r.pages|, k);
    var cs := ChildPages(r, d);
    var i :| 0 <= i < |cs| && cs[i] == r.pages[k];
  }

  /** After the pass no directory needs an index. */
  lemma NoneNeeded(t: WikiTree, d: Id, make: IndexMaker)
    requires Valid(t) && d < |t.pages| && t.pages[d].kind.Directory?
    ensures !NeedsIndex(AddIndexesWith(t, make), d)
  {
    var r := AddIndexesWith(t, make);
    AddedIff(t, d, make);
    if NeedsIndex(t, d) {
      var k :| |t.pages| <= k < |r.pages| && Parent(r.pages[k]) == Some(d);
      NoneNeededWhenAdded(t, d, k, make);
    } else {
      AddIndexesPages(t, make);
      assert Extends(t, r);
      ChildPagesKept(t, r, d);
    }
  }

  /** The pass is idempotent, whatever the builder: a second pass finds
      every directory with pages already indexed. */
  lemma IdempotentWith(t: WikiTree, make: IndexMaker)
    requires Valid(t)
    ensures AddIndexesWith(AddIndexesWith(t, make), make) == AddIndexesWith(t, make)
  {
    var r := AddIndexesWith(t, make);
    var plan := Planned(t, Directories(t));
    AddIndexesPages(t, make);
    assert Extends(t, r);
    forall k | |t.pages| <= k < |r.pages|
      ensures !r.pages[k].kind.Directory?
    {
      AddedPage(t, k, make);
    }
    DirectoriesBelowKept(t, r, |r.pages|);
    var ds := Directories(r);
    assert ds == Directories(t);
    assert Planned(r, ds) == [] by {
      var p := Planned(r, ds);
      if p != [] {
        assert p[0] in p;
        PlannedMember(r, ds, p[0]);
        NoneNeeded(t, p[0], make);
      }
    }
    AddIndexesPages(r, make);
    assert NewPages(r, Planned(r, ds), |r.pages|, make) == [];
    assert r.pages + [] == r.pages;
  }

  // ---------------------------------------------------------------------
  // The pass with `create_index`

  /** Each added page is an index page under a directory that needed one:
      its file is "index.html" in the directory's url, its title is the
      directory's, and it holds the directory's generated listing. */
  lemma AddedPages(t: WikiTree)
    requires Valid(t)
    ensures var r := AddIndexes(t);
      && Extends(t, r)
      && forall k :: |t.pages| <= k < |r.pages| ==>
           && Parent(r.pages[k]).Some? && Parent(r.pages[k]).value < |t.pages|
           && var d := Parent(r.pages[k]).value;
              && t.pages[d].kind.Directory? && NeedsIndex(t, d)
              && r.pages[k].kind == Index(CreateIndex(t.pages[d], ChildPages(t, d)))
              && r.pages[k].title == t.pages[d].title
              && r.pages[k].url == t.pages[d].url + "/" + INDEX_FILE
              && r.pages[k].path == t.pages[d].path + [k]
  {
    var r := AddIndexes(t);
    AddIndexesPages(t, CreateIndex);
    forall k | |t.pages| <= k < |r.pages|
      ensures Parent(r.pages[k]).Some? && Parent(r.pages[k]).value < |t.pages|
      ensures var d := Parent(r.pages[k]).value;
        && t.pages[d].kind.Directory? && NeedsIndex(t, d)
        && r.pages[k] == IndexPage(t, d, k, CreateIndex)
    {
      AddedPage(t, k, CreateIndex);
    }
  }

  /** `add_indexes` is idempotent. */
  lemma AddIndexesIdempotent(t: WikiTree)
    requires Valid(t)
    ensures AddIndexes(AddIndexes(t)) == AddIndexes(t)
  {
    IdempotentWith(t, CreateIndex);
  }
}
