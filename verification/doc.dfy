/**
  A document: the ordered top-level nodes of one parsed page, with the tag
  list of its first node and a title taken from its first level-1 heading.
*/
module Documents {
  import opened Strings
  import opened Model

  datatype Doc = Doc(nodes: seq<Node>)

  /** `Doc::from`: a document holding exactly the given nodes. */
  function FromNodes(v: seq<Node>): (r: Doc)
    ensures r.nodes == v
  {
    Doc(v)
  }

  /** `tags`: the tags of the first node, or none for an empty document. */
  function Tags(d: Doc): (r: seq<Tag>)
    ensures d.nodes == [] ==> r == []
    ensures d.nodes != [] ==> r == d.nodes[0].tags
  {
    if d.nodes == [] then [] else d.nodes[0].tags
  }

  /** A child list names a title when some child is a Text node. */
  predicate HasTextChild(cs: seq<Node>) {
    exists k :: 0 <= k < |cs| && cs[k].el.Text?
  }

  /** `k` is the position of the first Text child. */
  predicate IsFirstText(cs: seq<Node>, k: int) {
    0 <= k < |cs| && cs[k].el.Text? && forall j :: 0 <= j < k ==> !cs[j].el.Text?
  }

  /** A node that `title_from_heading` accepts: a level-1 heading with a Text child. */
  predicate IsTitleHeading(n: Node) {
    n.el.Heading? && n.el.level == 1 && HasTextChild(n.el.children)
  }

  /** `i` is the position of the first heading `title_from_heading` accepts. */
  predicate IsFirstTitleHeading(nodes: seq<Node>, i: int) {
    0 <= i < |nodes| && IsTitleHeading(nodes[i]) && forall j :: 0 <= j < i ==> !IsTitleHeading(nodes[j])
  }

  /** The text of the first Text child (the inner loop of `title_from_heading`). */
  function FirstText(cs: seq<Node>): (r: Option<string>)
    ensures r.None? <==> !HasTextChild(cs)
    ensures r.Some? ==> exists k :: IsFirstText(cs, k) && cs[k].el.text == r.value
  {
    if cs == [] then None
    else if cs[0].el.Text? then
      assert IsFirstText(cs, 0);
      Some(cs[0].el.text)
    else
      var r := FirstText(cs[1..]);
      assert HasTextChild(cs) ==> HasTextChild(cs[1..]) by {
        if HasTextChild(cs) {
          var k :| 0 <= k < |cs| && cs[k].el.Text?;
          assert cs[1..][k - 1] == cs[k];
        }
      }
      if r.Some? then
        var k :| IsFirstText(cs[1..], k) && cs[1..][k].el.text == r.value;
        assert cs[k + 1] == cs[1..][k];
        assert forall j :: 1 <= j < k + 1 ==> cs[j] == cs[1..][j - 1];
        assert IsFirstText(cs, k + 1);
        r
      else r
  }

  /** The outer loop of `title_from_heading`. */
  function TitleFrom(nodes: seq<Node>): (r: Option<string>)
    ensures r.None? <==> forall i :: 0 <= i < |nodes| ==> !IsTitleHeading(nodes[i])
    ensures r.Some? ==> exists i :: (IsFirstTitleHeading(nodes, i) &&
      Some(r.value) == FirstText(nodes[i].el.children))
  {
    if nodes == [] then None
    else if nodes[0].el.Heading? && nodes[0].el.level == 1 && FirstText(nodes[0].el.children).Some? then
      assert IsFirstTitleHeading(nodes, 0);
      FirstText(nodes[0].el.children)
    else
      var r := TitleFrom(nodes[1..]);
      assert !IsTitleHeading(nodes[0]);
      assert forall i :: 1 <= i < |nodes| ==> nodes[i] == nodes[1..][i - 1];
      if r.Some? then
        var i :| IsFirstTitleHeading(nodes[1..], i) &&
          Some(r.value) == FirstText(nodes[1..][i].el.children);
        assert IsFirstTitleHeading(nodes, i + 1);
        r
      else r
  }

  /** `title_from_heading`: the first Text child of the first level-1 heading
      that has one; None when no level-1 heading has a Text child. Headings
      of other levels never contribute. */
  function TitleFromHeading(d: Doc): (r: Option<string>)
    ensures r.None? <==> forall i :: 0 <= i < |d.nodes| ==> !IsTitleHeading(d.nodes[i])
    ensures r.Some? ==> exists i :: (IsFirstTitleHeading(d.nodes, i) &&
      exists k :: (IsFirstText(d.nodes[i].el.children, k) &&
        d.nodes[i].el.children[k].el == Text(r.value)))
  {
    TitleFrom(d.nodes)
  }

  /** A leading node that is not a titled level-1 heading (for example a
      heading of another level) does not affect the title. */
  lemma {:induction false} TitleSkipsOtherNodes(n: Node, rest: seq<Node>)
    requires !IsTitleHeading(n)
    ensures TitleFromHeading(Doc([n] + rest)) == TitleFromHeading(Doc(rest))
  {
    assert ([n] + rest)[1..] == rest;
  }
}
