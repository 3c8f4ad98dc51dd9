/**
  Which nodes a password-protected node takes with it (`handle_encryption_section`
  in src/render/html.rs). A tagged node that is not a heading is encrypted
  on its own. A tagged heading takes the nodes after it up to, and not
  including, the next heading of the same level (or to the end), and the
  render loop then skips the nodes it took.

  The program slices the section one node short: it finds the next heading
  within `nodes[1..]` and uses that position to cut `nodes`. The node just
  before the next heading (or the last node) is then skipped by the loop
  but is not in the section, so it is neither shown nor encrypted.
  `SectionAsWritten` is the program's arithmetic; `SectionOf` is the
  corrected one, which the renderer uses.
*/
module Sections {
  import opened Strings
  import opened Model

  /** What an encrypted node stands for: the nodes it encrypts, and how many
      of the following nodes the loop skips. */
  datatype Section = Section(skip: nat, nodes: seq<Node>)

  predicate IsHeadingOfLevel(n: Node, level: nat) {
    n.el.Heading? && n.el.level == level
  }

  /** The position of the first heading of `level` in `rest`. */
  function NextHeading(rest: seq<Node>, level: nat): (r: Option<nat>)
    ensures r.Some? ==> r.value < |rest| && IsHeadingOfLevel(rest[r.value], level)
    ensures r.Some? ==> forall j :: 0 <= j < r.value ==> !IsHeadingOfLevel(rest[j], level)
    ensures r.None? ==> forall j :: 0 <= j < |rest| ==> !IsHeadingOfLevel(rest[j], level)
  {
    if rest == [] then None
    else if IsHeadingOfLevel(rest[0], level) then Some(0)
    else
      match NextHeading(rest[1..], level)
      case Some(k) =>
        assert forall j :: 1 <= j < k + 1 ==> rest[j] == rest[1..][j - 1];
        Some(k + 1)
      case None =>
        assert forall j :: 1 <= j < |rest| ==> rest[j] == rest[1..][j - 1];
        None
  }

  /** The skip count: the position of the next same-level heading within
      `nodes[1..]`, or `|nodes| - 1` when there is none; 0 for a node that is
      not a heading. */
  function SkipCount(nodes: seq<Node>): (r: nat)
    requires nodes != []
    ensures r < |nodes|
  {
    if nodes[0].el.Heading? then
      match NextHeading(nodes[1..], nodes[0].el.level)
      case Some(k) => k
      case None => |nodes| - 1
    else 0
  }

  /** The section as the program cuts it: `nodes[..idx]` for a heading. */
  function SectionAsWritten(nodes: seq<Node>): (r: Section)
    requires nodes != []
    ensures r.skip == SkipCount(nodes)
    ensures nodes[0].el.Heading? ==> r.nodes == nodes[..r.skip]
    ensures !nodes[0].el.Heading? ==> r == Section(0, [nodes[0]])
  {
    var idx := SkipCount(nodes);
    if nodes[0].el.Heading? then Section(idx, nodes[..idx]) else Section(0, nodes[..1])
  }

  /** The corrected section: the heading and the `skip` nodes after it. */
  function SectionOf(nodes: seq<Node>): (r: Section)
    requires nodes != []
    ensures r.skip < |nodes| && r.nodes == nodes[..r.skip + 1]
    ensures !nodes[0].el.Heading? ==> r.skip == 0
  {
    var idx := SkipCount(nodes);
    Section(idx, nodes[..idx + 1])
  }

  /** A heading's section runs to the next heading of its level: none inside
      it after the heading itself, and the first node after it (if any) is
      one. */
  lemma SectionOfHeading(nodes: seq<Node>)
    requires nodes != [] && nodes[0].el.Heading?
    ensures var r := SectionOf(nodes);
      && (forall j :: 1 <= j < |r.nodes| ==> !IsHeadingOfLevel(r.nodes[j], nodes[0].el.level))
      && (r.skip + 1 < |nodes| ==> IsHeadingOfLevel(nodes[r.skip + 1], nodes[0].el.level))
  {
    var r := SectionOf(nodes);
    var rest := nodes[1..];
    forall j | 1 <= j < |r.nodes|
      ensures !IsHeadingOfLevel(r.nodes[j], nodes[0].el.level)
    {
      assert r.nodes[j] == rest[j - 1];
    }
    if r.skip + 1 < |nodes| {
      assert nodes[r.skip + 1] == rest[r.skip];
    }
  }

  /** Every node up to the end of the skipped run is in the corrected
      section: the section and the skipped nodes cover the same positions. */
  lemma SectionOfCovers(nodes: seq<Node>, j: nat)
    requires nodes != [] && j <= SectionOf(nodes).skip
    ensures nodes[j] in SectionOf(nodes).nodes
  {
    assert SectionOf(nodes).nodes[j] == nodes[j];
  }

  /** As written, a section holds one node fewer than the heading and the
      nodes the loop skips, so `nodes[skip]` is in neither. */
  lemma SectionAsWrittenDropsOne(nodes: seq<Node>)
    requires nodes != [] && nodes[0].el.Heading?
    ensures var r := SectionAsWritten(nodes);
      |r.nodes| == r.skip && r.skip < |nodes|
  {
  }

  /** The smallest input that shows it: a tagged heading, a paragraph, and
      the next heading of the same level. The loop skips the paragraph, and
      the section holds only the heading. */
  lemma SectionAsWrittenExample(h: Node, p: Node, next: Node)
    requires h.el.Heading? && IsHeadingOfLevel(next, h.el.level)
    requires !IsHeadingOfLevel(p, h.el.level)
    ensures SectionAsWritten([h, p, next]) == Section(1, [h])
    ensures SectionOf([h, p, next]) == Section(1, [h, p])
  {
    var nodes := [h, p, next];
    assert nodes[1..] == [p, next];
    assert [p, next][1..] == [next];
    assert NextHeading([next], h.el.level) == Some(0);
    assert NextHeading([p, next], h.el.level) == Some(1);
  }
}
