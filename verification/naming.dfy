/**
  Naming helpers shared by the file-system walk, the navigation builder and
  the renderer: title capitalisation, the output file names, and the choice
  of (tag, password) pairs that encrypt a node.
*/
module Naming {
  import opened Strings
  import opened Model

  /** The file name an index page is written to. */
  const INDEX_FILE: string := "index.html"
  /** The extension of every rendered page. */
  const OUTPUT_EXT: string := "html"

  /** Short words that title capitalisation leaves in lower case. */
  predicate IsMinorWord(w: string) {
    w == "a" || w == "and" || w == "at" || w == "is" || w == "of" || w == "to"
  }

  /** `capitalise_word`: upper-case the first character unless the word is
      empty or a minor word. */
  function CapitaliseWord(w: string): (r: string)
    ensures |r| == |w|
    ensures IsMinorWord(w) || w == [] ==> r == w
    ensures !IsMinorWord(w) && w != [] ==> r[0] == ToUpperChar(w[0]) && r[1..] == w[1..]
  {
    if IsMinorWord(w) then w
    else if w != [] then [ToUpperChar(w[0])] + w[1..]
    else w
  }

  /** The separators `capitalise` splits a title on. */
  const TITLE_SEPARATORS: string := " -_"

  /** `capitalise`: split on spaces, hyphens and underscores, capitalise each
      word and rejoin with single spaces. */
  function Capitalise(title: string): (r: string)
    ensures |r| == |title|
  {
    var ws := SplitOn(title, TITLE_SEPARATORS);
    SplitOnLength(title, TITLE_SEPARATORS);
    MapCapitaliseLength(ws);
    JoinLength(MapCapitalise(ws), " ");
    Join(MapCapitalise(ws), " ")
  }

  function MapCapitalise(ws: seq<string>): (r: seq<string>)
    ensures |r| == |ws|
    ensures forall i :: 0 <= i < |ws| ==> r[i] == CapitaliseWord(ws[i])
  {
    if ws == [] then [] else [CapitaliseWord(ws[0])] + MapCapitalise(ws[1..])
  }

  /** No word of `ws` contains a title separator. */
  predicate SeparatorFree(ws: seq<string>) {
    forall k, i :: 0 <= k < |ws| && 0 <= i < |ws[k]| ==> !IsTitleSeparator(ws[k][i])
  }

  predicate IsTitleSeparator(c: char) {
    c == ' ' || c == '-' || c == '_'
  }

  /** Capitalising words joined by single spaces capitalises each word. */
  lemma CapitaliseJoined(ws: seq<string>)
    requires |ws| >= 1 && SeparatorFree(ws)
    ensures Capitalise(Join(ws, " ")) == Join(MapCapitalise(ws), " ")
  {
    assert forall c :: c in TITLE_SEPARATORS <==> IsTitleSeparator(c);
    SplitJoin(ws, ' ', TITLE_SEPARATORS);
  }

  /** Words free of separators, joined by single spaces, capitalise to the
      given words joined the same way once each word capitalises to its
      counterpart. */
  lemma CapitaliseWords(ws: seq<string>, cs: seq<string>)
    requires |ws| >= 1 && SeparatorFree(ws)
    requires |cs| == |ws| && forall i :: 0 <= i < |ws| ==> CapitaliseWord(ws[i]) == cs[i]
    ensures Capitalise(Join(ws, " ")) == Join(cs, " ")
  {
    CapitaliseJoined(ws);
    assert MapCapitalise(ws) == cs;
  }

  /** `capitalise("magic is a resource")` is "Magic is a Resource", as the navigation tests expect; both strings are
      written as their words joined by single spaces. */
  lemma CapitaliseExampleResource()
    ensures Capitalise(Join(["magic", "is", "a", "resource"], " ")) == Join(["Magic", "is", "a", "Resource"], " ")
  {
    assert CapitaliseWord("magic") == "Magic";
    assert CapitaliseWord("resource") == "Resource";
    CapitaliseWords(["magic", "is", "a", "resource"], ["Magic", "is", "a", "Resource"]);
  }

  /** `capitalise("tree at hill")` is "Tree at Hill", as the navigation tests expect; both strings are
      written as their words joined by single spaces. */
  lemma CapitaliseExampleHill()
    ensures Capitalise(Join(["tree", "at", "hill"], " ")) == Join(["Tree", "at", "Hill"], " ")
  {
    assert CapitaliseWord("tree") == "Tree";
    assert CapitaliseWord("hill") == "Hill";
    CapitaliseWords(["tree", "at", "hill"], ["Tree", "at", "Hill"]);
  }

  /** `capitalise("the big town")` is "The Big Town", as the navigation tests expect; both strings are
      written as their words joined by single spaces. */
  lemma CapitaliseExampleTown()
    ensures Capitalise(Join(["the", "big", "town"], " ")) == Join(["The", "Big", "Town"], " ")
  {
    assert CapitaliseWord("the") == "The";
    assert CapitaliseWord("big") == "Big";
    assert CapitaliseWord("town") == "Town";
    CapitaliseWords(["the", "big", "town"], ["The", "Big", "Town"]);
  }

  /** Total length of a list of strings. */
  function TotalLength(ws: seq<string>): nat {
    if ws == [] then 0 else |ws[0]| + TotalLength(ws[1..])
  }

  lemma {:induction false} SplitOnLength(s: string, seps: string)
    ensures TotalLength(SplitOn(s, seps)) + |SplitOn(s, seps)| - 1 == |s|
    decreases |s|
  {
    match FindWhere(s, AnyOf(seps))
    case None =>
    case Some(i) =>
      var r := SplitOn(s, seps);
      assert r == [s[..i]] + SplitOn(s[i + 1..], seps);
      assert r[1..] == SplitOn(s[i + 1..], seps);
      SplitOnLength(s[i + 1..], seps);
  }

  lemma {:induction false} JoinLength(ws: seq<string>, sep: string)
    requires |ws| >= 1
    ensures |Join(ws, sep)| == TotalLength(ws) + (|ws| - 1) * |sep|
  {
    if |ws| > 1 {
      JoinLength(ws[1..], sep);
    }
  }

  lemma {:induction false} MapCapitaliseLength(ws: seq<string>)
    ensures TotalLength(MapCapitalise(ws)) == TotalLength(ws)
  {
    if ws != [] {
      assert MapCapitalise(ws)[1..] == MapCapitalise(ws[1..]);
      MapCapitaliseLength(ws[1..]);
    }
  }

  /** The configured (tag, password) entries whose tag the node carries,
      in configuration order. */
  function KeysForTags(tagKeys: seq<(Tag, string)>, tags: seq<Tag>): (r: seq<(Tag, string)>)
    ensures forall p :: p in r <==> p in tagKeys && p.0 in tags
    ensures |r| <= |tagKeys|
  {
    if tagKeys == [] then []
    else if tagKeys[0].0 in tags then [tagKeys[0]] + KeysForTags(tagKeys[1..], tags)
    else KeysForTags(tagKeys[1..], tags)
  }

  /** `encryption_pairs`: the pairs that encrypt a node carrying `tags`, or
      None when the node has no tags or none of them has a password. */
  function EncryptionPairs(tagKeys: seq<(Tag, string)>, tags: seq<Tag>): (r: Option<seq<(Tag, string)>>)
    ensures tags == [] ==> r.None?
    ensures r.None? <==> tags == [] || forall p :: p in tagKeys ==> p.0 !in tags
    ensures r.Some? ==> r.value != [] && forall p :: p in r.value <==> p in tagKeys && p.0 in tags
  {
    if tags == [] then None
    else
      var pairs := KeysForTags(tagKeys, tags);
      if pairs == [] then
        assert forall p :: p in tagKeys ==> (p.0 in tags ==> p in pairs);
        None
      else
        assert pairs[0] in pairs;
        Some(pairs)
  }
}
