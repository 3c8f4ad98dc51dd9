/**
  The character-level helpers of the Markdown parser: slicing off a prefix,
  finding the first non-white-space character, and the small scanners that
  look at the white space at the head of the remaining input (is there a
  line break, an empty line, a list bullet and how far is it indented).

  The parser slices by byte offset; on the ASCII text assumed here one
  character is one byte.
*/
module MarkdownScan {
  import opened Strings

  /** The characters that start a non-text node. */
  const CONTROL: string := "*#[!~`"

  predicate IsControl(c: char) {
    c == '*' || c == '#' || c == '[' || c == '!' || c == '~' || c == '`'
  }

  lemma ControlChars(c: char)
    ensures IsControl(c) <==> c in CONTROL
  {
  }

  /** `drop_n`: everything after the first `n` characters, or nothing. */
  function DropN(s: string, n: nat): (r: string)
    ensures IsSuffix(r, s)
    ensures |r| == if |s| <= n then 0 else |s| - n
  {
    if |s| <= n then [] else s[n..]
  }

  /** `drop_first`. */
  function DropFirst(s: string): (r: string)
    ensures IsSuffix(r, s)
    ensures s != [] ==> |r| == |s| - 1
  {
    DropN(s, 1)
  }

  function FirstChar(s: string): (r: Option<char>)
    ensures r.None? <==> s == []
    ensures r.Some? ==> r.value == s[0]
  {
    if s == [] then None else Some(s[0])
  }

  /** Trimming the start drops exactly the blank prefix: it is empty iff the
      string is blank. */
  lemma TrimStartEmptyIff(s: string)
    ensures TrimStart(s) == [] <==> IsBlank(s)
  {
    var r := TrimStart(s);
    assert r != [] ==> r[0] == s[|s| - |r|];
  }

  /** `first_solid`: the first character that is not white space. */
  function FirstSolid(s: string): (r: Option<char>)
    ensures r.None? <==> IsBlank(s)
    ensures r.Some? ==> !IsWhitespace(r.value)
    ensures r.Some? ==> exists i :: 0 <= i < |s| && s[i] == r.value && IsBlank(s[..i])
  {
    TrimStartEmptyIff(s);
    var t := TrimStart(s);
    assert t != [] ==> s[|s| - |t|] == t[0];
    FirstChar(t)
  }

  /** `nth_solid`: the `n`-th character that is not white space (the first
      one for `n` of 0 or 1). */
  function NthSolid(s: string, n: nat): (r: Option<char>)
    ensures r.Some? ==> r.value in s && !IsWhitespace(r.value)
  {
    if s == [] then None
    else if IsWhitespace(s[0]) then NthSolid(s[1..], n)
    else if n <= 1 then Some(s[0])
    else NthSolid(s[1..], n - 1)
  }

  /** The first solid character is the first of the `nth_solid` sequence. */
  lemma {:induction false} NthSolidFirst(s: string)
    ensures NthSolid(s, 1) == FirstSolid(s)
    decreases |s|
  {
    if s != [] && IsWhitespace(s[0]) {
      NthSolidFirst(s[1..]);
      assert TrimStart(s) == TrimStart(s[1..]);
    }
  }

  /** Leading white space does not change which character is the n-th solid one. */
  lemma {:induction false} NthSolidTrim(s: string, n: nat)
    ensures NthSolid(TrimStart(s), n) == NthSolid(s, n)
    decreases |s|
  {
    if s != [] && IsWhitespace(s[0]) {
      NthSolidTrim(s[1..], n);
    }
  }

  /** `starts_with_new_line`: the leading white space holds a line break. */
  function StartsWithNewLine(s: string): (r: bool)
    ensures r ==> '\n' in s
  {
    if s == [] then false
    else if s[0] == '\n' then true
    else if IsWhitespace(s[0]) then StartsWithNewLine(s[1..])
    else false
  }

  /** A line break is at the head exactly when some '\n' has only white
      space before it. */
  lemma {:induction false} StartsWithNewLineIff(s: string)
    ensures StartsWithNewLine(s) <==> exists j :: 0 <= j < |s| && s[j] == '\n' && IsBlank(s[..j])
    decreases |s|
  {
    if s != [] {
      if s[0] == '\n' {
        assert s[..0] == [];
      } else {
        StartsWithNewLineIff(s[1..]);
        if exists j :: 0 <= j < |s| && s[j] == '\n' && IsBlank(s[..j]) {
          var j :| 0 <= j < |s| && s[j] == '\n' && IsBlank(s[..j]);
          assert j > 0 && IsWhitespace(s[0]);
          assert s[1..][j - 1] == '\n' && s[1..][..j - 1] == s[1..j];
        }
        if IsWhitespace(s[0]) && StartsWithNewLine(s[1..]) {
          var j :| 0 <= j < |s[1..]| && s[1..][j] == '\n' && IsBlank(s[1..][..j]);
          assert s[j + 1] == '\n' && s[..j + 1] == [s[0]] + s[1..][..j];
        }
      }
    }
  }

  /** The loop of `starts_with_empty_line`, `passed` recording whether one
      line break has been seen already. */
  function EmptyLineFrom(s: string, passed: bool): bool {
    if s == [] then false
    else if s[0] == '\n' then passed || EmptyLineFrom(s[1..], true)
    else if IsWhitespace(s[0]) then EmptyLineFrom(s[1..], passed)
    else false
  }

  /** `starts_with_empty_line`: the leading white space holds two line breaks. */
  function StartsWithEmptyLine(s: string): bool {
    EmptyLineFrom(s, false)
  }

  /** A second '\n' within blank text: what `starts_with_empty_line` looks for. */
  predicate SecondBreakAt(s: string, j: int, passed: bool) {
    0 <= j < |s| && s[j] == '\n' && IsBlank(s[..j]) && (passed || '\n' in s[..j])
  }

  lemma {:induction false} EmptyLineFromIff(s: string, passed: bool)
    ensures EmptyLineFrom(s, passed) <==> exists j :: SecondBreakAt(s, j, passed)
    decreases |s|
  {
    if s != [] && (s[0] == '\n' || IsWhitespace(s[0])) {
      var p' := passed || s[0] == '\n';
      EmptyLineFromIff(s[1..], p');
      if s[0] == '\n' && passed {
        assert SecondBreakAt(s, 0, passed);
      } else {
        if exists j :: SecondBreakAt(s[1..], j, p') {
          var j :| SecondBreakAt(s[1..], j, p');
          assert s[..j + 1] == [s[0]] + s[1..][..j];
          assert SecondBreakAt(s, j + 1, passed);
        }
        if exists j :: SecondBreakAt(s, j, passed) {
          var j :| SecondBreakAt(s, j, passed);
          assert j > 0;
          assert s[..j] == [s[0]] + s[1..][..j - 1];
          assert SecondBreakAt(s[1..], j - 1, p');
        }
      }
    } else if s != [] {
      assert forall j :: 0 < j <= |s| ==> s[..j][0] == s[0];
    }
  }

  /** An empty line is at the head exactly when two line breaks have only
      white space before them. */
  lemma StartsWithEmptyLineIff(s: string)
    ensures StartsWithEmptyLine(s) <==> exists j :: SecondBreakAt(s, j, false)
  {
    EmptyLineFromIff(s, false);
  }

  /** The loop of `parse_node` deciding `at_line_start`: nothing but white
      space comes before the first line break (or the end). */
  function AtLineStart(s: string): bool {
    if s == [] then true
    else if s[0] == '\n' then true
    else if IsWhitespace(s[0]) then AtLineStart(s[1..])
    else false
  }

  /** `at_line_start` holds iff the text up to the first line break is blank. */
  lemma {:induction false} AtLineStartIff(s: string)
    ensures AtLineStart(s) <==> IsBlank(Consume(s, Char('\n')).taken)
    decreases |s|
  {
    var c := Consume(s, Char('\n'));
    if s != [] && s[0] != '\n' {
      var c' := Consume(s[1..], Char('\n'));
      AtLineStartIff(s[1..]);
      ConsumeStep(s, Char('\n'));
      assert c.taken == [s[0]] + c'.taken;
    } else if s != [] {
      assert c.taken == [];
    }
  }

  /** Consuming from a string whose head does not match takes the head and
      continues with the tail. */
  lemma ConsumeStep(s: string, p: CharPattern)
    requires s != [] && !Matches(p, s[0])
    ensures Consume(s, p) == Cut(Consume(s[1..], p).rest, [s[0]] + Consume(s[1..], p).taken)
  {
    var c' := Consume(s[1..], p);
    var taken := [s[0]] + c'.taken;
    assert taken + c'.rest == s by {
      assert taken + c'.rest == [s[0]] + (c'.taken + c'.rest);
    }
    forall j | 0 <= j < |taken|
      ensures !Matches(p, taken[j])
    {
      if j > 0 {
        assert taken[j] == c'.taken[j - 1];
      }
    }
    ConsumeUnique(s, p, taken, c'.rest);
  }

  /** `Consume` is the only split with an unmatched prefix and a rest that
      is empty or starts with a match. */
  lemma ConsumeUnique(s: string, p: CharPattern, taken: string, rest: string)
    requires taken + rest == s
    requires forall j :: 0 <= j < |taken| ==> !Matches(p, taken[j])
    requires rest == [] || Matches(p, rest[0])
    ensures Consume(s, p) == Cut(rest, taken)
  {
    var c := Consume(s, p);
    assert c.taken == s[..|c.taken|] && taken == s[..|taken|];
    assert forall j :: 0 <= j < |c.taken| ==> !Matches(p, s[j]);
    assert forall j :: 0 <= j < |taken| ==> !Matches(p, s[j]);
    assert |c.taken| < |s| ==> Matches(p, s[|c.taken|]);
    assert |taken| < |s| ==> Matches(p, s[|taken|]);
    assert |c.taken| == |taken|;
  }

  /** The loop of `list_prefix_size`: `n` counts the white space since the
      last line break. */
  function ListPrefixFrom(s: string, n: nat): Option<nat> {
    if s == [] then None
    else if s[0] == '*' then Some(n)
    else if s[0] == '\n' then ListPrefixFrom(s[1..], 0)
    else if IsWhitespace(s[0]) then ListPrefixFrom(s[1..], n + 1)
    else None
  }

  /** `list_prefix_size`: the indentation of a list bullet heading the text. */
  function ListPrefixSize(s: string): (r: Option<nat>)
    ensures r.Some? <==> FirstSolid(s) == Some('*')
  {
    ListPrefixFromSome(s, 0);
    ListPrefixFrom(s, 0)
  }

  /** Rust's `Option` order, in which None comes first. */
  predicate OptionLe(a: Option<nat>, b: Option<nat>) {
    a.None? || (b.Some? && a.value <= b.value)
  }

  lemma {:induction false} ListPrefixFromSome(s: string, n: nat)
    ensures ListPrefixFrom(s, n).Some? <==> FirstSolid(s) == Some('*')
    decreases |s|
  {
    if s != [] && IsWhitespace(s[0]) {
      ListPrefixFromSome(s[1..], if s[0] == '\n' then 0 else n + 1);
      assert TrimStart(s) == TrimStart(s[1..]);
    }
  }

  /** There is a list prefix exactly when the first solid character is a bullet. */
  lemma {:induction false} ListPrefixFromIndent(ind: string, rest: string, n: nat)
    requires IsBlank(ind) && '\n' !in ind && rest != [] && rest[0] == '*'
    ensures ListPrefixFrom(ind + rest, n) == Some(n + |ind|)
    decreases |ind|
  {
    if ind != [] {
      assert (ind + rest)[1..] == ind[1..] + rest;
      assert ind[0] != '\n' && IsWhitespace(ind[0]);
      ListPrefixFromIndent(ind[1..], rest, n + 1);
    }
  }

  /** On the bullet's own line the prefix is the number of white-space
      characters before it. */
  lemma ListPrefixIndent(ind: string, rest: string)
    requires IsBlank(ind) && '\n' !in ind && rest != [] && rest[0] == '*'
    ensures ListPrefixSize(ind + rest) == Some(|ind|)
  {
    ListPrefixFromIndent(ind, rest, 0);
  }

  lemma {:induction false} ListPrefixFromNewline(a: string, b: string, n: nat)
    requires IsBlank(a)
    ensures ListPrefixFrom(a + "\n" + b, n) == ListPrefixSize(b)
    decreases |a|
  {
    var s := a + "\n" + b;
    if a == [] {
      assert s[1..] == b;
    } else {
      assert s[0] == a[0] && s[1..] == a[1..] + "\n" + b;
      ListPrefixFromNewline(a[1..], b, if a[0] == '\n' then 0 else n + 1);
    }
  }

  /** A line break resets the count: blank lines before the bullet's line
      do not add to its prefix. */
  lemma ListPrefixNewline(a: string, b: string)
    requires IsBlank(a)
    ensures ListPrefixSize(a + "\n" + b) == ListPrefixSize(b)
  {
    ListPrefixFromNewline(a, b, 0);
  }
}
