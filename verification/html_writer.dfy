/**
  The HTML writer of src/render/html.rs: a record of the text written so
  far, the stack of open tags (innermost last), the tag closed by the most
  recent call when nothing has been written since, and a number of extra
  indentation levels. Every writer operation is a pure function from the
  old record to the new one.

  Also here: attribute-value escaping and the re-indentation of a block of
  text.
*/
module HtmlWriter {
  import opened Strings
  import opened Model

  /** Spaces per indentation level. */
  const TABSIZE: nat := 2

  /** Tags after whose closing a following word needs a separating space. */
  const INLINE_CLOSERS: seq<string> := ["a", "b", "i", "s", "code", "span"]

  datatype Html = Html(content: string, stack: seq<string>, justClosed: Option<string>, indentAdjust: nat)

  /** `Html::new`. */
  function NewHtml(): Html {
    Html([], [], None, 0)
  }

  // ---------------------------------------------------------------------
  // Writing text

  /** `push`: one character; forgets the tag just closed. */
  function Push(h: Html, c: char): Html {
    h.(content := h.content + [c], justClosed := None)
  }

  /** `push_str`: some text; forgets the tag just closed. */
  function PushStr(h: Html, s: string): Html {
    h.(content := h.content + s, justClosed := None)
  }

  /** Writing never touches the open tags or the indentation. */
  lemma WritingKeepsTags(h: Html, c: char, s: string)
    ensures var r := Push(h, c);
      r.stack == h.stack && r.indentAdjust == h.indentAdjust && r.justClosed.None?
    ensures var r := PushStr(h, s);
      r.stack == h.stack && r.indentAdjust == h.indentAdjust && r.justClosed.None?
    ensures PushStr(h, [c]) == Push(h, c)
  {
  }

  function Space(h: Html): Html {
    Push(h, ' ')
  }

  /** One attribute as it appears in a tag: a space, the key, '=' and the
      value in double quotes, the value written as given. */
  function AttrText(key: string, value: string): string {
    " " + key + "=\"" + value + "\""
  }

  /** The attributes' texts one after another, in list order. */
  function AttrsText(attrs: Attrs): string
    decreases |attrs|
  {
    if attrs == [] then [] else AttrText(attrs[0].0, attrs[0].1) + AttrsText(attrs[1..])
  }

  /** `attr`: ` key="value"`, the value written as given. */
  function Attr(h: Html, key: string, value: string): (r: Html)
    ensures r.stack == h.stack && r.indentAdjust == h.indentAdjust && r.justClosed.None?
    ensures r.content == h.content + " " + key + "=\"" + value + "\""
  {
    Push(PushStr(Push(Push(PushStr(Space(h), key), '='), '"'), value), '"')
  }

  /** The attributes in order, then '>'. */
  function Finish(h: Html, attrs: Attrs): (r: Html)
    ensures r.stack == h.stack && r.indentAdjust == h.indentAdjust && r.justClosed.None?
    ensures r.content == h.content + AttrsText(attrs) + ">"
    ensures |r.content| > |h.content| && r.content[..|h.content|] == h.content
    ensures EndsWith(r.content, ">")
  {
    Push(AttrsLoop(h, attrs), '>')
  }

  function AttrsLoop(h: Html, attrs: Attrs): (r: Html)
    ensures r.stack == h.stack && r.indentAdjust == h.indentAdjust
    ensures attrs != [] ==> r.justClosed.None?
    ensures attrs == [] ==> r == h
    ensures r.content == h.content + AttrsText(attrs)
    ensures |r.content| >= |h.content| && r.content[..|h.content|] == h.content
    decreases |attrs|
  {
    if attrs == [] then h
    else
      var a := Attr(h, attrs[0].0, attrs[0].1);
      var r := AttrsLoop(a, attrs[1..]);
      assert a.content == h.content + AttrText(attrs[0].0, attrs[0].1);
      AppendAssociative(h.content, AttrText(attrs[0].0, attrs[0].1), AttrsText(attrs[1..]));
      r
  }

  // ---------------------------------------------------------------------
  // Opening and closing tags

  /** `_start` (and `singleton`): '<' and the tag name, nothing pushed. */
  function StartNoPush(h: Html, tag: string): Html {
    PushStr(Push(h, '<'), tag)
  }

  /** `start`: the tag is written and becomes the innermost open tag. */
  function Start(h: Html, tag: string): (r: Html)
    ensures r.stack == h.stack + [tag] && r.indentAdjust == h.indentAdjust
    ensures r.content == h.content + "<" + tag
  {
    StartNoPush(h, tag).(stack := h.stack + [tag])
  }

  /** `open`: start the tag and finish it with its attributes. */
  function Open(h: Html, tag: string, attrs: Attrs): (r: Html)
    ensures r.stack == h.stack + [tag] && r.indentAdjust == h.indentAdjust && r.justClosed.None?
    ensures r.content == h.content + "<" + tag + AttrsText(attrs) + ">"
    ensures |r.content| > |h.content| + |tag| && r.content[..|h.content| + 1 + |tag|] == h.content + "<" + tag
    ensures EndsWith(r.content, ">")
  {
    var s := Start(h, tag);
    var r := Finish(s, attrs);
    assert r.content[..|h.content| + 1 + |tag|] == r.content[..|s.content|];
    r
  }

  /** The text without its trailing ' ' characters (other white space stays). */
  function TrimTrailingSpaces(s: string): (r: string)
    ensures |r| <= |s| && r == s[..|r|]
    ensures r == [] || r[|r| - 1] != ' '
    ensures forall i :: |r| <= i < |s| ==> s[i] == ' '
  {
    if s != [] && s[|s| - 1] == ' ' then TrimTrailingSpaces(s[..|s| - 1]) else s
  }

  /** `trim_spaces`: trailing spaces are dropped unless they follow a line
      break, where they are the indentation of an otherwise empty line. */
  function TrimSpaces(s: string): (r: string)
    ensures |r| <= |s| && r == s[..|r|]
    ensures forall i :: |r| <= i < |s| ==> s[i] == ' '
    ensures r == s || r == [] || (r[|r| - 1] != ' ' && r[|r| - 1] != '\n')
  {
    var t := TrimTrailingSpaces(s);
    if EndsWith(t, "\n") then s else t
  }

  /** The indentation after a line break survives `trim_spaces`. */
  lemma TrimSpacesKeepsIndent(s: string, n: nat)
    ensures TrimSpaces(s + "\n" + Repeat(" ", n)) == s + "\n" + Repeat(" ", n)
  {
    var pad := Repeat(" ", n);
    var x := s + "\n" + pad;
    RepeatSpaces(n);
    TrailingSpacesAfterBreak(s, pad);
  }

  lemma {:induction false} RepeatSpaces(n: nat)
    ensures forall i :: 0 <= i < |Repeat(" ", n)| ==> Repeat(" ", n)[i] == ' '
  {
    if n > 0 {
      RepeatSpaces(n - 1);
      assert Repeat(" ", n) == " " + Repeat(" ", n - 1);
    }
  }

  lemma {:induction false} TrailingSpacesAfterBreak(s: string, pad: string)
    requires forall i :: 0 <= i < |pad| ==> pad[i] == ' '
    ensures TrimTrailingSpaces(s + "\n" + pad) == s + "\n"
    decreases |pad|
  {
    if pad != [] {
      var x := s + "\n" + pad;
      assert x[..|x| - 1] == s + "\n" + pad[..|pad| - 1];
      TrailingSpacesAfterBreak(s, pad[..|pad| - 1]);
    } else {
      assert s + "\n" + pad == s + "\n";
    }
  }

  /** `close`: when a tag is open, trailing spaces are trimmed and the
      innermost tag is closed and remembered; otherwise nothing happens. */
  function Close(h: Html): (r: Html)
    ensures h.stack == [] ==> r == h
    ensures h.stack != [] ==>
      var tag := h.stack[|h.stack| - 1];
      && r.stack == h.stack[..|h.stack| - 1]
      && r.justClosed == Some(tag)
      && r.indentAdjust == h.indentAdjust
      && r.content == TrimSpaces(h.content) + "</" + tag + ">"
  {
    if h.stack == [] then h
    else
      var tag := h.stack[|h.stack| - 1];
      var trimmed := h.(content := TrimSpaces(h.content), stack := h.stack[..|h.stack| - 1]);
      Push(PushStr(PushStr(trimmed, "</"), tag), '>').(justClosed := Some(tag))
  }

  /** `trim_end`: all trailing white space goes; the tag just closed is kept. */
  function TrimEndH(h: Html): Html {
    h.(content := TrimEnd(h.content))
  }

  /** `nl`: trim the end and start a new line. */
  function Nl(h: Html): Html {
    Push(TrimEndH(h), '\n')
  }

  /** `indent`: a new line indented by `n` levels plus the writer's adjustment. */
  function Indent(h: Html, n: nat): (r: Html)
    ensures r.stack == h.stack && r.indentAdjust == h.indentAdjust && r.justClosed.None?
    ensures r.content == TrimEnd(h.content) + "\n" + Repeat(" ", (n + h.indentAdjust) * TABSIZE)
  {
    PushStr(Nl(h), Repeat(" ", (n + h.indentAdjust) * TABSIZE))
  }

  /** `lopen`: open the tag on a new line at the current depth. */
  function LOpen(h: Html, tag: string, attrs: Attrs): (r: Html)
    ensures r.stack == h.stack + [tag] && r.indentAdjust == h.indentAdjust && r.justClosed.None?
  {
    Open(Indent(h, |h.stack|), tag, attrs)
  }

  /** `lopenl`: as `lopen`, then a new line one level deeper. */
  function LOpenL(h: Html, tag: string, attrs: Attrs): (r: Html)
    ensures r.stack == h.stack + [tag] && r.indentAdjust == h.indentAdjust && r.justClosed.None?
  {
    var o := LOpen(h, tag, attrs);
    Indent(o, |o.stack|)
  }

  /** `lclose`: close the innermost tag on its own line. */
  function LClose(h: Html): (r: Html)
    ensures h.stack == [] ==> r == h
    ensures h.stack != [] ==>
      && r.stack == h.stack[..|h.stack| - 1] && r.indentAdjust == h.indentAdjust
      && r.justClosed == Some(h.stack[|h.stack| - 1])
  {
    if h.stack == [] then h
    else Close(Indent(TrimEndH(h), |h.stack| - 1))
  }

  /** `lclosel`: as `lclose`, then a new line at the outer depth. */
  function LCloseL(h: Html): (r: Html)
    ensures h.stack == [] ==> r == h
    ensures h.stack != [] ==>
      && r.stack == h.stack[..|h.stack| - 1] && r.indentAdjust == h.indentAdjust
      && r.justClosed.None?
  {
    if h.stack == [] then h
    else
      var c := LClose(h);
      Indent(c, if |c.stack| == 0 then 0 else |c.stack| - 1)
  }

  /** `closel`: close the innermost tag, then a new line at the outer depth. */
  function CloseL(h: Html): (r: Html)
    ensures h.stack == [] ==> r == h
    ensures h.stack != [] ==>
      && r.stack == h.stack[..|h.stack| - 1] && r.indentAdjust == h.indentAdjust
      && r.justClosed.None?
  {
    if h.stack == [] then h
    else
      var c := Close(h);
      Indent(c, |c.stack|)
  }

  /** An element opened and closed at once leaves the stack as it was and
      is written as `<tag>` followed by `</tag>`. */
  lemma OpenThenClose(h: Html, tag: string)
    ensures var r := Close(Open(h, tag, []));
      && r.stack == h.stack && r.justClosed == Some(tag)
      && r.content == h.content + "<" + tag + ">" + "</" + tag + ">"
  {
    var o := Open(h, tag, []);
    OpenBare(h, tag);
    TrimSpacesAfterTag(o.content);
    assert o.stack[..|o.stack| - 1] == h.stack;
  }

  /** Without attributes, `open` writes exactly `<tag>`. */
  lemma OpenBare(h: Html, tag: string)
    ensures var o := Open(h, tag, []);
      o.content == h.content + "<" + tag + ">" && o.stack == h.stack + [tag]
  {
    var s := Start(h, tag);
    assert Finish(s, []) == Push(s, '>');
  }

  /** Text ending in '>' has no trailing spaces to trim. */
  lemma TrimSpacesAfterTag(s: string)
    requires EndsWith(s, ">")
    ensures TrimSpaces(s) == s
  {
    assert s[|s| - 1] == '>';
    assert TrimTrailingSpaces(s) == s;
  }

  // ---------------------------------------------------------------------
  // Spacing between inline items

  /** `space_if_needed` adds a space exactly here: after a '>' that ends an
      inline element (a, b, i, s, code, span), or after text that does not
      already end in white space. */
  predicate NeedsSpace(h: Html) {
    if EndsWith(h.content, ">") then h.justClosed.Some? && h.justClosed.value in INLINE_CLOSERS
    else h.content == [] || !IsWhitespace(h.content[|h.content| - 1])
  }

  function SpaceIfNeeded(h: Html): (r: Html)
    ensures NeedsSpace(h) ==> r.content == h.content + " " && r.justClosed.None?
    ensures !NeedsSpace(h) ==> r == h
    ensures r.stack == h.stack && r.indentAdjust == h.indentAdjust
  {
    if EndsWith(h.content, ">") then
      if h.justClosed.Some? && h.justClosed.value in INLINE_CLOSERS then Space(h) else h
    else if h.content == [] || !IsWhitespace(h.content[|h.content| - 1]) then Space(h)
    else h
  }

  /** Asking twice never yields two spaces. */
  lemma SpaceIfNeededIdempotent(h: Html)
    ensures SpaceIfNeeded(SpaceIfNeeded(h)) == SpaceIfNeeded(h)
  {
    var r := SpaceIfNeeded(h);
    if NeedsSpace(h) {
      assert r.content[|r.content| - 1] == ' ';
      assert !EndsWith(r.content, ">");
    }
  }

  /** After a space has been added the text ends in white space. */
  lemma SpaceIfNeededEnds(h: Html)
    requires NeedsSpace(h)
    ensures var r := SpaceIfNeeded(h);
      r.content != [] && IsWhitespace(r.content[|r.content| - 1]) && !NeedsSpace(r)
  {
  }

  // ---------------------------------------------------------------------
  // Escaping and indentation of text

  /** `escape`: every '"' becomes "&quot;". */
  function Escape(s: string): (r: string)
    ensures '"' !in r
    ensures '"' !in s ==> r == s
    ensures |r| >= |s|
  {
    if s == [] then []
    else (if s[0] == '"' then "&quot;" else [s[0]]) + Escape(s[1..])
  }

  /** Escaping works character by character. */
  lemma {:induction false} EscapeAppend(a: string, b: string)
    ensures Escape(a + b) == Escape(a) + Escape(b)
  {
    if a != [] {
      var head := if a[0] == '"' then "&quot;" else [a[0]];
      assert (a + b)[0] == a[0] && (a + b)[1..] == a[1..] + b;
      assert Escape(a + b) == head + Escape(a[1..] + b);
      EscapeAppend(a[1..], b);
      AppendAssociative(head, Escape(a[1..]), Escape(b));
    } else {
      assert a + b == b;
    }
  }

  /** `escape` is `str::replace` of '"' by "&quot;". */
  lemma {:induction false} EscapeIsReplace(s: string)
    ensures Escape(s) == Replace(s, "\"", "&quot;")
  {
    if s != [] {
      EscapeIsReplace(s[1..]);
      if s[0] == '"' {
        assert StartsWith(s, "\"");
        assert s[|"\""|..] == s[1..];
      } else {
        assert !StartsWith(s, "\"");
      }
    }
  }

  /** The quoted text of the program's escaping test. */
  lemma EscapeExample(w: string)
    requires '"' !in w
    ensures Escape("\"" + w + "\"") == "&quot;" + w + "&quot;"
  {
    EscapeAppend("\"" + w, "\"");
    EscapeAppend("\"", w);
    assert Escape("\"") == "&quot;" by {
      assert "\""[1..] == [];
    }
  }

  /** Every line break followed by `pad`. */
  function PadLines(s: string, pad: string): (r: string)
    ensures |r| >= |s|
  {
    if s == [] then []
    else (if s[0] == '\n' then "\n" + pad else [s[0]]) + PadLines(s[1..], pad)
  }

  /** In `PadLines`, each line break is followed by the whole of `pad`. */
  predicate BreaksPadded(r: string, pad: string) {
    forall i :: 0 <= i < |r| && r[i] == '\n' ==> i + |pad| < |r| && r[i + 1..i + 1 + |pad|] == pad
  }

  lemma {:induction false} PadLinesIsReplace(s: string, pad: string)
    ensures PadLines(s, pad) == Replace(s, "\n", "\n" + pad)
  {
    if s != [] {
      PadLinesIsReplace(s[1..], pad);
      if s[0] == '\n' {
        assert StartsWith(s, "\n");
        assert s[|"\n"|..] == s[1..];
      } else {
        assert !StartsWith(s, "\n");
      }
    }
  }

  /** `indent`: every line break of the text followed by `levels` levels of
      spaces, the whole then trimmed. */
  function IndentText(s: string, levels: nat): (r: string)
    ensures '\n' !in s ==> r == Trim(s)
  {
    var pad := Repeat(" ", levels * TABSIZE);
    NoBreakNoPad(s, pad);
    Trim(PadLines(s, pad))
  }

  lemma {:induction false} NoBreakNoPad(s: string, pad: string)
    ensures '\n' !in s ==> PadLines(s, pad) == s
  {
    if s != [] && '\n' !in s {
      assert '\n' !in s[1..];
      NoBreakNoPad(s[1..], pad);
    }
  }

  /** With no indentation, `indent` only trims. */
  lemma {:induction false} PadLinesEmpty(s: string)
    ensures PadLines(s, []) == s
  {
    if s != [] {
      PadLinesEmpty(s[1..]);
    }
  }

  /** Every line break kept by `indent` is followed by the full indentation. */
  lemma IndentPadsEveryBreak(s: string, levels: nat)
    ensures BreaksPadded(IndentText(s, levels), Repeat(" ", levels * TABSIZE))
  {
    var pad := Repeat(" ", levels * TABSIZE);
    RepeatSpaces(levels * TABSIZE);
    var p := PadLines(s, pad);
    PadLinesPads(s, pad);
    TrimStartKeepsPadding(p, pad);
    TrimEndKeepsPadding(TrimStart(p), pad);
  }

  lemma TrimStartKeepsPadding(p: string, pad: string)
    requires BreaksPadded(p, pad)
    ensures BreaksPadded(TrimStart(p), pad)
  {
    var a := TrimStart(p);
    var k := |p| - |a|;
    forall i | 0 <= i < |a| && a[i] == '\n'
      ensures i + |pad| < |a| && a[i + 1..i + 1 + |pad|] == pad
    {
      assert a[i] == p[k + i];
      assert p[k + i + 1..k + i + 1 + |pad|] == a[i + 1..i + 1 + |pad|];
    }
  }

  lemma TrimEndKeepsPadding(a: string, pad: string)
    requires BreaksPadded(a, pad)
    requires forall i :: 0 <= i < |pad| ==> pad[i] == ' '
    ensures BreaksPadded(TrimEnd(a), pad)
  {
    var b := TrimEnd(a);
    forall i | 0 <= i < |b| && b[i] == '\n'
      ensures i + |pad| < |b| && b[i + 1..i + 1 + |pad|] == pad
    {
      assert b[i] == a[i];
      // The break and its pad spaces are white space, and `TrimEnd` keeps
      // no trailing white space, so the kept text runs past them.
      forall k | i < k <= i + |pad|
        ensures a[k] == ' '
      {
        assert a[k] == a[i + 1..i + 1 + |pad|][k - i - 1];
      }
      var j := |b| - 1;
      assert b[j] == a[j] && !IsWhitespace(a[j]);
      assert j > i + |pad|;
      assert b[i + 1..i + 1 + |pad|] == a[i + 1..i + 1 + |pad|];
    }
  }

  /** Every line break produced by `PadLines` is followed by `pad`. */
  lemma {:induction false} PadLinesPads(s: string, pad: string)
    requires '\n' !in pad
    ensures BreaksPadded(PadLines(s, pad), pad)
  {
    if s != [] {
      PadLinesPads(s[1..], pad);
      var head := if s[0] == '\n' then "\n" + pad else [s[0]];
      var rest := PadLines(s[1..], pad);
      var r := head + rest;
      assert PadLines(s, pad) == r;
      forall i | 0 <= i < |r| && r[i] == '\n'
        ensures i + |pad| < |r| && r[i + 1..i + 1 + |pad|] == pad
      {
        if i >= |head| {
          assert r[i] == rest[i - |head|];
          assert r[i + 1..i + 1 + |pad|] == rest[i - |head| + 1..i - |head| + 1 + |pad|];
        } else if s[0] == '\n' {
          if i > 0 {
            assert false;
          }
          assert r[1..1 + |pad|] == pad;
        } else {
          assert false;
        }
      }
    }
  }
}
