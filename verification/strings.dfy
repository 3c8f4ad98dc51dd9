/**
  Text helpers shared by every component: the `Option` type, the Unicode
  white-space class that Rust's `char::is_whitespace` and `str::trim` use,
  trimming, searching, splitting, joining and replacing on `seq<char>`.

  Strings are sequences of Unicode scalar values; where the program slices
  by byte offset the model assumes ASCII text, so one char is one byte.
*/
module Strings {

  datatype Option<+T> = None | Some(value: T)

  /** Rust's `char::is_whitespace`: the Unicode White_Space property. */
  predicate IsWhitespace(c: char) {
    || c == ' '
    || ('\t' <= c <= '\r')
    || c == '\U{85}' || c == '\U{A0}' || c == '\U{1680}'
    || ('\U{2000}' <= c <= '\U{200A}')
    || c == '\U{2028}' || c == '\U{2029}' || c == '\U{202F}' || c == '\U{205F}'
    || c == '\U{3000}'
  }

  /** ASCII letters and digits (Rust's `char::is_alphanumeric` restricted to ASCII). */
  predicate IsAlphanumeric(c: char) {
    ('a' <= c <= 'z') || ('A' <= c <= 'Z') || ('0' <= c <= '9')
  }

  predicate IsAsciiUpper(c: char) { 'A' <= c <= 'Z' }
  predicate IsAsciiLower(c: char) { 'a' <= c <= 'z' }

  function ToLowerChar(c: char): (r: char)
    ensures IsAsciiUpper(c) ==> IsAsciiLower(r) && r as int == c as int + 32
    ensures !IsAsciiUpper(c) ==> r == c
  {
    if IsAsciiUpper(c) then (c as int + 32) as char else c
  }

  function ToUpperChar(c: char): (r: char)
    ensures IsAsciiLower(c) ==> IsAsciiUpper(r) && r as int == c as int - 32
    ensures !IsAsciiLower(c) ==> r == c
  {
    if IsAsciiLower(c) then (c as int - 32) as char else c
  }

  /** ASCII lower-casing of a whole string (`str::to_lowercase` on ASCII text). */
  function ToLower(s: string): (r: string)
    ensures |r| == |s|
    ensures forall i :: 0 <= i < |s| ==> r[i] == ToLowerChar(s[i])
  {
    if s == [] then [] else [ToLowerChar(s[0])] + ToLower(s[1..])
  }

  /** Rust's `str::eq_ignore_ascii_case`. */
  predicate EqIgnoreAsciiCase(a: string, b: string) {
    |a| == |b| && forall i :: 0 <= i < |a| ==> ToLowerChar(a[i]) == ToLowerChar(b[i])
  }

  predicate IsBlank(s: string) {
    forall i :: 0 <= i < |s| ==> IsWhitespace(s[i])
  }

  predicate StartsWith(s: string, prefix: string) {
    |prefix| <= |s| && s[..|prefix|] == prefix
  }

  predicate EndsWith(s: string, suffix: string) {
    |suffix| <= |s| && s[|s| - |suffix|..] == suffix
  }

  /** `r` is what remains of `s` after dropping some prefix. */
  predicate IsSuffix(r: string, s: string) {
    |r| <= |s| && r == s[|s| - |r|..]
  }

  lemma SuffixTransitive(a: string, b: string, c: string)
    requires IsSuffix(a, b) && IsSuffix(b, c)
    ensures IsSuffix(a, c)
  {
    assert c[|c| - |b|..][|b| - |a|..] == c[|c| - |a|..];
  }

  function TrimStart(s: string): (r: string)
    ensures IsSuffix(r, s)
    ensures r == [] || !IsWhitespace(r[0])
    ensures IsBlank(s[..|s| - |r|])
  {
    if s != [] && IsWhitespace(s[0]) then TrimStart(s[1..]) else s
  }

  function TrimEnd(s: string): (r: string)
    ensures |r| <= |s| && r == s[..|r|]
    ensures r == [] || !IsWhitespace(r[|r| - 1])
    ensures IsBlank(s[|r|..])
  {
    if s != [] && IsWhitespace(s[|s| - 1]) then
      var r := TrimEnd(s[..|s| - 1]);
      assert forall i :: |r| <= i < |s| - 1 ==> s[i] == s[..|s| - 1][i];
      r
    else s
  }

  /** Rust's `str::trim`. */
  function Trim(s: string): string {
    TrimEnd(TrimStart(s))
  }

  lemma TrimEmptyIffBlank(s: string)
    ensures Trim(s) == [] <==> IsBlank(s)
  {
  }

  /** Trimming a trimmed string changes nothing. */
  lemma TrimIdempotent(s: string)
    ensures Trim(Trim(s)) == Trim(s)
  {
    var t := Trim(s);
    if t != [] {
      assert TrimStart(t) == t;
      assert TrimEnd(t) == t;
    }
  }

  /** A classification of characters, standing for the closures and
      `char` patterns the parser hands to `consume`. */
  datatype CharPattern =
    | Char(c: char)          // exactly this character
    | AnyOf(chars: string)   // one of these characters
    | NoneOf(chars: string)  // any character not among these
    | NotWhitespace
    | NotAlphanumeric

  predicate Matches(p: CharPattern, c: char) {
    match p
    case Char(d) => c == d
    case AnyOf(cs) => c in cs
    case NoneOf(cs) => c !in cs
    case NotWhitespace => !IsWhitespace(c)
    case NotAlphanumeric => !IsAlphanumeric(c)
  }

  /** Rust's `str::find` with a character pattern: the first matching index. */
  function FindWhere(s: string, p: CharPattern): (r: Option<nat>)
    ensures r.Some? ==> r.value < |s| && Matches(p, s[r.value])
    ensures r.Some? ==> forall j :: 0 <= j < r.value ==> !Matches(p, s[j])
    ensures r.None? ==> forall j :: 0 <= j < |s| ==> !Matches(p, s[j])
  {
    if s == [] then None
    else if Matches(p, s[0]) then Some(0)
    else match FindWhere(s[1..], p)
      case None => None
      case Some(i) => Some(i + 1)
  }

  /** Rust's `str::find` with a string pattern: the first index where `pat` starts. */
  function FindStr(s: string, pat: string): (r: Option<nat>)
    ensures r.Some? ==> r.value + |pat| <= |s| && s[r.value..r.value + |pat|] == pat
    ensures r.Some? ==> forall j :: 0 <= j < r.value ==> !StartsWith(s[j..], pat)
    ensures r.None? ==> forall j :: 0 <= j <= |s| ==> !StartsWith(s[j..], pat)
  {
    if StartsWith(s, pat) then Some(0)
    else if s == [] then None
    else match FindStr(s[1..], pat)
      case None =>
        NoMatchShift(s, pat, |s|);
        None
      case Some(i) =>
        NoMatchShift(s, pat, i + 1);
        MatchShift(s, pat, i);
        Some(i + 1)
  }

  /** A match in the tail is a match one position further on. */
  lemma MatchShift(s: string, pat: string, i: nat)
    requires s != [] && i + |pat| <= |s| - 1 && s[1..][i..i + |pat|] == pat
    ensures i + 1 + |pat| <= |s| && s[i + 1..i + 1 + |pat|] == pat
  {
    assert s[i + 1..i + 1 + |pat|] == s[1..][i..i + |pat|];
  }

  /** No match at the head and none in the first `n - 1` positions of the
      tail means none in the first `n` positions. */
  lemma NoMatchShift(s: string, pat: string, n: nat)
    requires s != [] && !StartsWith(s, pat) && n <= |s|
    requires forall j :: 0 <= j < n - 1 ==> !StartsWith(s[1..][j..], pat)
    requires n == |s| ==> !StartsWith(s[1..][|s| - 1..], pat)
    ensures forall j :: 0 <= j < n ==> !StartsWith(s[j..], pat)
    ensures n == |s| ==> !StartsWith(s[|s|..], pat)
  {
    forall j | 1 <= j < n
      ensures !StartsWith(s[j..], pat)
    {
      assert s[j..] == s[1..][j - 1..];
    }
    assert s[|s|..] == s[1..][|s| - 1..];
  }

  /** The result of splitting a string in two: the part taken and the rest. */
  datatype Cut = Cut(rest: string, taken: string)

  /** `consume`: take characters up to (not including) the first one
      matching `p`; the rest starts at that character, or is empty. */
  function Consume(s: string, p: CharPattern): (r: Cut)
    ensures r.taken + r.rest == s
    ensures forall j :: 0 <= j < |r.taken| ==> !Matches(p, r.taken[j])
    ensures r.rest == [] || Matches(p, r.rest[0])
  {
    match FindWhere(s, p)
    case Some(i) => Cut(s[i..], s[..i])
    case None => Cut([], s)
  }

  /** `consume` with a string pattern: stop where `pat` first occurs. */
  function ConsumeStr(s: string, pat: string): (r: Cut)
    ensures r.taken + r.rest == s
    ensures r.rest == [] || StartsWith(r.rest, pat)
    ensures forall j :: 0 <= j < |r.taken| ==> !StartsWith(s[j..], pat)
  {
    match FindStr(s, pat)
    case Some(i) => Cut(s[i..], s[..i])
    case None => Cut([], s)
  }

  /** What `ConsumeStr` returns is fixed by its contract. */
  lemma ConsumeStrUnique(s: string, pat: string, taken: string, rest: string)
    requires pat != [] && taken + rest == s
    requires rest == [] || StartsWith(rest, pat)
    requires forall j :: 0 <= j < |taken| ==> !StartsWith(s[j..], pat)
    ensures ConsumeStr(s, pat) == Cut(rest, taken)
  {
    var c := ConsumeStr(s, pat);
    assert c.taken == s[..|c.taken|] && taken == s[..|taken|];
    assert c.rest == s[|c.taken|..] && rest == s[|taken|..];
    assert |c.taken| == |taken|;
  }

  /** Rust's `str::split` on a set of separator characters. */
  function SplitOn(s: string, seps: string): (r: seq<string>)
    ensures |r| >= 1
    ensures forall k, j :: 0 <= k < |r| && 0 <= j < |r[k]| ==> r[k][j] !in seps
    decreases |s|
  {
    match FindWhere(s, AnyOf(seps))
    case None => [s]
    case Some(i) => [s[..i]] + SplitOn(s[i + 1..], seps)
  }

  /** A separator-free word followed by a separator splits off as the first piece. */
  lemma SplitOnWord(w: string, c: char, rest: string, seps: string)
    requires forall i :: 0 <= i < |w| ==> w[i] !in seps
    requires c in seps
    ensures SplitOn(w + [c] + rest, seps) == [w] + SplitOn(rest, seps)
  {
    var s := w + [c] + rest;
    assert Matches(AnyOf(seps), s[|w|]);
    assert forall j :: 0 <= j < |w| ==> s[j] == w[j];
    assert FindWhere(s, AnyOf(seps)) == Some(|w|);
    assert s[..|w|] == w;
    assert s[|w| + 1..] == rest;
  }

  /** A separator-free string is a single piece. */
  lemma SplitOnNoSeparator(w: string, seps: string)
    requires forall i :: 0 <= i < |w| ==> w[i] !in seps
    ensures SplitOn(w, seps) == [w]
  {
    assert FindWhere(w, AnyOf(seps)) == None;
  }

  /** `join`: the pieces with `sep` between consecutive ones. */
  function Join(pieces: seq<string>, sep: string): string {
    if |pieces| == 0 then []
    else if |pieces| == 1 then pieces[0]
    else pieces[0] + sep + Join(pieces[1..], sep)
  }

  /** Splitting on a separator undoes joining with it, as long as no piece
      contains a separator. */
  lemma {:induction false} SplitJoin(ws: seq<string>, sep: char, seps: string)
    requires |ws| >= 1 && sep in seps
    requires forall k, i :: 0 <= k < |ws| && 0 <= i < |ws[k]| ==> ws[k][i] !in seps
    ensures SplitOn(Join(ws, [sep]), seps) == ws
  {
    if |ws| == 1 {
      SplitOnNoSeparator(ws[0], seps);
    } else {
      assert forall i :: 0 <= i < |ws[0]| ==> ws[0][i] !in seps;
      SplitOnWord(ws[0], sep, Join(ws[1..], [sep]), seps);
      SplitJoin(ws[1..], sep, seps);
      assert ws == [ws[0]] + ws[1..];
    }
  }

  /** Rust's `str::replace`: every non-overlapping occurrence of `from`,
      scanning left to right, becomes `to`. */
  function Replace(s: string, from: string, to: string): string
    requires from != []
    decreases |s|
  {
    if StartsWith(s, from) then to + Replace(s[|from|..], from, to)
    else if s == [] then []
    else [s[0]] + Replace(s[1..], from, to)
  }

  /** Text of `s` with no occurrence of `from` is left alone by `Replace`. */
  lemma {:induction false} ReplaceAbsent(s: string, from: string, to: string)
    requires from != []
    requires forall j :: 0 <= j <= |s| ==> !StartsWith(s[j..], from)
    ensures Replace(s, from, to) == s
    decreases |s|
  {
    assert s[0..] == s;
    if s != [] {
      forall j | 0 <= j <= |s[1..]|
        ensures !StartsWith(s[1..][j..], from)
      {
        assert s[1..][j..] == s[j + 1..];
      }
      ReplaceAbsent(s[1..], from, to);
    }
  }

  /** The index of the last occurrence of `c`, if any. */
  function LastIndexOf(s: string, c: char): (r: Option<nat>)
    ensures r.Some? ==> r.value < |s| && s[r.value] == c
    ensures r.Some? ==> forall j :: r.value < j < |s| ==> s[j] != c
    ensures r.None? ==> c !in s
  {
    if s == [] then None
    else if s[|s| - 1] == c then Some(|s| - 1)
    else LastIndexOf(s[..|s| - 1], c)
  }

  /** The last occurrence of `c` in `a + [c] + b`, when `b` has none, is the one between. */
  lemma {:induction false} LastIndexOfJoin(a: string, c: char, b: string)
    requires c !in b
    ensures LastIndexOf(a + [c] + b, c) == Some(|a|)
    decreases |b|
  {
    var s := a + [c] + b;
    if b != [] {
      var b' := b[..|b| - 1];
      assert s[|s| - 1] == b[|b| - 1];
      assert s[..|s| - 1] == a + [c] + b';
      assert forall x :: x in b' ==> x in b;
      LastIndexOfJoin(a, c, b');
    }
  }

  /** Replacing one character by another, position by position. */
  function ReplaceChar(s: string, from: char, to: char): (r: string)
    ensures |r| == |s|
    ensures forall i :: 0 <= i < |s| ==> r[i] == (if s[i] == from then to else s[i])
  {
    if s == [] then [] else [if s[0] == from then to else s[0]] + ReplaceChar(s[1..], from, to)
  }

  /** `str::replace` of a single character by a single character is a
      position-by-position substitution. */
  lemma {:induction false} ReplaceSingleChar(s: string, from: char, to: char)
    ensures Replace(s, [from], [to]) == ReplaceChar(s, from, to)
    decreases |s|
  {
    if s != [] {
      ReplaceSingleChar(s[1..], from, to);
      if s[0] == from {
        assert StartsWith(s, [from]);
        assert s[|[from]|..] == s[1..];
      } else {
        assert !StartsWith(s, [from]);
      }
    }
  }

  function Repeat(s: string, n: nat): (r: string)
    ensures |r| == |s| * n
  {
    if n == 0 then [] else s + Repeat(s, n - 1)
  }

  function Min(a: int, b: int): int { if a <= b then a else b }

  /** Concatenation regroups freely. */
  lemma AppendAssociative<T>(a: seq<T>, b: seq<T>, c: seq<T>)
    ensures (a + b) + c == a + (b + c)
  {
  }
}
