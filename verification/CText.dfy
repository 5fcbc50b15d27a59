/** C strings: what ends at a NUL, what `strtok` makes of separators, and white space. */
module CText {

  /** Everything before the first NUL, as C sees a string. */
  function CString(s: string): (c: string)
    ensures '\0' !in c && c <= s
  {
    if s == "" || s[0] == '\0' then "" else [s[0]] + CString(s[1..])
  }

  lemma {:induction false} CStringPrefix(s: string, d: string)
    requires |d| < |s| && s[..|d|] == d && s[|d|] == '\0'
    ensures CString(s) == CString(d)
  {
    if d != "" && d[0] != '\0' {
      assert s[1..][..|d| - 1] == d[1..];
      CStringPrefix(s[1..], d[1..]);
    }
  }

  lemma {:induction false} CStringWhole(s: string)
    requires '\0' !in s
    ensures CString(s) == s
  {
    if s != "" {
      CStringWhole(s[1..]);
    }
  }

  /** Length of the longest start of `s` made of separators, or free of them. */
  function Span(s: string, sep: char, seps: bool): (n: nat)
    ensures n <= |s| && forall i :: 0 <= i < n ==> (s[i] == sep) == seps
    ensures n < |s| ==> (s[n] == sep) != seps
  {
    if s == "" || (s[0] == sep) != seps then 0 else 1 + Span(s[1..], sep, seps)
  }

  /** The non-empty pieces between separators. */
  function Tokens(s: string, sep: char): (ts: seq<string>)
    ensures forall t :: t in ts ==> t != "" && sep !in t
    decreases |s|
  {
    var from := Span(s, sep, true);
    if from == |s| then []
    else
      var n := Span(s[from..], sep, false);
      [s[from..][..n]] + Tokens(s[from..][n..], sep)
  }

  /** One step of `strtok`: the token found is the next one of `all`, and the others remain. */
  lemma NextToken(all: seq<string>, done: nat, s: string, sep: char)
    requires done <= |all| && Tokens(s, sep) == all[done..]
    ensures var from := Span(s, sep, true);
      if from == |s| then done == |all|
      else
        var n := Span(s[from..], sep, false);
        done < |all| && all[done] == s[from..][..n] && all[done + 1..] == Tokens(s[from..][n..], sep)
  {
    hide Span;
    var from := Span(s, sep, true);
    if from < |s| {
      var n := Span(s[from..], sep, false);
      assert all[done..] == [s[from..][..n]] + Tokens(s[from..][n..], sep);
      assert all[done] == all[done..][0] && all[done + 1..] == all[done..][1..];
    }
  }

  lemma SpanExact(s: string, n: nat, sep: char, seps: bool)
    requires n <= |s| && forall i :: 0 <= i < n ==> (s[i] == sep) == seps
    requires n < |s| ==> (s[n] == sep) != seps
    ensures Span(s, sep, seps) == n
  {
  }

  /** A separator in front does not matter. */
  lemma TokensSkip(s: string, sep: char)
    ensures Tokens([sep] + s, sep) == Tokens(s, sep)
  {
    hide Span;
    var from := Span(s, sep, true);
    SpanExact([sep] + s, 1 + from, sep, true);
    assert ([sep] + s)[1 + from..] == s[from..];
  }

  /** A piece up to the end or the next separator is the first token. */
  lemma TokensFirst(t: string, rest: string, sep: char)
    requires t != "" && sep !in t && (rest == "" || rest[0] == sep)
    ensures Tokens(t + rest, sep) == [t] + Tokens(rest, sep)
  {
    hide Span;
    var s := t + rest;
    SpanExact(s, 0, sep, true);
    assert s[0..] == s;
    SpanExact(s, |t|, sep, false);
    assert s[..|t|] == t && s[|t|..] == rest;
  }

  /** `isspace` for the characters of the C locale. */
  predicate IsSpace(c: char) {
    c == ' ' || '\t' <= c <= '\r'
  }

  /** Leading white space is dropped. */
  function Trim(s: string): (t: string)
    ensures t == "" || !IsSpace(t[0])
    ensures (s == "" || !IsSpace(s[0])) ==> t == s
  {
    if s != "" && IsSpace(s[0]) then Trim(s[1..]) else s
  }

  /** All white space in front goes, and nothing else. */
  lemma {:induction false} TrimmedOff(white: string, s: string)
    requires (forall i :: 0 <= i < |white| ==> IsSpace(white[i])) && (s == "" || !IsSpace(s[0]))
    ensures Trim(white + s) == s
  {
    if white == "" {
      assert white + s == s;
    } else {
      assert (white + s)[1..] == white[1..] + s;
      TrimmedOff(white[1..], s);
    }
  }
}
