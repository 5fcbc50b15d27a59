/** Turning the path of a request into a local path that stays under the web directory. */
module Url {
  import opened CText
  import Decimal

  const MAX_URL_DEPTH: nat := 8

  // --- Decoding, in place ---

  predicate Escape(s: string, i: nat) {
    i + 2 < |s| && s[i] == '%' && Decimal.IsHexDigit(s[i + 1]) && Decimal.IsHexDigit(s[i + 2])
  }

  /** The text with each `+` read as a space and each `%nn` as the character it names. */
  function Decoded(s: string): (d: string)
    ensures |d| <= |s|
  {
    if s == "" then ""
    else if s[0] == '+' then " " + Decoded(s[1..])
    else if Escape(s, 0) then [(16 * Decimal.HexDigit(s[1]) + Decimal.HexDigit(s[2])) as char] + Decoded(s[3..])
    else [s[0]] + Decoded(s[1..])
  }

  predicate HexLetter(c: char) {
    c in "0123456789abcdefABCDEF"
  }

  /** The two ways to write a hexadecimal digit. */
  predicate Writes(c: char, n: nat) {
    n < 16 && (c == "0123456789abcdef"[n] || c == "0123456789ABCDEF"[n])
  }

  /** The two digits name the character. */
  ghost predicate Named(h: char, l: char, c: char) {
    exists p: nat, q: nat :: Writes(h, p) && Writes(l, q) && c as int == 16 * p + q
  }

  /** The first `n` characters of `e` stand for the character `c`: as itself, as `+` for a space, or as an escape. */
  ghost predicate Spelled(e: string, n: nat, c: char)
    requires 0 < n <= |e|
  {
    match n
    case 1 =>
      if e[0] == '+' then c == ' '
      else c == e[0] && !(c == '%' && |e| > 2 && HexLetter(e[1]) && HexLetter(e[2]))
    case 3 => e[0] == '%' && Named(e[1], e[2], c)
    case _ => false
  }

  /** `e` is a spelling of `s`. */
  ghost predicate Spells(e: string, s: string)
    decreases |s|
  {
    if s == "" then e == ""
    else exists n :: 0 < n <= |e| && Spelled(e, n, s[0]) && Spells(e[n..], s[1..])
  }

  lemma DigitWritten(c: char, n: nat)
    ensures Writes(c, n) <==> Decimal.IsHexDigit(c) && Decimal.HexDigit(c) == n
  {
    if n < 16 {
      assert "0123456789abcdef"[n] == if n < 10 then ('0' as int + n) as char else ('a' as int + n - 10) as char;
      assert "0123456789ABCDEF"[n] == if n < 10 then ('0' as int + n) as char else ('A' as int + n - 10) as char;
    }
  }

  lemma LetterIsDigit(c: char)
    ensures HexLetter(c) <==> Decimal.IsHexDigit(c)
  {
    if Decimal.IsHexDigit(c) {
      DigitWritten(c, Decimal.HexDigit(c));
    }
  }

  lemma NamedIs(h: char, l: char, c: char)
    ensures Named(h, l, c) <==> Decimal.IsHexDigit(h) && Decimal.IsHexDigit(l)
                                && c == (16 * Decimal.HexDigit(h) + Decimal.HexDigit(l)) as char
  {
    hide Decimal.HexDigit, Decimal.IsHexDigit, Writes;
    if Decimal.IsHexDigit(h) && Decimal.IsHexDigit(l) {
      DigitWritten(h, Decimal.HexDigit(h));
      DigitWritten(l, Decimal.HexDigit(l));
    }
    if p: nat, q: nat :| Writes(h, p) && Writes(l, q) && c as int == 16 * p + q {
      DigitWritten(h, p);
      DigitWritten(l, q);
    }
  }

  /** How the first character of a non-empty text is read. */
  lemma SpelledOnce(e: string, n: nat, c: char)
    requires e != "" && 0 < n <= |e|
    ensures Spelled(e, n, c) <==>
              if Escape(e, 0) then n == 3 && c == (16 * Decimal.HexDigit(e[1]) + Decimal.HexDigit(e[2])) as char
              else n == 1 && c == if e[0] == '+' then ' ' else e[0]
  {
    hide Decimal.HexDigit, Decimal.IsHexDigit, Named, HexLetter;
    if |e| > 2 {
      LetterIsDigit(e[1]);
      LetterIsDigit(e[2]);
      NamedIs(e[1], e[2], c);
    }
  }

  /** A text decodes to what it is a spelling of, and to nothing else. */
  lemma {:induction false} SpellsDecoded(e: string, s: string)
    ensures Spells(e, s) <==> s == Decoded(e)
    decreases |s|
  {
    hide Decoded, Spelled, Decimal.HexDigit, Escape;
    if e == "" {
      DecodedEmpty();
    } else {
      var n := if Escape(e, 0) then 3 else 1;
      EscapeFits(e);
      DecodedStep(e, 0);
      assert e[0..] == e;
      if s == "" {
      } else {
        forall k | 0 < k <= |e| ensures Spelled(e, k, s[0]) ==> k == n {
          SpelledOnce(e, k, s[0]);
        }
        SpelledOnce(e, n, s[0]);
        SpellsDecoded(e[n..], s[1..]);
      }
    }
  }

  lemma EscapeFits(e: string)
    ensures Escape(e, 0) ==> |e| >= 3 && e[0] == '%'
  {
  }

  lemma DecodedStep(s: string, i: nat)
    requires i < |s|
    ensures s[i] == '+' ==> Decoded(s[i..]) == [' '] + Decoded(s[i + 1..])
    ensures Escape(s, i) ==>
              Decoded(s[i..]) == [(16 * Decimal.HexDigit(s[i + 1]) + Decimal.HexDigit(s[i + 2])) as char] + Decoded(s[i + 3..])
    ensures s[i] != '+' && !Escape(s, i) ==> Decoded(s[i..]) == [s[i]] + Decoded(s[i + 1..])
  {
    assert s[i..][1..] == s[i + 1..];
    assert Escape(s[i..], 0) == Escape(s, i);
    if Escape(s, i) {
      assert s[i..][3..] == s[i + 3..];
    }
  }

  lemma Extended(a: string, c: char, d: string)
    ensures (a + [c]) + d == a + ([c] + d)
  {
  }

  /** A text spelled with an escape for every character that is not kept, each digit in the case asked for. */
  function Encoded(s: string, keep: set<char>, capitals: nat -> (bool, bool)): (e: string)
    requires forall i :: 0 <= i < |s| ==> s[i] as int < 256
  {
    if s == "" then ""
    else
      var c := s[0] as int;
      var (upper, lower) := capitals(|s|);
      (if s[0] in keep && s[0] != '+' && s[0] != '%' then [s[0]]
       else ['%', HexChar(c / 16, upper), HexChar(c % 16, lower)])
      + Encoded(s[1..], keep, capitals)
  }

  function HexChar(n: nat, capital: bool): (c: char)
    requires n < 16
    ensures Writes(c, n)
  {
    if capital then "0123456789ABCDEF"[n] else "0123456789abcdef"[n]
  }

  /** However a text is spelled, decoding gives it back. */
  lemma {:induction false} EncodedDecodes(s: string, keep: set<char>, capitals: nat -> (bool, bool))
    requires forall i :: 0 <= i < |s| ==> s[i] as int < 256
    ensures Decoded(Encoded(s, keep, capitals)) == s
  {
    hide Decoded, Writes;
    var e := Encoded(s, keep, capitals);
    if s == "" {
      DecodedEmpty();
    } else {
      EncodedDecodes(s[1..], keep, capitals);
      var rest := Encoded(s[1..], keep, capitals);
      SpellsDecoded(rest, s[1..]);
      if s[0] in keep && s[0] != '+' && s[0] != '%' {
        assert e[1..] == rest && Spelled(e, 1, s[0]);
      } else {
        assert e[3..] == rest && Spelled(e, 3, s[0]);
      }
      SpellsDecoded(e, s);
    }
  }

  /** Decodes the text at the start of `buf` over itself; the write position never passes the read position. */
  method DecodeUrl(buf: array<char>, len: nat)
    requires len < buf.Length && buf[len] == '\0' && '\0' !in buf[..len]
    modifies buf
    ensures var d := Decoded(old(buf[..len])); buf[..|d|] == d && buf[|d|] == '\0'
  {
    hide Decoded, Decimal.HexDigit;
    ghost var s := buf[..len];
    var ip, op := 0, 0;
    assert s[0..] == s && [] + Decoded(s) == Decoded(s);
    while ip < len
      invariant op <= ip <= len && buf[len] == '\0'
      invariant forall k :: ip <= k < len ==> buf[k] == s[k]
      invariant Decoded(s) == buf[..op] + Decoded(s[ip..])
    {
      DecodedStep(s, ip);
      ghost var done := buf[..op];
      var from := ip;
      if buf[ip] == '+' {
        buf[op] := ' ';
        ip := ip + 1;
      } else if Escaped(buf, ip, len) {
        buf[op] := (16 * Decimal.HexDigit(buf[ip + 1]) + Decimal.HexDigit(buf[ip + 2])) as char;
        ip := ip + 3;
      } else {
        buf[op] := buf[ip];
        ip := ip + 1;
      }
      assert buf[..op + 1] == done + [buf[op]];
      Extended(done, buf[op], Decoded(s[ip..]));
      op := op + 1;
    }
    assert s[ip..] == [];
    DecodedEmpty();
    buf[op] := '\0';
  }

  lemma DecodedEmpty()
    ensures Decoded("") == ""
  {
  }

  /** Whether `%nn` stands at `i`; the terminating NUL is no digit, so nothing beyond it is read. */
  predicate Escaped(buf: array<char>, i: nat, len: nat)
    requires i < len < buf.Length && buf[len] == '\0'
    reads buf
    ensures Escaped(buf, i, len) <==>
              i + 2 < len && buf[i] == '%' && Decimal.IsHexDigit(buf[i + 1]) && Decimal.IsHexDigit(buf[i + 2])
  {
    buf[i] == '%' && Decimal.IsHexDigit(buf[i + 1]) && Decimal.IsHexDigit(buf[i + 2])
  }

  // --- Segments ---

  function Slashes(s: string): (t: string)
    ensures |t| == |s|
  {
    seq(|s|, i requires 0 <= i < |s| => if s[i] == '\\' then '/' else s[i])
  }

  function Segments(s: string): (ts: seq<string>)
    ensures forall t :: t in ts ==> t != "" && '/' !in t
  {
    Tokens(s, '/')
  }

  /** A segment is skipped, pops the last one if there is one, or is pushed. */
  function Apply(stack: seq<string>, t: string): seq<string> {
    if t == ".." then (if stack == [] then [] else stack[..|stack| - 1])
    else if t == "." then stack
    else stack + [t]
  }

  function Resolve(ts: seq<string>): seq<string> {
    if ts == [] then [] else Apply(Resolve(ts[..|ts| - 1]), ts[|ts| - 1])
  }

  /** Some segment, of whatever kind, arrives when the stack is already full. */
  predicate TooDeep(ts: seq<string>) {
    exists i :: 0 <= i < |ts| && |Resolve(ts[..i])| >= MAX_URL_DEPTH
  }

  function Joined(stack: seq<string>): string {
    if stack == [] then "" else Joined(stack[..|stack| - 1]) + "/" + stack[|stack| - 1]
  }

  lemma Applied(stack: seq<string>, t: string)
    ensures forall s :: s in Apply(stack, t) ==> s in stack || (s == t && t != "." && t != "..")
  {
  }

  /** The segments left are real names: none climbs, none stays put, none spans a slash. */
  lemma {:induction false} ResolvedClean(ts: seq<string>)
    requires forall t :: t in ts ==> t != "" && '/' !in t
    ensures forall t :: t in Resolve(ts) ==> t in ts && t != "." && t != ".." && t != "" && '/' !in t
  {
    if ts != [] {
      var init, last := ts[..|ts| - 1], ts[|ts| - 1];
      assert forall t :: t in init ==> t in ts;
      ResolvedClean(init);
      assert last in ts;
      Applied(Resolve(init), last);
    }
  }

  lemma ResolveLast(ts: seq<string>, t: string)
    ensures Resolve(ts + [t]) == Apply(Resolve(ts), t)
  {
    assert (ts + [t])[..|ts|] == ts;
  }

  /** Only what earlier segments resolve to matters for later ones. */
  lemma {:induction false} ResolveCongruent(a: seq<string>, a': seq<string>, b: seq<string>)
    requires Resolve(a) == Resolve(a')
    ensures Resolve(a + b) == Resolve(a' + b)
  {
    hide Resolve;
    if b == [] {
      assert a + b == a && a' + b == a';
    } else {
      var init, last := b[..|b| - 1], b[|b| - 1];
      ResolveCongruent(a, a', init);
      assert a + b == (a + init) + [last] && a' + b == (a' + init) + [last];
      ResolveLast(a + init, last);
      ResolveLast(a' + init, last);
    }
  }

  /** A climb undoes the name before it, wherever they stand; with nothing before it, it is lost. */
  lemma ClimbCancels(a: seq<string>, name: string, b: seq<string>)
    requires name != "." && name != ".."
    ensures Resolve(a + [name] + [".."] + b) == Resolve(a + b)
    ensures Resolve([".."] + b) == Resolve(b)
  {
    hide Resolve;
    ResolveLast(a + [name], "..");
    ResolveLast(a, name);
    ResolveCongruent(a + [name] + [".."], a, b);
    assert [".."] == [] + [".."] && [] + b == b;
    ResolveLast([], "..");
    ResolveEmpty();
    ResolveCongruent([".."], [], b);
  }

  lemma ResolveEmpty()
    ensures Resolve([]) == []
  {
  }

  ghost predicate Names(ts: seq<string>) {
    forall t :: t in ts ==> t != "." && t != ".." && t != "" && '/' !in t
  }

  /** Real names resolve to themselves. */
  lemma {:induction false} NamesResolved(ts: seq<string>)
    requires Names(ts)
    ensures Resolve(ts) == ts
  {
    if ts != [] {
      var init := ts[..|ts| - 1];
      assert forall t :: t in init ==> t in ts;
      NamesResolved(init);
      assert ts[|ts| - 1] in ts && ts == init + [ts[|ts| - 1]];
    }
  }

  lemma {:induction false} JoinedFront(h: string, tail: seq<string>)
    ensures Joined([h] + tail) == "/" + h + Joined(tail)
  {
    var all := [h] + tail;
    if tail == [] {
      assert all[..0] == [];
    } else {
      assert all[..|all| - 1] == [h] + tail[..|tail| - 1];
      JoinedFront(h, tail[..|tail| - 1]);
    }
  }

  lemma JoinedStarts(stack: seq<string>)
    ensures stack == [] ==> Joined(stack) == ""
    ensures stack != [] ==> Joined(stack) != "" && Joined(stack)[0] == '/'
  {
    if stack != [] {
      assert stack == [stack[0]] + stack[1..];
      JoinedFront(stack[0], stack[1..]);
    }
  }

  /** Splitting undoes joining. */
  lemma {:induction false} JoinedSegments(stack: seq<string>)
    requires Names(stack)
    ensures Segments(Joined(stack)) == stack
  {
    hide Joined, Tokens;
    JoinedStarts(stack);
    if stack == [] {
      NoSegments();
    } else {
      var h, tail := stack[0], stack[1..];
      assert stack == [h] + tail && h in stack;
      assert forall t :: t in tail ==> t in stack;
      JoinedFront(h, tail);
      JoinedSegments(tail);
      JoinedStarts(tail);
      TokensSkip(h + Joined(tail), '/');
      TokensFirst(h, Joined(tail), '/');
      assert Joined(stack) == ['/'] + (h + Joined(tail));
    }
  }

  lemma NoSegments()
    ensures Segments("") == []
  {
  }

  /** What `strtok` leaves of the path: it is cut behind its first token. */
  function CutAfterFirst(s: string): string {
    var from := Span(s, '/', true);
    s[..from + Span(s[from..], '/', false)]
  }

  /** The cut path is just a slash, or nothing, only if the whole path was. */
  lemma CutKeepsRoot(s: string)
    ensures CutAfterFirst(s) == "/" <==> s == "/"
    ensures CutAfterFirst(s) == "" <==> s == ""
  {
    var from := Span(s, '/', true);
    if from == |s| {
      assert CutAfterFirst(s) == s;
    }
  }

  datatype Local = Refused | Path(path: string)

  /** The specification: segments resolved on a stack under `dir`, if there is anything to name. */
  function LocalPath(dir: string, path: string): Local {
    var p := Slashes(CString(Decoded(path)));
    var stack := Resolve(Segments(p));
    if dir == "" || TooDeep(Segments(p)) || (stack == [] && p != "/" && p != "") then Refused
    else Path(dir + Joined(stack))
  }

  /**
   * A path that is accepted lies under `dir`: what follows `dir` splits into at most 8 real names, all taken
   * from the request, and they are in normal form, so going through the fold again changes nothing.
   */
  lemma StaysInside(dir: string, path: string)
    ensures var local := LocalPath(dir, path);
            local.Path? ==>
              && dir <= local.path
              && var names := Segments(local.path[|dir|..]);
                 && Names(names)
                 && |names| <= MAX_URL_DEPTH
                 && Resolve(names) == names == Resolve(Segments(Slashes(CString(Decoded(path)))))
                 && forall t :: t in names ==> t in Segments(Slashes(CString(Decoded(path))))
  {
    hide Segments, Slashes, CString, Decoded, Resolve, Joined;
    if LocalPath(dir, path).Path? {
      var ts := Segments(Slashes(CString(Decoded(path))));
      var stack := Resolve(ts);
      ResolvedClean(ts);
      JoinedSegments(stack);
      NamesResolved(stack);
      assert (dir + Joined(stack))[|dir|..] == Joined(stack);
      DepthKept(ts);
    }
  }

  lemma DepthKept(ts: seq<string>)
    requires !TooDeep(ts)
    ensures |Resolve(ts)| <= MAX_URL_DEPTH
  {
    if ts != [] {
      assert |Resolve(ts[..|ts| - 1])| < MAX_URL_DEPTH;
    }
  }

  // --- What is accepted ---

  predicate Separator(c: char) {
    c == '/' || c == '\\'
  }

  predicate Run(s: string) {
    forall i :: 0 <= i < |s| ==> Separator(s[i])
  }

  /** The text is these names in order, with separators of either kind between and around them. */
  ghost predicate Between(text: string, names: seq<string>)
    decreases |names|
  {
    if names == [] then Run(text)
    else
      exists i: nat, j: nat {:trigger text[i..j]} ::
        && i <= j <= |text| && Run(text[..i]) && text[i..j] == names[0]
        && (j == |text| || Separator(text[j])) && Between(text[j..], names[1..])
  }

  /** Names of files or directories. */
  predicate Real(names: seq<string>) {
    forall t :: t in names ==> t != "" && t != "." && t != ".." && '/' !in t && '\\' !in t
  }

  /** The request, decoded and read up to a NUL, is for these names under the web directory. */
  ghost predicate Asks(path: string, names: seq<string>) {
    exists text :: Spells(path, text) && Between(CString(text), names)
  }

  lemma {:induction false} TokensRun(r: string, s: string)
    requires forall i :: 0 <= i < |r| ==> r[i] == '/'
    ensures Tokens(r + s, '/') == Tokens(s, '/')
  {
    hide Tokens;
    if r == "" {
      assert r + s == s;
    } else {
      TokensRun(r[1..], s);
      assert r + s == ['/'] + (r[1..] + s);
      TokensSkip(r[1..] + s, '/');
    }
  }

  lemma SlashesParts(s: string, i: nat, j: nat)
    requires i <= j <= |s| && '\\' !in s[i..j]
    ensures Slashes(s) == Slashes(s[..i]) + (s[i..j] + Slashes(s[j..]))
  {
    forall k | i <= k < j ensures Slashes(s)[k] == s[i..j][k - i] {
      assert s[i..j][k - i] in s[i..j];
    }
  }

  lemma FirstName(text: string, names: seq<string>) returns (i: nat, j: nat)
    requires names != [] && Between(text, names)
    ensures i <= j <= |text| && Run(text[..i]) && text[i..j] == names[0]
    ensures (j == |text| || Separator(text[j])) && Between(text[j..], names[1..])
  {
    i, j :| i <= j <= |text| && Run(text[..i]) && text[i..j] == names[0]
      && (j == |text| || Separator(text[j])) && Between(text[j..], names[1..]);
  }

  lemma RealFirst(names: seq<string>)
    requires names != [] && Real(names)
    ensures names[0] != "" && '/' !in names[0] && '\\' !in names[0] && Real(names[1..])
  {
    assert names[0] in names && forall t :: t in names[1..] ==> t in names;
  }

  /** Splitting finds the names. */
  lemma {:induction false} NamesFound(text: string, names: seq<string>)
    requires Between(text, names) && Real(names)
    ensures Segments(Slashes(text)) == names
    decreases |names|
  {
    hide Tokens, Slashes, Between, Real, Run, Separator;
    if names == [] {
      NoNames(text);
    } else {
      var i, j := FirstName(text, names);
      RealFirst(names);
      NamesFound(text[j..], names[1..]);
      SlashesParts(text, i, j);
      SlashesRun(text[..i]);
      SlashesHead(text[j..]);
      TokensRun(Slashes(text[..i]), names[0] + Slashes(text[j..]));
      TokensFirst(names[0], Slashes(text[j..]), '/');
      assert names == [names[0]] + names[1..];
    }
  }

  lemma NoNames(text: string)
    requires Between(text, [])
    ensures Segments(Slashes(text)) == []
  {
    hide Tokens, Slashes;
    SlashesRun(text);
    assert Slashes(text) == Slashes(text) + [];
    TokensRun(Slashes(text), []);
    NoSegments();
  }

  lemma SlashesRun(s: string)
    requires Run(s)
    ensures forall i :: 0 <= i < |s| ==> Slashes(s)[i] == '/'
  {
  }

  lemma SlashesHead(s: string)
    ensures s == "" ==> Slashes(s) == ""
    ensures s != "" && Separator(s[0]) ==> Slashes(s)[0] == '/'
  {
  }

  lemma NotDeep(names: seq<string>)
    requires Real(names) && |names| <= 8
    ensures !TooDeep(names) && Resolve(names) == names
  {
    hide Resolve;
    forall i | 0 <= i <= |names| ensures Resolve(names[..i]) == names[..i] {
      assert forall t :: t in names[..i] ==> t in names;
      NamesResolved(names[..i]);
    }
    assert names[..|names|] == names;
  }

  /** Names asked for are where the request leads. */
  lemma AskedFound(dir: string, path: string, names: seq<string>)
    requires dir != "" && 0 < |names| <= 8 && Real(names) && Asks(path, names)
    ensures LocalPath(dir, path) == Path(dir + Joined(names))
  {
    hide Segments, Slashes, CString, Decoded, Resolve, Joined, Between, TooDeep;
    var text :| Spells(path, text) && Between(CString(text), names);
    SpellsDecoded(path, text);
    NamesFound(CString(text), names);
    NotDeep(names);
  }

  lemma RootFound(dir: string, path: string)
    requires dir != "" && (path == "/" || path == "")
    ensures LocalPath(dir, path) == Path(dir)
  {
    assert Decoded(path) == path;
    assert CString(path) == path && Slashes(path) == path;
    assert Segments(path) == [];
    assert dir + "" == dir;
  }

  lemma Taken(all: seq<string>, k: nat)
    requires k < |all|
    ensures Resolve(all[..k + 1]) == Apply(Resolve(all[..k]), all[k])
  {
    assert all[..k + 1][..k] == all[..k];
  }

  function Asked(path: string): seq<string> {
    Segments(Slashes(CString(Decoded(path))))
  }

  /** Every list of at most 8 names asked for is where the request leads. */
  ghost predicate LeadsTo(dir: string, path: string, local: Local) {
    forall names :: dir != "" && 0 < |names| <= 8 && Real(names) && Asks(path, names) ==> local == Path(dir + Joined(names))
  }

  /** Some segment finds 8 names on the stack. */
  ghost predicate Overfull(path: string) {
    exists i :: 0 <= i < |Asked(path)| && |Resolve(Asked(path)[..i])| >= 8
  }

  /** No name remains of a request that is neither empty nor a slash. */
  ghost predicate Nothing(path: string) {
    Resolve(Asked(path)) == [] && Slashes(CString(Decoded(path))) !in ["", "/"]
  }

  lemma LocalLaws(dir: string, path: string)
    ensures dir != "" && (path == "/" || path == "") ==> LocalPath(dir, path) == Path(dir)
    ensures LeadsTo(dir, path, LocalPath(dir, path))
    ensures LocalPath(dir, path) == Refused <==> dir == "" || Overfull(path) || Nothing(path)
  {
    hide Resolve, Segments, Joined, CString, Decoded, Slashes, Asks;
    forall names | dir != "" && 0 < |names| <= 8 && Real(names) && Asks(path, names)
      ensures LocalPath(dir, path) == Path(dir + Joined(names))
    {
      AskedFound(dir, path, names);
    }
    if dir != "" && (path == "/" || path == "") {
      RootFound(dir, path);
    }
  }

  /** The token loop: either some token finds the stack full, or the slots hold the resolved stack. */
  method FoldSegments(p: string, parts: array<string>) returns (ok: bool, npart: nat, len: nat)
    requires parts.Length == MAX_URL_DEPTH
    modifies parts
    ensures ok <==> !TooDeep(Segments(p))
    ensures ok ==> npart <= MAX_URL_DEPTH && parts[..npart] == Resolve(Segments(p))
    ensures ok ==> |Joined(parts[..npart])| <= len
  {
    hide Resolve, Span, Joined, Tokens;
    ghost var all := Segments(p);
    ghost var done := 0;
    npart, len := 0, 0;
    var rest := p;
    StackEmpty();
    assert all[..0] == [] && all[0..] == all;
    var from := Span(rest, '/', true);
    while from < |rest|
      invariant from == Span(rest, '/', true) && done <= |all| && Segments(rest) == all[done..]
      invariant npart <= MAX_URL_DEPTH && parts[..npart] == Resolve(all[..done])
      invariant forall i :: 0 <= i < done ==> |Resolve(all[..i])| < MAX_URL_DEPTH
      invariant |Joined(parts[..npart])| <= len
      decreases |rest|
    {
      var n := Span(rest[from..], '/', false);
      var token := rest[from..][..n];
      NextToken(all, done, rest, '/');
      rest := rest[from..][n..];
      Taken(all, done);
      if npart >= MAX_URL_DEPTH {
        ok := false;
        return;
      }
      npart, len := PushSegment(parts, npart, len, token);
      done := done + 1;
      from := Span(rest, '/', true);
    }
    NextToken(all, done, rest, '/');
    assert all[..done] == all;
    ok := true;
  }

  lemma StackEmpty()
    ensures Resolve([]) == [] && Joined([]) == ""
  {
  }

  lemma JoinedPop(stack: seq<string>)
    requires stack != []
    ensures |Joined(stack)| == |Joined(stack[..|stack| - 1])| + 1 + |stack[|stack| - 1]|
  {
  }

  /** One token against the slots. */
  method PushSegment(parts: array<string>, npart: nat, len: nat, token: string) returns (npart': nat, len': nat)
    requires npart < parts.Length == MAX_URL_DEPTH && |Joined(parts[..npart])| <= len
    modifies parts
    ensures npart' <= MAX_URL_DEPTH && parts[..npart'] == Apply(old(parts[..npart]), token)
    ensures |Joined(parts[..npart'])| <= len'
  {
    hide Joined;
    npart', len' := npart, len;
    if token == ".." {
      if npart > 0 {
        npart' := npart - 1;
        JoinedPop(parts[..npart]);
        assert parts[..npart][..npart - 1] == parts[..npart'];
      }
    } else if token != "." {
      parts[npart] := token;
      len' := len + |token| + 1;
      npart' := npart + 1;
      JoinedPop(parts[..npart']);
      assert parts[..npart'][..npart] == parts[..npart] == old(parts[..npart]);
    }
  }

  /** The buffer of `|dir| + 1 + len + 1` characters receives the directory, then each slot behind a slash. */
  method BuildPath(dir: string, parts: array<string>, npart: nat, len: nat) returns (lpath: array<char>, end: nat)
    requires npart <= parts.Length && |Joined(parts[..npart])| <= len
    ensures lpath.Length == |dir| + 1 + len + 1 && end == |dir| + |Joined(parts[..npart])| < lpath.Length
    ensures lpath[..end] == dir + Joined(parts[..npart]) && lpath[end] == '\0'
  {
    hide Joined;
    lpath := new char[|dir| + 1 + len + 1](_ => '\0');
    end := 0;
    StackEmpty();
    end := Append(lpath, end, dir);
    assert lpath[..end] == dir == dir + Joined(parts[..0]);
    var i := 0;
    while i < npart
      invariant i <= npart && fresh(lpath)
      invariant end == |dir| + |Joined(parts[..i])| < lpath.Length
      invariant lpath[..end] == dir + Joined(parts[..i]) && lpath[end] == '\0'
    {
      JoinedFits(parts[..npart], i + 1);
      assert parts[..npart][..i + 1] == parts[..i + 1] && parts[..i + 1][..i] == parts[..i];
      JoinedPush(parts[..i + 1]);
      end := Append(lpath, end, "/");
      end := Append(lpath, end, parts[i]);
      i := i + 1;
    }
  }

  lemma JoinedPush(stack: seq<string>)
    requires stack != []
    ensures Joined(stack) == Joined(stack[..|stack| - 1]) + "/" + stack[|stack| - 1]
  {
  }

  lemma {:induction false} JoinedFits(stack: seq<string>, k: nat)
    requires k <= |stack|
    ensures |Joined(stack[..k])| <= |Joined(stack)|
  {
    if k < |stack| {
      var init := stack[..|stack| - 1];
      assert init[..k] == stack[..k];
      JoinedFits(init, k);
    } else {
      assert stack[..k] == stack;
    }
  }

  /** `strcat` at a known end: the text overwrites the terminator and brings its own. */
  method Append(buf: array<char>, end: nat, s: string) returns (end': nat)
    requires end + |s| < buf.Length
    modifies buf
    ensures end' == end + |s| && buf[end'] == '\0'
    ensures buf[..end'] == old(buf[..end]) + s
  {
    for k := 0 to |s|
      invariant buf[..end + k] == old(buf[..end]) + s[..k]
    {
      buf[end + k] := s[k];
      assert buf[..end + k + 1] == buf[..end + k] + [s[k]];
    }
    end' := end + |s|;
    buf[end'] := '\0';
    assert s[..|s|] == s;
  }

  /**
   The whole check: decoding, cutting at a NUL, turning backslashes, folding,
   building. A request for at most 8 names, however spelled, leads to them under the
   directory; it is refused only if some segment finds 8 names on the stack, or if
   nothing remains of it though it was more than a slash.
   */
  method ValidateUrl(dir: string, path: string) returns (local: Local)
    requires '\0' !in path
    ensures local == LocalPath(dir, path)
    ensures dir != "" && (path == "/" || path == "") ==> local == Path(dir)
    ensures LeadsTo(dir, path, local)
    ensures local == Refused <==> dir == "" || Overfull(path) || Nothing(path)
  {
    hide LeadsTo, Overfull, Nothing, LocalPath;
    LocalLaws(dir, path);
    local := LocalName(dir, path);
  }

  method LocalName(dir: string, path: string) returns (local: Local)
    requires '\0' !in path
    ensures local == LocalPath(dir, path)
  {
    hide Resolve, Segments, TooDeep, Joined, CutAfterFirst, CString, Decoded, Slashes;
    if dir == "" {
      return Refused;
    }
    var buf := new char[|path| + 1](i requires 0 <= i <= |path| => if i < |path| then path[i] else '\0');
    assert buf[..|path|] == path;
    DecodeUrl(buf, |path|);
    var p := Slashes(CString(buf[..]));
    CStringPrefix(buf[..], Decoded(path));
    var parts := new string[MAX_URL_DEPTH];
    var ok, npart, len := FoldSegments(p, parts);
    if !ok {
      return Refused;
    }
    CutKeepsRoot(p);
    var left := CutAfterFirst(p);
    if npart > 0 || left == "/" || left == "" {
      var lpath, end := BuildPath(dir, parts, npart, len);
      local := Path(lpath[..end]);
    } else {
      local := Refused;
    }
  }
}
