/** What the simplest statements do: their effect when executing, and none when only skipped. */
module EjRuns {
  import opened Ej
  import opened EjSkip

  /** A literal with a token behind it that ends the expression. */
  ghost predicate LiteralThen(m: Machine, v: string, t: Token) {
    && m.input.putBack == None && |m.input.script| >= 2
    && m.input.script[0] == Other(Token(LITERAL, v)) && m.input.script[1] == Other(t)
    && t.tid in {RPAREN, SEMI}
  }

  /** The machine once the literal is the result and the token behind it has been put back. */
  function LiteralRead(m: Machine, v: string, t: Token): Machine
    requires |m.input.script| >= 2
  {
    m.(result := v, input := Input(m.input.script[2..], Some(t)))
  }

  lemma TermRead(env: Env, m: Machine, v: string, t: Token, exe: bool, fuel: nat)
    requires LiteralThen(m, v, t) && fuel > 0
    ensures Parse(env, m, Expr, exe, fuel) == Out(Advanced(m).(result := v), ExprDone)
  {
    hide ParseId, ParseFunction, ParseIf, ParseFor, ParseParens, ParseBlock;
    assert Opened(env, Advanced(m), Token(LITERAL, v), Expr, exe, fuel - 1)
        == Finished(Advanced(m).(result := v), Expr);
  }

  /** An expression that is a literal. */
  lemma LiteralParsed(env: Env, m: Machine, v: string, t: Token, exe: bool, fuel: nat)
    requires |m.input.script| >= 2 && LiteralThen(m, v, t) && fuel > 1
    ensures Parse(env, m, RelExp, exe, fuel) == Out(LiteralRead(m, v, t), RelExpDone)
  {
    hide Parse;
    var m0 := m.(result := "");
    TermRead(env, m0, v, t, exe, fuel - 1);
    ExprIsRelExp(env, m, exe, fuel);
    assert Combined(env.evalExpr, Advanced(m0).(result := v), "", "") == Some(Advanced(m0).(result := v));
  }

  lemma ExprIsRelExp(env: Env, m: Machine, exe: bool, fuel: nat)
    ensures Parse(env, m, RelExp, exe, fuel) == ParseExpr(env, m.(result := ""), exe, ERR, "", "", fuel)
  {
    hide ParseExpr;
  }

  /** The single argument of a call. */
  lemma ArgumentParsed(env: Env, m: Machine, v: string, exe: bool, fuel: nat)
    requires |m.input.script| >= 2 && LiteralThen(m, v, Token(RPAREN, ")")) && fuel > 2
    ensures ParseArgs(env, m, exe, [], fuel) == (Out(LiteralRead(m, v, Token(RPAREN, ")")), ArgListDone), [v])
  {
    hide Parse, LiteralThen, Next, Advanced, PutBack, LiteralRead;
    var t := Token(RPAREN, ")");
    LiteralParsed(env, m, v, t, exe, fuel - 1);
    BracketPutBack(m, v, t);
    var args: seq<string> := [];
    assert args + [v] == [v];
  }

  lemma BracketPutBack(m: Machine, v: string, t: Token)
    requires |m.input.script| >= 2 && LiteralThen(m, v, t)
    ensures var o := LiteralRead(m, v, t);
      Next(o, RelExpDone) == t && PutBack(Advanced(o), t) == o && o.result == v
  {
  }

  /** `f(v);` calls the function once with that argument when executing, and otherwise does nothing. */
  lemma CallRuns(env: Env, m: Machine, f: string, v: string, rest: seq<Lexeme>, exe: bool, fuel: nat)
    requires fuel > 3 && m.input == Input([Other(Token(LPAREN, "(")), Other(Token(LITERAL, v)), Other(Token(RPAREN, ")")),
                                           Other(Token(SEMI, ";"))] + rest, None)
    ensures var o := ParseFunction(env, m, Stmt, exe, f, fuel);
      var e := env.call(f, [v], m.vars);
      if !exe then o.st == StmtDone && Untouched(m, o.m)
      else
        && o.m.calls == m.calls + [CallRecord(f, [v])] && o.m.vars == e.vars
        && o.st == (if e.rc < 0 then Err else StmtDone)
  {
    hide ParseArgs, SkipNewlines, Parse;
    var m1 := Advanced(m.(result := ""));
    var s := m.input.script;
    assert s[1..][0] == s[1] && s[1..][1] == s[2] && s[1..][2..] == s[3..];
    ArgumentParsed(env, m1, v, exe, fuel);
    var m2 := LiteralRead(m1, v, Token(RPAREN, ")"));
    assert m2.input.script == [Other(Token(SEMI, ";"))] + rest;
    var m3 := if exe then Called(env, m2, f, [v]).0 else m2;
    SemicolonEnds(Advanced(m3), rest);
  }

  /** A statement that ends in `;`. */
  lemma SemicolonEnds(m: Machine, rest: seq<Lexeme>)
    requires m.input == Input([Other(Token(SEMI, ";"))] + rest, None)
    ensures Finished(m, Stmt).st == StmtDone && Untouched(m, Finished(m, Stmt).m)
  {
    NewlinesTouchNothing(Advanced(m), Stmt);
    hide SkipNewlines;
  }

  lemma {:induction false} NewlinesTouchNothing(m: Machine, st: State)
    ensures Untouched(m, SkipNewlines(m, st))
    decreases Left(m)
  {
    hide Next;
    if Next(m, st).tid == NEWLINE && Left(m) > 0 {
      NewlinesTouchNothing(Advanced(m), st);
    }
  }

  /** `x = v;` gives the variable that value when executing, and otherwise does nothing. */
  lemma AssignmentRuns(env: Env, m: Machine, x: string, v: string, rest: seq<Lexeme>, exe: bool, fuel: nat)
    requires fuel > 1 && |m.vars| > 0
    requires m.input == Input([Other(Token(ASSIGNMENT, "")), Other(Token(LITERAL, v)), Other(Token(SEMI, ";"))] + rest, None)
    ensures var o := ParseId(env, m, Stmt, exe, x, fuel);
      && o.st == StmtDone && o.m.calls == m.calls
      && (!exe ==> o.m.vars == m.vars)
      && (exe ==> FrameOf(o.m.vars, x) >= 0 && ValueOf(o.m.vars, x) == v && OthersKept(m.vars, o.m.vars, x))
  {
    hide SkipNewlines, ParseStmt, Parse, Assigned, Finished, OthersKept, FrameOf, ValueOf;
    var m1 := Advanced(m);
    var s := m.input.script;
    var semi := Token(SEMI, ";");
    assert s[1..][0] == s[1] && s[1..][1] == s[2] && s[1..][2..] == s[3..];
    LiteralParsed(env, m1, v, semi, exe, fuel);
    var m2 := LiteralRead(m1, v, semi);
    assert m2.input == Input(rest, Some(semi));
    AssignedReads(m2, x);
    PutBackEnds(if exe then Assigned(m2, x) else m2);
  }

  lemma PutBackEnds(m: Machine)
    requires m.input.putBack == Some(Token(SEMI, ";"))
    ensures Finished(m, Stmt).st == StmtDone && Untouched(m, Finished(m, Stmt).m)
  {
    NewlinesTouchNothing(Advanced(m), Stmt);
    hide SkipNewlines;
  }

  /** Every variable but `x` has the value it had, in every frame. */
  ghost predicate OthersKept(vars: Vars, vars': Vars, x: string) {
    && |vars'| == |vars|
    && forall i :: 0 <= i < |vars| ==> vars'[i] - {x} == vars[i] - {x}
  }

  /** What is assigned is what is read next, and no other variable changes. */
  lemma AssignedReads(m: Machine, x: string)
    requires |m.vars| > 0
    ensures var m' := Assigned(m, x);
      && m'.input == m.input && m'.calls == m.calls
      && FrameOf(m'.vars, x) >= 0 && ValueOf(m'.vars, x) == m.result && OthersKept(m.vars, m'.vars, x)
  {
  }
}
