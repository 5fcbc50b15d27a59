/** What the interpreter leaves untouched while it only skips. */
module EjSkip {
  import opened Ej

  /** No declaration stands in what is still to be read. */
  predicate NoVar(input: Input) {
    && (input.putBack.Some? ==> input.putBack.value.tid != VAR)
    && forall i :: 0 <= i < |input.script| ==> NotVar(input.script[i])
  }

  predicate NotVar(w: Lexeme) {
    match w
    case Word(text, _) => text != "var"
    case Other(token) => token.tid != VAR
  }

  /** No function was called and no variable changed. */
  ghost predicate Untouched(m: Machine, m': Machine) {
    m'.vars == m.vars && m'.calls == m.calls
  }

  /** Still no declaration is ahead, and unless executing, nothing was touched. */
  ghost predicate Safe(m: Machine, m': Machine, exe: bool) {
    NoVar(m'.input) && (exe || Untouched(m, m'))
  }

  ghost predicate Quiet(m: Machine, m': Machine) {
    Safe(m, m', false)
  }

  lemma NextQuiet(m: Machine, st: State)
    requires NoVar(m.input)
    ensures Next(m, st).tid != VAR && Quiet(m, Advanced(m)) && Quiet(m, PutBack(Advanced(m), Next(m, st)))
  {
  }

  lemma {:induction false} NewlinesQuiet(m: Machine, st: State)
    requires NoVar(m.input)
    ensures Quiet(m, SkipNewlines(m, st))
    decreases Left(m)
  {
    hide Next, Advanced, PutBack, NoVar;
    NextQuiet(m, st);
    SkipUnfolds(m, st);
    if Next(m, st).tid == NEWLINE && Left(m) > 0 {
      AdvancedLess(m);
      NewlinesQuiet(Advanced(m), st);
    }
  }

  lemma FinishedQuiet(m: Machine, st: State)
    requires NoVar(m.input)
    ensures Quiet(m, Finished(m, st).m)
  {
    hide Next, Advanced, SkipNewlines, NoVar;
    NextQuiet(m, st);
    NewlinesQuiet(Advanced(m), st);
  }

  // --- Routine by routine ---

  predicate Skippable(st: State) {
    st != Dec && st != DecList
  }

  lemma SafeParse(env: Env, m: Machine, st: State, exe: bool, fuel: nat)
    requires NoVar(m.input) && Skippable(st)
    ensures Safe(m, Parse(env, m, st, exe, fuel).m, exe)
    decreases fuel, 9
  {
    hide NoVar, ParseStmt, ParseCond, ParseExpr, ParseDeclaration;
    match st
    case Stmt => SafeStmt(env, m, st, exe, fuel);
    case Expr => SafeStmt(env, m, st, exe, fuel);
    case Cond => SafeCond(env, m.(result := ""), exe, "", "", fuel);
    case RelExp => SafeExpr(env, m.(result := ""), exe, ERR, "", "", fuel);
    case _ =>
  }

  lemma SafeStmt(env: Env, m: Machine, st: State, exe: bool, fuel: nat)
    requires NoVar(m.input) && Skippable(st)
    ensures Safe(m, ParseStmt(env, m, st, exe, fuel).m, exe)
    decreases fuel, 8
  {
    hide NoVar, Parse, Opened, Drained, Next, Advanced, PutBack;
    if fuel > 0 {
      var t, m1 := Next(m, st), Advanced(m);
      NextQuiet(m, st);
      if t.tid == NEWLINE {
        SafeStmt(env, m1, st, exe, fuel - 1);
      } else if t.tid == RETURN {
        var o := Parse(env, m1, RelExp, exe, fuel - 1);
        SafeParse(env, m1, RelExp, exe, fuel - 1);
        DrainedQuiet(o.m);
        SafeStmt(env, o.m, st, exe, fuel - 1);
      } else {
        PutBackQuiet(m, st);
        SafeOpened(env, m1, t, st, exe, fuel - 1);
      }
    }
  }

  lemma PutBackQuiet(m: Machine, st: State)
    requires NoVar(m.input)
    ensures NoVar(PutBack(Advanced(m), Next(m, st)).input)
  {
  }

  /** Whatever kind of statement the token opens. */
  lemma SafeOpened(env: Env, m: Machine, t: Token, st: State, exe: bool, fuel: nat)
    requires NoVar(m.input) && Skippable(st) && NoVar(PutBack(m, t).input)
    requires t.tid != NEWLINE && t.tid != RETURN && t.tid != VAR
    ensures Safe(m, Opened(env, m, t, st, exe, fuel).m, exe)
    decreases fuel, 14
  {
    hide NoVar, Parse, ParseId, ParseFunction, ParseIf, ParseFor, ParseParens, ParseBlock, Finished, PutBack;
    PutBackKeeps(m, m.result, t);
    ExprBack(m, t.text);
    match t.tid
    case ID => SafeId(env, m, st, exe, t.text, fuel);
    case LITERAL => FinishedQuiet(m.(result := t.text), st);
    case FUNCTION => SafeFunction(env, m, st, exe, t.text, fuel);
    case IF => SafeIf(env, m, exe, fuel);
    case FOR => SafeFor(env, m, exe, fuel);
    case LPAREN => SafeParens(env, m, exe, fuel);
    case LBRACE => SafeBlock(env, m, exe, fuel);
    case _ =>
  }

  lemma ExprBack(m: Machine, text: string)
    requires NoVar(m.input)
    ensures Quiet(m, PutBack(m, Token(EXPR, text)))
  {
  }

  lemma {:induction false} DrainedQuiet(m: Machine)
    requires NoVar(m.input)
    ensures Quiet(m, Drained(m))
    decreases Left(m)
  {
    hide Next, Advanced, NoVar;
    NextQuiet(m, Stmt);
    if Left(m) > 0 {
      AdvancedLess(m);
      DrainedQuiet(Advanced(m));
    }
  }

  lemma SafeId(env: Env, m: Machine, st: State, exe: bool, name: string, fuel: nat)
    requires NoVar(m.input) && Skippable(st)
    ensures Safe(m, ParseId(env, m, st, exe, name, fuel).m, exe)
    decreases fuel, 11
  {
    hide NoVar, Parse, ParseStmt, Finished, Next, Advanced, PutBack, ValueOf, FrameOf, Assigned;
    var t, m1 := Next(m, st), Advanced(m);
    NextQuiet(m, st);
    if t.tid == ASSIGNMENT {
      SafeAssignment(env, m1, st, exe, name, fuel);
    } else if t.tid == INC_DEC {
      FinishedQuiet(m1, st);
      var value := ValueOf(m1.vars, name);
      var r := env.evalExpr(value, t.text, "1");
      if r.Some? {
        AssignedInput(m1.(result := r.value), name);
        FinishedQuiet(Assigned(m1.(result := r.value), name), st);
      } else {
        SafeStmt(env, m1.(result := value), Err, exe, fuel);
      }
    } else {
      PutBackKeeps(m1, "", t);
      FinishedQuiet(PutBack(m1.(result := ""), t), st);
      PutBackKeeps(m1, ValueOf(m1.vars, name), t);
      FinishedQuiet(PutBack(m1.(result := ValueOf(m1.vars, name)), t), st);
    }
  }

  lemma SafeAssignment(env: Env, m: Machine, st: State, exe: bool, name: string, fuel: nat)
    requires NoVar(m.input)
    ensures var o := Parse(env, m, RelExp, exe, fuel);
      && Safe(m, o.m, exe)
      && Safe(m, (if exe then Finished(Assigned(o.m, name), st) else Finished(o.m, st)).m, exe)
    decreases fuel, 10
  {
    hide NoVar, Parse, Finished, Assigned;
    var o := Parse(env, m, RelExp, exe, fuel);
    SafeParse(env, m, RelExp, exe, fuel);
    FinishedQuiet(o.m, st);
    AssignedInput(o.m, name);
    FinishedQuiet(Assigned(o.m, name), st);
  }

  lemma AssignedInput(m: Machine, name: string)
    ensures Assigned(m, name).input == m.input
  {
  }

  lemma PutBackKeeps(m: Machine, r: string, t: Token)
    requires NoVar(PutBack(m, t).input)
    ensures Quiet(m, PutBack(m.(result := r), t))
  {
  }

  lemma SafeFunction(env: Env, m: Machine, st: State, exe: bool, name: string, fuel: nat)
    requires NoVar(m.input)
    ensures Safe(m, ParseFunction(env, m, st, exe, name, fuel).m, exe)
    decreases fuel, 10
  {
    hide NoVar, ParseArgs, Called, Finished, Next, Advanced;
    var m1 := m.(result := "");
    NextQuiet(m1, st);
    if Next(m1, st).tid == LPAREN {
      var (o, args) := ParseArgs(env, Advanced(m1), exe, [], fuel);
      SafeArgs(env, Advanced(m1), exe, [], fuel);
      CalledInput(env, o.m, name, args);
      var m2 := if exe then Called(env, o.m, name, args).0 else o.m;
      NextQuiet(m2, st);
      FinishedQuiet(Advanced(m2), st);
    }
  }

  lemma CalledInput(env: Env, m: Machine, name: string, args: seq<string>)
    ensures Called(env, m, name, args).0.input == m.input
  {
  }

  lemma SafeIf(env: Env, m: Machine, exe: bool, fuel: nat)
    requires NoVar(m.input)
    ensures Safe(m, ParseIf(env, m, exe, fuel).m, exe)
    decreases fuel, 13
  {
    hide NoVar, Parse, ParseBranches, Next, Advanced;
    NextQuiet(m, Stmt);
    var o := Parse(env, Advanced(m), Cond, exe, fuel);
    SafeParse(env, Advanced(m), Cond, exe, fuel);
    NextQuiet(o.m, Stmt);
    var taken := |o.m.result| > 0 && o.m.result[0] == '1';
    SafeBranches(env, Advanced(o.m), exe && taken, exe && !taken, fuel);
  }

  lemma SafeBranches(env: Env, m: Machine, thenExe: bool, elseExe: bool, fuel: nat)
    requires NoVar(m.input)
    ensures Safe(m, ParseBranches(env, m, thenExe, elseExe, fuel).m, thenExe || elseExe)
    decreases fuel, 10
  {
    hide NoVar, Parse, SkipNewlines, Next, Advanced, PutBack;
    var o := Parse(env, m, Stmt, thenExe, fuel);
    SafeParse(env, m, Stmt, thenExe, fuel);
    NewlinesQuiet(o.m, Stmt);
    var m1 := SkipNewlines(o.m, Stmt);
    NextQuiet(m1, Stmt);
    SafeParse(env, Advanced(m1), Stmt, elseExe, fuel);
  }

  lemma SafeFor(env: Env, m: Machine, exe: bool, fuel: nat)
    requires NoVar(m.input)
    ensures Safe(m, ParseFor(env, m, exe, fuel).m, exe)
    decreases fuel, 13
  {
    hide NoVar, Parse, ForFrom, Next, Advanced;
    NextQuiet(m, Stmt);
    var o := Parse(env, Advanced(m), Expr, exe, fuel);
    SafeParse(env, Advanced(m), Expr, exe, fuel);
    NextQuiet(o.m, Stmt);
    SafeForFrom(env, Advanced(o.m), exe, fuel);
  }

  lemma SafeForFrom(env: Env, m: Machine, exe: bool, fuel: nat)
    requires NoVar(m.input)
    ensures Safe(m, ForFrom(env, m, exe, fuel).m, exe)
    decreases fuel, 12
  {
    hide NoVar, Parse, SkipBody, Loop, Next, Advanced;
    var p := Parse(env, m, Cond, exe, fuel);
    SafeParse(env, m, Cond, exe, fuel);
    NextQuiet(p.m, Stmt);
    var (s, incr, body) := SkipBody(env, Advanced(p.m), fuel);
    BodyQuiet(env, Advanced(p.m), fuel);
    SafeLoop(env, s.m, m.input, incr, body, fuel);
  }

  /** Finding the end of a loop has no effect, even when the loop is to be executed. */
  lemma BodyQuiet(env: Env, m: Machine, fuel: nat)
    requires NoVar(m.input)
    ensures Quiet(m, SkipBody(env, m, fuel).0.m)
    ensures NoVar(SkipBody(env, m, fuel).1) && NoVar(SkipBody(env, m, fuel).2)
    decreases fuel, 10
  {
    hide NoVar, Parse, Next, Advanced;
    var o := Parse(env, m, Expr, false, fuel);
    SafeParse(env, m, Expr, false, fuel);
    NextQuiet(o.m, Stmt);
    SafeParse(env, Advanced(o.m), Stmt, false, fuel);
  }

  lemma SafeLoop(env: Env, m: Machine, condAt: Input, incrAt: Input, bodyAt: Input, fuel: nat)
    requires NoVar(condAt) && NoVar(incrAt) && NoVar(bodyAt)
    ensures NoVar(Loop(env, m, condAt, incrAt, bodyAt, fuel).m.input)
    decreases fuel, 10
  {
    hide NoVar, Parse;
    var b := Parse(env, m.(input := bodyAt), Stmt, true, fuel);
    SafeParse(env, m.(input := bodyAt), Stmt, true, fuel);
    var i := Parse(env, b.m.(input := incrAt), Expr, true, fuel);
    SafeParse(env, b.m.(input := incrAt), Expr, true, fuel);
    var c := Parse(env, i.m.(input := condAt), Cond, true, fuel);
    SafeParse(env, i.m.(input := condAt), Cond, true, fuel);
    if fuel > 0 {
      SafeLoop(env, c.m, condAt, incrAt, bodyAt, fuel - 1);
    }
  }

  lemma SafeParens(env: Env, m: Machine, exe: bool, fuel: nat)
    requires NoVar(m.input)
    ensures Safe(m, ParseParens(env, m, exe, fuel).m, exe)
    decreases fuel, 10
  {
    hide NoVar, Parse, Next, Advanced;
    SafeParse(env, m, RelExp, exe, fuel);
    NextQuiet(Parse(env, m, RelExp, exe, fuel).m, Expr);
  }

  lemma SafeBlock(env: Env, m: Machine, exe: bool, fuel: nat)
    requires NoVar(m.input)
    ensures Safe(m, ParseBlock(env, m, exe, fuel).m, exe)
    decreases fuel, 11
  {
    hide NoVar, Parse, Next, Advanced;
    var o := Parse(env, m, Stmt, exe, fuel);
    SafeParse(env, m, Stmt, exe, fuel);
    NextQuiet(o.m, o.st);
    if o.st == StmtDone && fuel > 0 {
      SafeBlock(env, o.m, exe, fuel - 1);
    }
  }

  lemma SafeArgs(env: Env, m: Machine, exe: bool, args: seq<string>, fuel: nat)
    requires NoVar(m.input)
    ensures Safe(m, ParseArgs(env, m, exe, args, fuel).0.m, exe)
    decreases fuel, 8
  {
    hide NoVar, Parse, Next, Advanced, PutBack;
    if fuel > 0 {
      var o := Parse(env, m, RelExp, exe, fuel - 1);
      SafeParse(env, m, RelExp, exe, fuel - 1);
      NextQuiet(o.m, o.st);
      var args' := if o.st == RelExpDone then args + [o.m.result] else args;
      SafeArgs(env, Advanced(o.m), exe, args', fuel - 1);
    }
  }

  lemma SafeCond(env: Env, m: Machine, exe: bool, lhs: string, op: string, fuel: nat)
    requires NoVar(m.input)
    ensures Safe(m, ParseCond(env, m, exe, lhs, op, fuel).m, exe)
    decreases fuel, 8
  {
    hide NoVar, Parse, Next, Advanced, PutBack;
    if fuel > 0 {
      var o := Parse(env, m, RelExp, exe, fuel - 1);
      SafeParse(env, m, RelExp, exe, fuel - 1);
      var c := Combined(env.evalCond, o.m, lhs, op);
      if o.st == RelExpDone && c.Some? {
        var m1 := c.value;
        var t := Next(m1, RelExpDone);
        NextQuiet(m1, RelExpDone);
        SafeCond(env, Advanced(m1), exe, m1.result, t.text, fuel - 1);
        SafeCond(env, PutBack(Advanced(m1), t), exe, m1.result, op, fuel - 1);
      }
    }
  }

  lemma SafeExpr(env: Env, m: Machine, exe: bool, last: Tid, lhs: string, op: string, fuel: nat)
    requires NoVar(m.input)
    ensures Safe(m, ParseExpr(env, m, exe, last, lhs, op, fuel).m, exe)
    decreases fuel, 8
  {
    hide NoVar, Parse, Next, Advanced, PutBack;
    if fuel > 0 {
      var want := if last == LOGICAL then RelExp else Expr;
      var o := Parse(env, m, want, exe, fuel - 1);
      SafeParse(env, m, want, exe, fuel - 1);
      var c := Combined(if last == LOGICAL then env.evalCond else env.evalExpr, o.m, lhs, op);
      if c.Some? {
        var m1 := c.value;
        var t := Next(m1, o.st);
        NextQuiet(m1, o.st);
        SafeExpr(env, Advanced(m1), exe, t.tid, m1.result, t.text, fuel - 1);
      }
    }
  }

  // --- What follows ---

  /** Skipping calls no script function and changes no variable, whatever is nested in what is skipped. */
  lemma SkippingTouchesNothing(env: Env, m: Machine, st: State, fuel: nat)
    requires NoVar(m.input) && Skippable(st)
    ensures Untouched(m, Parse(env, m, st, false, fuel).m)
  {
    hide NoVar, Parse;
    SafeParse(env, m, st, false, fuel);
  }

  /**
   Of the two branches of an `if` only the one taken has an effect: what the statement leaves behind is what
   executing that branch alone leaves behind.
   */
  lemma OneBranch(env: Env, m: Machine, taken: bool, fuel: nat)
    requires NoVar(m.input)
    ensures var all := ParseBranches(env, m, taken, !taken, fuel);
      if taken then Untouched(Parse(env, m, Stmt, true, fuel).m, all.m)
      else
        var skipped := Parse(env, m, Stmt, false, fuel);
        var rest := SkipNewlines(skipped.m, Stmt);
        && Untouched(m, skipped.m)
        && (if skipped.st == StmtDone && Next(rest, Stmt).tid == ELSE
            then Untouched(Parse(env, Advanced(rest), Stmt, true, fuel).m, all.m)
            else Untouched(m, all.m))
  {
    hide NoVar, Parse, SkipNewlines, Next, Advanced, PutBack;
    var o := Parse(env, m, Stmt, taken, fuel);
    SafeParse(env, m, Stmt, taken, fuel);
    NewlinesQuiet(o.m, Stmt);
    var m1 := SkipNewlines(o.m, Stmt);
    NextQuiet(m1, Stmt);
    SafeParse(env, Advanced(m1), Stmt, !taken, fuel);
  }

  /**
   Which branch that is: whatever the condition, an `if` leaves behind what executing its first branch leaves if the
   condition's result begins with 1, and what executing its second leaves, if there is one, otherwise.
   */
  lemma BranchTaken(env: Env, m: Machine, fuel: nat)
    requires NoVar(m.input) && Next(m, Stmt).tid == LPAREN
    requires var c := Parse(env, Advanced(m), Cond, true, fuel); c.st == CondDone && Next(c.m, Stmt).tid == RPAREN
    ensures var c := Parse(env, Advanced(m), Cond, true, fuel).m;
      var first := Advanced(c);
      var all := ParseIf(env, m, true, fuel);
      if c.result != "" && c.result[0] == '1' then Untouched(Parse(env, first, Stmt, true, fuel).m, all.m)
      else
        var skipped := Parse(env, first, Stmt, false, fuel);
        var rest := SkipNewlines(skipped.m, Stmt);
        && Untouched(c, skipped.m)
        && (if skipped.st == StmtDone && Next(rest, Stmt).tid == ELSE
            then Untouched(Parse(env, Advanced(rest), Stmt, true, fuel).m, all.m)
            else Untouched(c, all.m))
  {
    hide NoVar, Parse, ParseBranches, SkipNewlines, Next, Advanced;
    NextQuiet(m, Stmt);
    var c := Parse(env, Advanced(m), Cond, true, fuel).m;
    SafeParse(env, Advanced(m), Cond, true, fuel);
    NextQuiet(c, Stmt);
    OneBranch(env, Advanced(c), c.result != "" && c.result[0] == '1', fuel);
  }

  /** A loop whose condition is false at first has, behind its initialisation, only the effect of that condition. */
  lemma ZeroIterations(env: Env, m: Machine, fuel: nat)
    requires NoVar(m.input)
    requires var p := Parse(env, m, Cond, true, fuel); p.st == CondDone && p.m.result != "" && p.m.result[0] == '0'
    ensures Untouched(Parse(env, m, Cond, true, fuel).m, ForFrom(env, m, true, fuel).m)
  {
    hide NoVar, Parse, SkipBody, Next, Advanced;
    var p := Parse(env, m, Cond, true, fuel);
    SafeParse(env, m, Cond, true, fuel);
    NextQuiet(p.m, Stmt);
    BodyQuiet(env, Advanced(p.m), fuel);
  }

  /** A name with `;` behind it, read as a declaration. */
  lemma NameDeclares(env: Env, m: Machine, name: string, exe: bool, fuel: nat)
    requires m.input.putBack == None && m.input.script != [] && m.input.script[0] == Other(Token(SEMI, ";"))
    requires FrameOf(m.vars, name) <= 0
    ensures var o := ParseId(env, m, Dec, exe, name, fuel);
      && o.st == DecDone && o.m.vars == SetLocal(m, name, None).vars && o.m.calls == m.calls
      && o.m.input.putBack == Some(Token(SEMI, ";"))
  {
    hide Parse, ValueOf, FrameOf;
  }

  /** A list whose only declaration has `;` behind it. */
  lemma ListEnds(env: Env, m: Machine, exe: bool, fuel: nat, o: Out)
    requires fuel > 0 && Next(m, DecList).tid == ID
    requires o == Parse(env, PutBack(Advanced(m), Next(m, DecList)), Dec, exe, fuel - 1)
    requires o.st == DecDone && o.m.input.putBack == Some(Token(SEMI, ";"))
    ensures ParseDeclaration(env, m, DecList, exe, fuel) == Out(Advanced(o.m), DecListDone)
  {
    hide Parse;
  }

  lemma ListDeclares(env: Env, m: Machine, name: string, exe: bool, fuel: nat)
    requires fuel >= 2 && m.input.putBack == None && |m.input.script| >= 2
    requires m.input.script[0] == Word(name, false) && m.input.script[1] == Other(Token(SEMI, ";"))
    requires FrameOf(m.vars, name) <= 0
    ensures var o := ParseDeclaration(env, m, DecList, exe, fuel);
      o.st == DecListDone && o.m.vars == SetLocal(m, name, None).vars && o.m.calls == m.calls
  {
    hide FrameOf, SetLocal, ParseId, Parse, ParseDeclaration;
    var m1 := PutBack(Advanced(m), Token(ID, name));
    NameDeclares(env, Advanced(m1), name, exe, fuel - 2);
    SetLocalVars(m, Advanced(m1), name);
    DecIsName(env, m1, name, exe, fuel - 1);
    ListEnds(env, m, exe, fuel, Parse(env, m1, Dec, exe, fuel - 1));
  }

  lemma DecIsName(env: Env, m: Machine, name: string, exe: bool, fuel: nat)
    requires fuel > 0 && m.input.putBack == Some(Token(ID, name))
    ensures var o := ParseId(env, Advanced(m), Dec, exe, name, fuel - 1);
      o.st in {DecDone, Err} ==> Parse(env, m, Dec, exe, fuel) == o
  {
    hide ParseId;
    var o := ParseId(env, Advanced(m), Dec, exe, name, fuel - 1);
    assert Opened(env, Advanced(m), Token(ID, name), Dec, exe, fuel - 1) == o;
    assert ParseStmt(env, m, Dec, exe, fuel) == o;
  }

  lemma SetLocalVars(m: Machine, m': Machine, name: string)
    requires m'.vars == m.vars
    ensures SetLocal(m', name, None).vars == SetLocal(m, name, None).vars
  {
  }

  /** Why declarations are excluded: one takes effect whether it is executed or only skipped. */
  lemma DeclaresAnyway(env: Env, m: Machine, name: string, rest: seq<Lexeme>, exe: bool, fuel: nat)
    requires fuel >= 3 && m.input == Input([Word("var", false), Word(name, false), Other(Token(SEMI, ";"))] + rest, None)
    requires |m.vars| > 0 && FrameOf(m.vars, name) <= 0
    ensures var o := Parse(env, m, Stmt, exe, fuel);
      o.st == StmtDone && o.m.vars == SetLocal(m, name, None).vars && o.m.calls == m.calls
    ensures m.vars[|m.vars| - 1] != m.vars[|m.vars| - 1][name := None] ==>
              Parse(env, m, Stmt, exe, fuel).m.vars != m.vars
  {
    hide FrameOf, ParseDeclaration, ParseStmt;
    var m1 := Advanced(m);
    assert m1.input.script == [Word(name, false), Other(Token(SEMI, ";"))] + rest;
    ListDeclares(env, m1, name, exe, fuel - 1);
    SetLocalVars(m, m1, name);
    VarStatement(env, m, exe, fuel);
  }

  /** A statement that begins with `var` is its list of declarations. */
  lemma VarStatement(env: Env, m: Machine, exe: bool, fuel: nat)
    requires fuel > 0 && Next(m, Stmt).tid == VAR
    ensures var o := ParseDeclaration(env, Advanced(m), DecList, exe, fuel - 1);
      o.st == DecListDone ==> ParseStmt(env, m, Stmt, exe, fuel) == Out(o.m, StmtDone)
  {
    hide ParseDeclaration;
    var o := ParseDeclaration(env, Advanced(m), DecList, exe, fuel - 1);
    assert Parse(env, Advanced(m), DecList, exe, fuel - 1) == o;
  }
}
