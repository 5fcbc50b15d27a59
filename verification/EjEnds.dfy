/**
 How long skipping takes: beyond a bound linear in what is left of the script,
 more steps change nothing, and the only way not to end is a block in front of
 a token that no statement begins with.
 */
module EjEnds {
  import opened Ej

  /** What is left to read; the end of the script, put back, does not count. */
  function Weight(m: Machine): nat {
    |m.input.script| + if m.input.putBack.Some? && m.input.putBack.value.tid != EOF then 1 else 0
  }

  /** In front of an operator that was put back. */
  predicate Parked(m: Machine) {
    m.input.putBack.Some? && m.input.putBack.value.tid == EXPR
  }

  /** In front of one of these, put back. */
  predicate Before(m: Machine, tids: set<Tid>) {
    m.input.putBack.Some? && m.input.putBack.value.tid in tids
  }

  /** Steps enough for every phrase. */
  function Need(m: Machine): nat {
    2 * Weight(m) + 3
  }

  /** Two outcomes are the same one, nothing was added to the script, and running out of steps means being parked. */
  ghost predicate Steady(m: Machine, o: Out, o': Out) {
    o == o' && Weight(o.m) <= Weight(m) && (o.st == Spent ==> Parked(o.m))
  }

  /** Something was read, or the phrase ended in front of a token that ends or continues it. */
  ghost predicate Advances(m: Machine, o: Out, st: State) {
    && (st == Stmt && o.st == StmtDone ==> Weight(o.m) < Weight(m) || Parked(o.m))
    && (st == Expr && o.st == ExprDone ==> Weight(o.m) < Weight(m) || Before(o.m, {SEMI, RPAREN, EXPR}))
    && (st == RelExp && o.st == RelExpDone ==> Weight(o.m) < Weight(m) || Before(o.m, {SEMI, RPAREN}))
  }

  lemma NextWeight(m: Machine, st: State)
    ensures Weight(Advanced(m)) <= Weight(m) && (Next(m, st).tid != EOF ==> Weight(Advanced(m)) < Weight(m))
    ensures Weight(PutBack(Advanced(m), Next(m, st))) <= Weight(m)
    ensures Advanced(m).input.putBack == None
    ensures Before(m, {SEMI, RPAREN, EXPR}) ==> Next(m, st) == m.input.putBack.value
  {
  }

  lemma BackWeight(m: Machine, t: Token)
    requires m.input.putBack == None
    ensures Weight(PutBack(m, t)) <= Weight(m) + 1
    ensures t.tid != ERR ==> PutBack(m, t).input.putBack == Some(t)
  {
  }

  lemma {:induction false} NewlinesWeight(m: Machine, st: State)
    ensures Weight(SkipNewlines(m, st)) <= Weight(m)
    decreases Left(m)
  {
    hide Next, Advanced, PutBack, Weight;
    NextWeight(m, st);
    SkipUnfolds(m, st);
    AdvancedLess(m);
    if Next(m, st).tid == NEWLINE && Left(m) > 0 {
      NewlinesWeight(Advanced(m), st);
    }
  }

  lemma FinishedWeight(m: Machine, st: State)
    ensures Weight(Finished(m, st).m) <= Weight(m) && Finished(m, st).st != Spent
    ensures Finished(m, st).st in {StmtDone, DecDone, ExprDone, Eof, Err}
  {
    hide Next, Advanced, SkipNewlines, Weight;
    NextWeight(m, st);
    NewlinesWeight(Advanced(m), st);
  }

  // --- Stuck ---

  /** Not ended by any number of steps: a block in front of an operator that was put back. */
  lemma {:induction false} ParkedBlock(env: Env, m: Machine, exe: bool, fuel: nat)
    requires Parked(m)
    ensures ParseBlock(env, m, exe, fuel) == Out(m, Spent)
    decreases fuel
  {
    hide ParseBlock, BlockAfter, ParseStmt;
    ParkedStatement(env, m, exe, fuel);
    BlockUnfold(env, m, exe, fuel);
    if fuel > 0 {
      ParkedBlock(env, m, exe, fuel - 1);
    }
  }

  lemma BlockUnfold(env: Env, m: Machine, exe: bool, fuel: nat)
    ensures var o := Parse(env, m, Stmt, exe, fuel);
      ParseBlock(env, m, exe, fuel) ==
      if o.st == StmtDone then (if fuel == 0 then Out(o.m, Spent) else ParseBlock(env, o.m, exe, fuel - 1))
      else if o.st == Ret || o.st == Spent then o
      else if Next(o.m, o.st).tid != RBRACE then Failed(Advanced(o.m), Err)
      else Out(Advanced(o.m), StmtDone)
  {
    hide Parse, Next, Advanced;
  }

  lemma ParkedStatement(env: Env, m: Machine, exe: bool, fuel: nat)
    requires Parked(m)
    ensures Parse(env, m, Stmt, exe, fuel) == Out(m, if fuel == 0 then Spent else StmtDone)
  {
    NoStatement(env, m, exe, fuel);
  }

  /** No statement begins with one of these tokens; it is put back as an operator. */
  predicate Foreign(tid: Tid) {
    tid in {ELSE, LOGICAL, EXPR, COMMA, ASSIGNMENT, INC_DEC}
  }

  lemma NoStatement(env: Env, m: Machine, exe: bool, fuel: nat)
    requires Foreign(Next(m, Stmt).tid)
    ensures Parse(env, m, Stmt, exe, fuel)
         == if fuel == 0 then Out(m, Spent) else Out(PutBack(Advanced(m), Token(EXPR, Next(m, Stmt).text)), StmtDone)
  {
    hide Next, Advanced, PutBack, ParseStmt, ParseId, ParseFunction, ParseIf, ParseFor, ParseParens, ParseBlock;
    StmtUnfolds(env, m, Stmt, exe, fuel);
  }

  /** A block whose next statement would have to begin with such a token never ends, executed or skipped. */
  lemma StuckBlock(env: Env, m: Machine, exe: bool, fuel: nat)
    requires Foreign(Next(m, Stmt).tid)
    ensures ParseBlock(env, m, exe, fuel).st == Spent
  {
    hide Parse, ParseBlock, Next, Advanced;
    NoStatement(env, m, exe, fuel);
    BlockUnfold(env, m, exe, fuel);
    if fuel > 0 {
      ParkedBlock(env, PutBack(Advanced(m), Token(EXPR, Next(m, Stmt).text)), exe, fuel - 1);
    }
  }

  /** `{ +` and whatever follows: no number of steps gets to the end of it. */
  lemma SpinsForever(env: Env, m: Machine, rest: seq<Lexeme>, exe: bool, fuel: nat)
    requires m.input == Input([Other(Token(LBRACE, "")), Other(Token(EXPR, "+"))] + rest, None)
    ensures Parse(env, m, Stmt, exe, fuel).st == Spent
  {
    hide ParseStmt, ParseId, ParseFunction, ParseIf, ParseFor, ParseParens, ParseBlock;
    StmtUnfolds(env, m, Stmt, exe, fuel);
    assert Advanced(m).input.script == [Other(Token(EXPR, "+"))] + rest;
    if fuel > 0 {
      StuckBlock(env, Advanced(m), exe, fuel - 1);
    }
  }

  // --- Routine by routine ---

  /** Both bounds leave `spare` steps beside two for each thing left to read. */
  predicate Enough(m: Machine, spare: nat, n: nat, n': nat) {
    2 * Weight(m) + spare <= n && 2 * Weight(m) + spare <= n'
  }

  function Spare(st: State): nat {
    match st
    case Stmt => 1
    case Dec => 1
    case Expr => 1
    case DecList => 2
    case RelExp => 2
    case Cond => 3
    case _ => 0
  }

  lemma SteadyParse(env: Env, m: Machine, st: State, n: nat, n': nat)
    requires Enough(m, Spare(st), n, n') && st != Spent
    ensures Steady(m, Parse(env, m, st, false, n), Parse(env, m, st, false, n'))
    ensures Advances(m, Parse(env, m, st, false, n), st)
    decreases n, 9
  {
    hide Weight, ParseStmt, ParseCond, ParseExpr, ParseDeclaration;
    SameInput(m, m.(result := ""));
    match st
    case Stmt => SteadyStmt(env, m, st, n, n');
    case Dec => SteadyStmt(env, m, st, n, n');
    case Expr => SteadyStmt(env, m, st, n, n');
    case DecList => SteadyDeclaration(env, m, st, n, n');
    case Cond => SteadyCond(env, m.(result := ""), "", "", n, n');
    case RelExp => SteadyExpr(env, m.(result := ""), ERR, "", "", n, n');
    case _ =>
  }

  lemma SameInput(m: Machine, m': Machine)
    requires m.input == m'.input
    ensures Weight(m) == Weight(m') && forall st :: Next(m, st) == Next(m', st)
    ensures Advanced(m').input == Advanced(m).input && Weight(Advanced(m')) == Weight(Advanced(m))
    ensures forall t :: Weight(PutBack(m', t)) == Weight(PutBack(m, t)) && PutBack(m', t).input == PutBack(m, t).input
  {
  }

  lemma SteadyStmt(env: Env, m: Machine, st: State, n: nat, n': nat)
    requires Enough(m, 1, n, n') && st in {Stmt, Dec, Expr}
    ensures Steady(m, ParseStmt(env, m, st, false, n), ParseStmt(env, m, st, false, n'))
    ensures Advances(m, ParseStmt(env, m, st, false, n), st)
    decreases n, 8
  {
    hide Weight, Parse, ParseStmt, Opened, Drained, Next, Advanced, PutBack, Parked, Before;
    StmtUnfolds(env, m, st, false, n);
    StmtUnfolds(env, m, st, false, n');
    NextWeight(m, st);
    var t, m1 := Next(m, st), Advanced(m);
    if t.tid == NEWLINE {
      SteadyStmt(env, m1, st, n - 1, n' - 1);
    } else if t.tid == RETURN {
      SteadyParse(env, m1, RelExp, n - 1, n' - 1);
      var o := Parse(env, m1, RelExp, false, n - 1);
      if o.st == RelExpDone {
        SteadyStmt(env, o.m, st, n - 1, n' - 1);
      }
    } else {
      SteadyOpened(env, m1, t, st, n - 1, n' - 1);
    }
  }

  /** As `Steady` and `Advances`, once the first token has been read. */
  ghost predicate Opens(m: Machine, t: Token, st: State, o: Out, o': Out) {
    && o == o' && Weight(o.m) <= Weight(m) + (if t.tid == EOF then 0 else 1) && (o.st == Spent ==> Parked(o.m))
    && (st == Stmt && o.st == StmtDone ==> (t.tid != EOF && Weight(o.m) <= Weight(m)) || Parked(o.m))
    && (st == Expr && o.st == ExprDone ==> (t.tid != EOF && Weight(o.m) <= Weight(m)) || Before(o.m, {SEMI, RPAREN, EXPR}))
  }

  lemma SteadyOpened(env: Env, m: Machine, t: Token, st: State, n: nat, n': nat)
    requires t.tid != NEWLINE && t.tid != RETURN && m.input.putBack == None && st in {Stmt, Dec, Expr}
    requires t.tid != EOF ==> Enough(m, 2, n, n')
    ensures Opens(m, t, st, Opened(env, m, t, st, false, n), Opened(env, m, t, st, false, n'))
    decreases n, 14
  {
    hide Weight, Parse, ParseId, ParseFunction, ParseIf, ParseFor, ParseParens, ParseBlock, Finished, PutBack;
    BackWeight(m, t);
    BackWeight(m, Token(EXPR, t.text));
    match t.tid
    case ID => SteadyId(env, m, st, t.text, n, n');
    case LITERAL =>
      FinishedWeight(m.(result := t.text), st);
      SameInput(m, m.(result := t.text));
    case FUNCTION => SteadyFunction(env, m, st, t.text, n, n');
    case IF => SteadyIf(env, m, n, n');
    case FOR => SteadyFor(env, m, n, n');
    case VAR => SteadyParse(env, m, DecList, n, n');
    case LPAREN => SteadyParens(env, m, n, n');
    case LBRACE => SteadyBlock(env, m, n, n');
    case _ =>
  }

  lemma SteadyId(env: Env, m: Machine, st: State, name: string, n: nat, n': nat)
    requires Enough(m, 2, n, n')
    ensures Steady(m, ParseId(env, m, st, false, name, n), ParseId(env, m, st, false, name, n'))
    decreases n, 10
  {
    hide Weight, Parse, Finished, Next, Advanced, PutBack, SetLocal, ValueOf, FrameOf;
    var t, m1 := Next(m, st), Advanced(m);
    NextWeight(m, st);
    if t.tid == ASSIGNMENT {
      SteadyParse(env, m1, RelExp, n, n');
      FinishedWeight(Parse(env, m1, RelExp, false, n).m, st);
    } else {
      var declared := SetLocal(m1, name, None).(result := ValueOf(m1.vars, name));
      SetLocalInput(m1, name);
      SameInput(m1, declared);
      SameInput(m1, m1.(result := ""));
      FinishedWeight(m1, st);
      FinishedWeight(PutBack(declared, t), st);
      FinishedWeight(PutBack(m1.(result := ""), t), st);
    }
  }

  lemma SetLocalInput(m: Machine, name: string)
    ensures SetLocal(m, name, None).input == m.input
  {
  }

  lemma SteadyFunction(env: Env, m: Machine, st: State, name: string, n: nat, n': nat)
    requires Enough(m, 2, n, n')
    ensures Steady(m, ParseFunction(env, m, st, false, name, n), ParseFunction(env, m, st, false, name, n'))
    decreases n, 10
  {
    hide Weight, ParseArgs, Called, Finished, Next, Advanced;
    var m1 := m.(result := "");
    SameInput(m, m1);
    NextWeight(m1, st);
    if Next(m1, st).tid == LPAREN {
      SteadyArgs(env, Advanced(m1), [], n, n');
      var o := ParseArgs(env, Advanced(m1), false, [], n).0;
      NextWeight(o.m, st);
      FinishedWeight(Advanced(o.m), st);
    }
  }

  lemma SteadyArgs(env: Env, m: Machine, args: seq<string>, n: nat, n': nat)
    requires Enough(m, 3, n, n')
    ensures ParseArgs(env, m, false, args, n) == ParseArgs(env, m, false, args, n')
    ensures Steady(m, ParseArgs(env, m, false, args, n).0, ParseArgs(env, m, false, args, n').0)
    decreases n, 8
  {
    hide Weight, Parse, Next, Advanced, PutBack;
    SteadyParse(env, m, RelExp, n - 1, n' - 1);
    var o := Parse(env, m, RelExp, false, n - 1);
    NextWeight(o.m, o.st);
    if o.st !in {Eof, Err, Spent} && Next(o.m, o.st).tid == COMMA {
      SteadyArgs(env, Advanced(o.m), if o.st == RelExpDone then args + [o.m.result] else args, n - 1, n' - 1);
    }
  }

  lemma SteadyIf(env: Env, m: Machine, n: nat, n': nat)
    requires Enough(m, 2, n, n')
    ensures Steady(m, ParseIf(env, m, false, n), ParseIf(env, m, false, n'))
    decreases n, 13
  {
    hide Weight, Parse, ParseBranches, Next, Advanced;
    NextWeight(m, Stmt);
    if Next(m, Stmt).tid == LPAREN {
      SteadyParse(env, Advanced(m), Cond, n, n');
      var o := Parse(env, Advanced(m), Cond, false, n);
      NextWeight(o.m, Stmt);
      if o.st == CondDone && Next(o.m, Stmt).tid == RPAREN {
        SteadyBranches(env, Advanced(o.m), n, n');
      }
    }
  }

  lemma SteadyBranches(env: Env, m: Machine, n: nat, n': nat)
    requires Enough(m, 1, n, n')
    ensures Steady(m, ParseBranches(env, m, false, false, n), ParseBranches(env, m, false, false, n'))
    decreases n, 10
  {
    hide Weight, Parse, SkipNewlines, Next, Advanced, PutBack;
    SteadyParse(env, m, Stmt, n, n');
    var o := Parse(env, m, Stmt, false, n);
    NewlinesWeight(o.m, Stmt);
    var m1 := SkipNewlines(o.m, Stmt);
    NextWeight(m1, Stmt);
    SteadyParse(env, Advanced(m1), Stmt, n, n');
  }

  lemma SteadyFor(env: Env, m: Machine, n: nat, n': nat)
    requires Enough(m, 2, n, n')
    ensures Steady(m, ParseFor(env, m, false, n), ParseFor(env, m, false, n'))
    decreases n, 13
  {
    hide Weight, Parse, ForFrom, Next, Advanced;
    NextWeight(m, Stmt);
    if Next(m, Stmt).tid == LPAREN {
      SteadyParse(env, Advanced(m), Expr, n, n');
      var o := Parse(env, Advanced(m), Expr, false, n);
      NextWeight(o.m, Stmt);
      if o.st == ExprDone && Next(o.m, Stmt).tid == SEMI {
        SteadyForFrom(env, Advanced(o.m), n, n');
      }
    }
  }

  lemma SteadyForFrom(env: Env, m: Machine, n: nat, n': nat)
    requires Enough(m, 3, n, n')
    ensures Steady(m, ForFrom(env, m, false, n), ForFrom(env, m, false, n'))
    decreases n, 12
  {
    hide Weight, Parse, SkipBody, Next, Advanced;
    SteadyParse(env, m, Cond, n, n');
    var p := Parse(env, m, Cond, false, n);
    NextWeight(p.m, Stmt);
    SteadyBody(env, Advanced(p.m), n, n');
  }

  lemma SteadyBody(env: Env, m: Machine, n: nat, n': nat)
    requires Enough(m, 1, n, n')
    ensures SkipBody(env, m, n) == SkipBody(env, m, n') && Steady(m, SkipBody(env, m, n).0, SkipBody(env, m, n').0)
    decreases n, 10
  {
    hide Weight, Parse, Next, Advanced;
    SteadyParse(env, m, Expr, n, n');
    var o := Parse(env, m, Expr, false, n);
    NextWeight(o.m, Stmt);
    SteadyParse(env, Advanced(o.m), Stmt, n, n');
  }

  lemma SteadyParens(env: Env, m: Machine, n: nat, n': nat)
    requires Enough(m, 2, n, n')
    ensures Steady(m, ParseParens(env, m, false, n), ParseParens(env, m, false, n'))
    decreases n, 10
  {
    hide Weight, Parse, Next, Advanced;
    SteadyParse(env, m, RelExp, n, n');
    NextWeight(Parse(env, m, RelExp, false, n).m, Expr);
  }

  lemma SteadyBlock(env: Env, m: Machine, n: nat, n': nat)
    requires Enough(m, 1, n, n')
    ensures Steady(m, ParseBlock(env, m, false, n), ParseBlock(env, m, false, n'))
    decreases n, 11
  {
    hide Weight, Parse, ParseBlock, Next, Advanced, Parked;
    BlockUnfold(env, m, false, n);
    BlockUnfold(env, m, false, n');
    SteadyParse(env, m, Stmt, n, n');
    var o := Parse(env, m, Stmt, false, n);
    NextWeight(o.m, o.st);
    if o.st == StmtDone {
      if Parked(o.m) {
        ParkedBlock(env, o.m, false, n - 1);
        ParkedBlock(env, o.m, false, n' - 1);
      } else {
        SteadyBlock(env, o.m, n - 1, n' - 1);
      }
    }
  }

  lemma SteadyDeclaration(env: Env, m: Machine, st: State, n: nat, n': nat)
    requires Enough(m, 2, n, n')
    ensures Steady(m, ParseDeclaration(env, m, st, false, n), ParseDeclaration(env, m, st, false, n'))
    decreases n, 8
  {
    hide Weight, Parse, ParseDeclaration, Next, Advanced, PutBack, Failed;
    DeclarationUnfold(env, m, st, n);
    DeclarationUnfold(env, m, st, n');
    NextWeight(m, st);
    var t := Next(m, st);
    if t.tid == ID {
      var m1 := PutBack(Advanced(m), t);
      SteadyParse(env, m1, Dec, n - 1, n' - 1);
      var o := Parse(env, m1, Dec, false, n - 1);
      Breaks(m1, o, o, Dec);
      NextWeight(o.m, st);
      if o.st == DecDone && Next(o.m, st).tid == COMMA {
        SteadyDeclaration(env, Advanced(o.m), st, n - 1, n' - 1);
      }
    }
  }

  lemma DeclarationUnfold(env: Env, m: Machine, st: State, n: nat)
    requires n > 0
    ensures var t := Next(m, st); var o := Parse(env, PutBack(Advanced(m), t), Dec, false, n - 1);
      ParseDeclaration(env, m, st, false, n) ==
      if t.tid != ID then Out(Advanced(m), Err)
      else if o.st != DecDone then Failed(o.m, o.st)
      else
        var tid, m1 := Next(o.m, st).tid, Advanced(o.m);
        if tid == SEMI then Out(m1, DecListDone)
        else if tid != COMMA then Out(m1, Err)
        else ParseDeclaration(env, m1, st, false, n - 1)
  {
    hide Parse, Next, Advanced, PutBack, Failed;
  }

  lemma SteadyCond(env: Env, m: Machine, lhs: string, op: string, n: nat, n': nat)
    requires Enough(m, 3, n, n')
    ensures Steady(m, ParseCond(env, m, false, lhs, op, n), ParseCond(env, m, false, lhs, op, n'))
    decreases n, 8
  {
    hide Weight, Parse, ParseCond, Next, Advanced, PutBack, Combined, Failed;
    SteadyParse(env, m, RelExp, n - 1, n' - 1);
    var o := Parse(env, m, RelExp, false, n - 1);
    CondUnfold(env, m, lhs, op, n);
    CondUnfold(env, m, lhs, op, n');
    Breaks(m, o, o, RelExp);
    var c := Combined(env.evalCond, o.m, lhs, op);
    if o.st == RelExpDone && c.Some? {
      var m1 := c.value;
      TokenBehind(env.evalCond, o, lhs, op);
      var t, m2 := Next(m1, RelExpDone), Advanced(m1);
      if t.tid == LOGICAL {
        SteadyCond(env, m2, m1.result, t.text, n - 1, n' - 1);
      } else if t.tid != RPAREN && t.tid != SEMI {
        SteadyCond(env, PutBack(m2, t), m1.result, op, n - 1, n' - 1);
      }
    }
  }

  lemma CondUnfold(env: Env, m: Machine, lhs: string, op: string, n: nat)
    requires n > 0
    ensures var o := Parse(env, m, RelExp, false, n - 1); var c := Combined(env.evalCond, o.m, lhs, op);
      ParseCond(env, m, false, lhs, op, n) ==
      if o.st != RelExpDone then Failed(o.m, o.st)
      else if c.None? then Out(o.m, Err)
      else
        var m1 := c.value; var t, m2 := Next(m1, RelExpDone), Advanced(m1);
        if t.tid == LOGICAL then ParseCond(env, m2, false, m1.result, t.text, n - 1)
        else if t.tid == RPAREN || t.tid == SEMI then Out(PutBack(m2, t), CondDone)
        else ParseCond(env, PutBack(m2, t), false, m1.result, op, n - 1)
  {
    hide Parse, Next, Advanced, PutBack, Combined;
  }

  lemma SteadyExpr(env: Env, m: Machine, last: Tid, lhs: string, op: string, n: nat, n': nat)
    requires Enough(m, if last == LOGICAL then 3 else 2, n, n')
    ensures Steady(m, ParseExpr(env, m, false, last, lhs, op, n), ParseExpr(env, m, false, last, lhs, op, n'))
    ensures Advances(m, ParseExpr(env, m, false, last, lhs, op, n), RelExp)
    decreases n, 8
  {
    hide ParseExpr;
    if last == LOGICAL {
      SteadyRest(env, m, lhs, op, n, n');
    } else {
      SteadyTerm(env, m, last, lhs, op, n, n');
    }
  }

  /** What follows a logical operator. */
  lemma SteadyRest(env: Env, m: Machine, lhs: string, op: string, n: nat, n': nat)
    requires Enough(m, 3, n, n')
    ensures Steady(m, ParseExpr(env, m, false, LOGICAL, lhs, op, n), ParseExpr(env, m, false, LOGICAL, lhs, op, n'))
    ensures Advances(m, ParseExpr(env, m, false, LOGICAL, lhs, op, n), RelExp)
    decreases n, 7
  {
    hide Weight, Parse, Next, Advanced, PutBack;
    SteadyParse(env, m, RelExp, n - 1, n' - 1);
    var o := Parse(env, m, RelExp, false, n - 1);
    TokenBehind(env.evalCond, o, lhs, op);
  }

  /** What is steady from further on is so from here. */
  lemma Later(m: Machine, m2: Machine, p: Out, p': Out, st: State)
    requires Steady(m2, p, p') && Weight(m2) < Weight(m)
    ensures Steady(m, p, p') && Advances(m, p, st)
  {
    hide Weight, Parked, Before;
  }

  lemma Breaks(m: Machine, o: Out, o': Out, st: State)
    requires Steady(m, o, o')
    ensures Steady(m, Failed(o.m, o.st), Failed(o'.m, o'.st)) && Advances(m, Failed(o.m, o.st), st)
    ensures Steady(m, Out(o.m, Err), Out(o'.m, Err)) && Advances(m, Out(o.m, Err), st)
  {
    hide Weight, Parked, Before;
  }

  /** The expression ends where a term does. */
  lemma TermEnds(m: Machine, o: Out, m1: Machine)
    requires Steady(m, o, o) && Advances(m, o, Expr) && o.st == ExprDone && m1.input == o.m.input
    requires Next(m1, o.st).tid != EXPR
    ensures var p := Out(PutBack(Advanced(m1), Next(m1, o.st)), RelExpDone); Steady(m, p, p) && Advances(m, p, RelExp)
  {
    hide Weight, Next, Advanced, PutBack;
    SameInput(o.m, m1);
    NextWeight(m1, o.st);
    BackWeight(Advanced(m1), Next(m1, o.st));
  }

  lemma SameSteady(env: Env, m: Machine, st: State, n: nat, n': nat)
    requires Enough(m, Spare(st), n, n') && st != Spent
    ensures var o := Parse(env, m, st, false, n);
      o == Parse(env, m, st, false, n') && Weight(o.m) <= Weight(m) && Steady(m, o, o) && Advances(m, o, st)
    decreases n, 10
  {
    hide Weight, Parse;
    SteadyParse(env, m, st, n, n');
  }

  lemma SteadyTerm(env: Env, m: Machine, last: Tid, lhs: string, op: string, n: nat, n': nat)
    requires Enough(m, 2, n, n') && last != LOGICAL
    ensures Steady(m, ParseExpr(env, m, false, last, lhs, op, n), ParseExpr(env, m, false, last, lhs, op, n'))
    ensures Advances(m, ParseExpr(env, m, false, last, lhs, op, n), RelExp)
    decreases n, 7
  {
    hide Weight, Parse, ParseExpr, Next, Advanced, PutBack, Combined, Advances, Steady, Failed;
    SameSteady(env, m, Expr, n - 1, n' - 1);
    var o := Parse(env, m, Expr, false, n - 1);
    TermUnfold(env, m, last, lhs, op, n);
    TermUnfold(env, m, last, lhs, op, n');
    Breaks(m, o, o, RelExp);
    var c := Combined(env.evalExpr, o.m, lhs, op);
    if o.st == ExprDone && c.Some? {
      var m1 := c.value;
      var t, m2 := Next(m1, o.st), Advanced(m1);
      TokenBehind(env.evalExpr, o, lhs, op);
      if t.tid == EXPR || t.tid == INC_DEC || t.tid == LOGICAL {
        SteadyExpr(env, m2, t.tid, m1.result, t.text, n - 1, n' - 1);
        Later(m, m2, ParseExpr(env, m2, false, t.tid, m1.result, t.text, n - 1),
              ParseExpr(env, m2, false, t.tid, m1.result, t.text, n' - 1), RelExp);
      } else {
        CombinedInput(env.evalExpr, o.m, lhs, op);
        TermEnds(m, o, m1);
      }
    }
  }

  lemma CombinedInput(eval: (string, string, string) -> Option<string>, m: Machine, lhs: string, op: string)
    ensures var c := Combined(eval, m, lhs, op); c.Some? ==> c.value.input == m.input
  {
  }

  lemma TermUnfold(env: Env, m: Machine, last: Tid, lhs: string, op: string, n: nat)
    requires n > 0 && last != LOGICAL
    ensures var o := Parse(env, m, Expr, false, n - 1); var c := Combined(env.evalExpr, o.m, lhs, op);
      ParseExpr(env, m, false, last, lhs, op, n) ==
      if o.st != ExprDone then Failed(o.m, o.st)
      else if c.None? then Out(o.m, Err)
      else
        var m1 := c.value; var t, m2 := Next(m1, o.st), Advanced(m1);
        if t.tid == EXPR || t.tid == INC_DEC || t.tid == LOGICAL
        then ParseExpr(env, m2, false, t.tid, m1.result, t.text, n - 1)
        else Out(PutBack(m2, t), RelExpDone)
  {
    hide Parse, Next, Advanced, PutBack, Combined;
  }

  /** The token behind a term, whatever the term is combined to. */
  lemma TokenBehind(eval: (string, string, string) -> Option<string>, o: Out, lhs: string, op: string)
    ensures var c := Combined(eval, o.m, lhs, op);
      c.Some? ==>
        var m1 := c.value; var t, m2 := Next(m1, o.st), Advanced(m1);
        && Weight(m2) <= Weight(o.m) && (t.tid != EOF ==> Weight(m2) < Weight(o.m))
        && Weight(PutBack(m2, t)) <= Weight(o.m)
        && (Before(o.m, {SEMI, RPAREN, EXPR}) ==> t == o.m.input.putBack.value)
        && (t.tid != ERR ==> PutBack(m2, t).input.putBack == Some(t))
  {
    hide Weight, Next, Advanced, PutBack;
    var c := Combined(eval, o.m, lhs, op);
    if c.Some? {
      SameInput(o.m, c.value);
      NextWeight(c.value, o.st);
      BackWeight(Advanced(c.value), Next(c.value, o.st));
    }
  }

  /** From a number of steps on that is linear in what is left to read, more steps change nothing about what is skipped. */
  lemma SkipSettles(env: Env, m: Machine, st: State, n: nat, n': nat)
    requires st != Spent && Need(m) <= n && Need(m) <= n'
    ensures Parse(env, m, st, false, n) == Parse(env, m, st, false, n')
    ensures Parse(env, m, st, false, n).st == Spent ==> Parked(Parse(env, m, st, false, n).m)
  {
    hide Weight, Parse;
    SteadyParse(env, m, st, n, n');
  }
}
