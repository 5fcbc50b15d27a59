/**
 The interpreter, run on the script a program is written as, does what the
 program means: it reads exactly that script and leaves the result, variables
 and calls, or ends in an error or a return, as the meaning says.
 */
module EjMeaning {
  import opened Ej
  import opened EjPrograms

  function StoreOf(m: Machine): Store {
    Store(m.result, m.vars, m.calls)
  }

  /** The token a lexeme is where no keyword is meant. */
  function Plain(w: Lexeme): Token {
    match w
    case Word(text, called) => Token(if called then FUNCTION else ID, text)
    case Other(token) => token
  }

  /** The token a lexeme is where a statement may begin. */
  function Leading(w: Lexeme): Token {
    match w
    case Word(_, _) => Classified(w, Stmt)
    case Other(token) => token
  }

  /** What is still to be read is `s`; its first token, or the end of the script, may have been put back. */
  predicate At(i: Input, s: seq<Lexeme>) {
    || i == Input(s, None)
    || (s != [] && i == Input(s[1..], Some(Leading(s[0]))))
    || (s == [] && i == Input([], Some(Token(EOF, ""))))
  }

  /** A mark that ends an expression. */
  predicate Closed(s: seq<Lexeme>) {
    s != [] && s[0].Other? && s[0].token.tid in {RPAREN, SEMI, COMMA, NEWLINE}
  }

  /** A mark that ends a term. */
  predicate Delimited(s: seq<Lexeme>) {
    s != [] && s[0].Other? && s[0].token.tid in {EXPR, LOGICAL, RPAREN, SEMI, COMMA, NEWLINE}
  }

  /** Two steps for each thing to be read, and some more. */
  predicate Enough(fuel: nat, s: seq<Lexeme>, more: nat) {
    2 * |s| + more <= fuel
  }

  function Ended(end: Ending, st: State): State {
    match end
    case Fine => st
    case Wrong => Err
    case Returned => Ret
    case Unfinished => Spent
  }

  /** The outcome is the one meant, and if all went well just `rest` is still to be read. */
  predicate Matches(o: Out, a: After, st: State, rest: seq<Lexeme>) {
    && o.st == Ended(a.end, st) && StoreOf(o.m) == a.s
    && (a.end == Fine ==> At(o.m.input, rest))
  }

  /** A term or an action that ends as a statement or as an expression does. */
  predicate Settles(o: Out, x: Machine, a: After, st: State, rest: seq<Lexeme>) {
    && a.end in {Fine, Wrong} && StoreOf(x) == a.s
    && o == (if a.end == Fine then Finished(x, st) else Out(x, Err))
    && (a.end == Fine ==> At(x.input, rest))
  }

  // --- Reading one lexeme ---

  lemma FirstRead(m: Machine, s: seq<Lexeme>, st: State)
    requires At(m.input, s) && s != [] && (s[0].Other? || st == Stmt)
    ensures Next(m, st) == Leading(s[0]) && Advanced(m) == m.(input := Input(s[1..], None))
  {
  }

  lemma WordRead(m: Machine, s: seq<Lexeme>, st: State)
    requires m.input == Input(s, None) && s != []
    requires s[0].Word? ==> s[0].text !in KEYWORDS
    ensures Next(m, st) == Plain(s[0]) && Advanced(m) == m.(input := Input(s[1..], None))
  {
  }

  lemma BackAt(m: Machine, s: seq<Lexeme>)
    requires At(m.input, s) && s != [] && s[0].Other? && s[0].token.tid != ERR
    ensures At(PutBack(Advanced(m), s[0].token).input, s) && StoreOf(PutBack(Advanced(m), s[0].token)) == StoreOf(m)
  {
  }

  // --- Terms ---

  lemma VariableSettles(env: Env, m: Machine, x: Name, st: State, rest: seq<Lexeme>, exe: bool, fuel: nat) returns (y: Machine)
    requires st in {Expr, Stmt} && m.input == Input(rest, None) && Delimited(rest)
    ensures Settles(ParseId(env, m, st, exe, x, fuel), y, TermValue(env, Variable(x), StoreOf(m), exe), st, rest)
  {
    hide Parse, ParseStmt, FrameOf, ValueOf, Finished;
    var m1, t := Advanced(m), rest[0].token;
    if exe && FrameOf(m.vars, x) < 0 {
      y := m1;
    } else {
      y := PutBack(m1.(result := if exe then ValueOf(m.vars, x) else ""), t);
    }
  }

  lemma TermSettles(env: Env, m: Machine, e: Term, st: State, rest: seq<Lexeme>, exe: bool, fuel: nat) returns (y: Machine)
    requires st in {Expr, Stmt} && (st == Stmt ==> !e.Bracket?) && Delimited(rest)
    requires m.input == Input(TermTail(e, rest), None) && Enough(fuel, TermTail(e, rest), 1)
    ensures Settles(Opened(env, m, Plain(TermHead(e)), st, exe, fuel), y, TermValue(env, e, StoreOf(m), exe), st, rest)
    decreases fuel, 5
  {
    hide ParseId, ParseFunction, ParseParens, ParseIf, ParseFor, ParseBlock, Parse, Finished, Delimited, TermTail, TermValue;
    match e
    case Literal(v) =>
      y := LiteralSettles(env, m, v, st, rest, exe);
    case Variable(x) =>
      y := VariableSettles(env, m, x, st, rest, exe, fuel) by { VariableText(x, rest); }
    case Call(f, args) =>
      y := CallSettles(env, m, f, args, st, rest, exe, fuel);
    case Bracket(inner) =>
      y := BracketSettles(env, m, inner, rest, exe, fuel);
  }

  lemma VariableText(x: Name, rest: seq<Lexeme>)
    ensures TermTail(Variable(x), rest) == rest
  {
  }

  lemma LiteralSettles(env: Env, m: Machine, v: string, st: State, rest: seq<Lexeme>, exe: bool) returns (y: Machine)
    requires m.input == Input(TermTail(Literal(v), rest), None)
    ensures y == m.(result := v)
    ensures Settles(Finished(y, st), y, TermValue(env, Literal(v), StoreOf(m), exe), st, rest)
  {
    hide Finished;
    y := m.(result := v);
  }

  lemma CallSettles(env: Env, m: Machine, f: Name, args: Args, st: State, rest: seq<Lexeme>, exe: bool, fuel: nat)
    returns (y: Machine)
    requires st in {Expr, Stmt} && Delimited(rest)
    requires m.input == Input(TermTail(Call(f, args), rest), None) && Enough(fuel, TermTail(Call(f, args), rest), 1)
    ensures Settles(ParseFunction(env, m, st, exe, f, fuel), y, TermValue(env, Call(f, args), StoreOf(m), exe), st, rest)
    decreases fuel, 4
  {
    hide Parse, ParseArgs, Finished, Next, Advanced, Delimited, ArgsText;
    var inside := ArgsText(args, Mark(RPAREN, rest));
    var m0 := m.(result := "");
    FirstRead(m0, Mark(LPAREN, inside), st);
    var (o, values) := ParseArgs(env, Advanced(m0), exe, [], fuel);
    ArgsParsed(env, Advanced(m0), args, [], Mark(RPAREN, rest), exe, fuel);
    y := o.m;
    var meant: seq<string> := Values(env, args, StoreOf(m0), exe).1;
    assert [] + meant == meant;
    if o.st == ArgListDone {
      if exe {
        y := Called(env, o.m, f, values).0;
      }
      if !exe || Called(env, o.m, f, values).1 >= 0 {
        FirstRead(y, Mark(RPAREN, rest), st);
        y := Advanced(y);
      }
    }
  }

  /** Arguments, behind those already read. */
  lemma ArgsParsed(env: Env, m: Machine, args: Args, before: seq<string>, rest: seq<Lexeme>, exe: bool, fuel: nat)
    requires rest != [] && rest[0].Other? && rest[0].token.tid == RPAREN
    requires m.input == Input(ArgsText(args, rest), None) && Enough(fuel, ArgsText(args, rest), 2)
    ensures var (o, all) := ParseArgs(env, m, exe, before, fuel);
      var (a, values) := Values(env, args, StoreOf(m), exe);
      a.end in {Fine, Wrong} && Matches(o, a, ArgListDone, rest) && (a.end == Fine ==> all == before + values)
    decreases fuel, 3
  {
    hide Parse, Next, Advanced, PutBack, Value, At, Text;
    var more := if args.Only? then rest else Mark(COMMA, ArgsText(args.others, rest));
    var o := Parse(env, m, RelExp, exe, fuel - 1);
    ExpressionParsed(env, m, args.arg, more, exe, fuel - 1);
    var a := Value(env, args.arg, StoreOf(m), exe);
    if a.end == Fine {
      FirstRead(o.m, more, RelExpDone);
      if args.Only? {
        BackAt(o.m, more);
      } else {
        ArgsParsed(env, Advanced(o.m), args.others, before + [a.s.result], rest, exe, fuel - 1);
      }
    }
  }

  lemma BracketSettles(env: Env, m: Machine, inner: Expression, rest: seq<Lexeme>, exe: bool, fuel: nat) returns (y: Machine)
    requires m.input == Input(TermTail(Bracket(inner), rest), None) && Enough(fuel, TermTail(Bracket(inner), rest), 1)
    ensures Settles(ParseParens(env, m, exe, fuel), y, TermValue(env, Bracket(inner), StoreOf(m), exe), Expr, rest)
    decreases fuel, 4
  {
    hide Parse, Next, Advanced, Value;
    var o := Parse(env, m, RelExp, exe, fuel);
    ExpressionParsed(env, m, inner, Mark(RPAREN, rest), exe, fuel);
    y := o.m;
    if o.st == RelExpDone {
      FirstRead(o.m, Mark(RPAREN, rest), Expr);
      y := Advanced(y);
    }
  }

  lemma TermParsed(env: Env, m: Machine, e: Term, rest: seq<Lexeme>, exe: bool, fuel: nat)
    requires m.input == Input(TermText(e, rest), None) && Enough(fuel, TermText(e, rest), 0) && Delimited(rest)
    ensures var a := TermValue(env, e, StoreOf(m), exe);
      a.end in {Fine, Wrong} && Matches(Parse(env, m, Expr, exe, fuel), a, ExprDone, rest)
    decreases fuel, 1
  {
    hide Opened, ParseStmt, Next, Advanced, TermTail, TermHead, TermValue;
    var s := TermText(e, rest);
    assert s[1..] == TermTail(e, rest);
    HeadToken(e);
    WordRead(m, s, Expr);
    StmtUnfolds(env, m, Expr, exe, fuel);
    var y := TermSettles(env, Advanced(m), e, Expr, rest, exe, fuel - 1);
  }

  lemma HeadToken(e: Term)
    ensures TermHead(e).Word? ==> TermHead(e).text !in KEYWORDS
    ensures Plain(TermHead(e)).tid in {LITERAL, ID, FUNCTION, LPAREN}
  {
  }

  // --- Expressions ---

  /** A term with an operator before it, if any, and what follows it. */
  function Pending(env: Env, e: Term, r: Rest, lhs: string, op: string, s: Store, exe: bool): After {
    var v := TermValue(env, e, s, exe);
    var a := if op == "" then v else Joined(env.evalExpr, lhs, op, v);
    if a.end != Fine then a else RestValue(env, r, a.s, exe)
  }

  lemma PendingParsed(env: Env, m: Machine, e: Term, r: Rest, last: Tid, lhs: string, op: string, rest: seq<Lexeme>, exe: bool,
      fuel: nat)
    requires last != LOGICAL && Closed(rest)
    requires m.input == Input(TermText(e, RestText(r, rest)), None) && Enough(fuel, TermText(e, RestText(r, rest)), 1)
    ensures var a := Pending(env, e, r, lhs, op, StoreOf(m), exe);
      a.end in {Fine, Wrong} && Matches(ParseExpr(env, m, exe, last, lhs, op, fuel), a, RelExpDone, rest)
    decreases fuel, 2
  {
    hide Parse, ParseExpr, Continued, TermText, RestText, TermValue, RestValue, Next, Advanced, At, Closed, Delimited;
    var behind := RestText(r, rest);
    RestDelimited(r, rest);
    var o := Parse(env, m, Expr, exe, fuel - 1);
    TermParsed(env, m, e, behind, exe, fuel - 1);
    ExprUnfolds(env, m, exe, last, lhs, op, fuel);
    var c := Combined(env.evalExpr, o.m, lhs, op);
    if o.st == ExprDone && c.Some? {
      Follows(env, c.value, r, rest, exe, fuel);
    }
  }

  lemma RestDelimited(r: Rest, rest: seq<Lexeme>)
    requires Closed(rest)
    ensures Delimited(RestText(r, rest))
  {
  }

  /** What an expression does once a term, and the operator before it, are done with. */
  function Continued(env: Env, m: Machine, exe: bool, fuel: nat): Out
    requires fuel > 0
  {
    var t, m1 := Next(m, ExprDone), Advanced(m);
    if t.tid == EXPR || t.tid == INC_DEC || t.tid == LOGICAL then ParseExpr(env, m1, exe, t.tid, m.result, t.text, fuel - 1)
    else Out(PutBack(m1, t), RelExpDone)
  }

  lemma ExprUnfolds(env: Env, m: Machine, exe: bool, last: Tid, lhs: string, op: string, fuel: nat)
    requires fuel > 0 && last != LOGICAL
    ensures ParseExpr(env, m, exe, last, lhs, op, fuel)
      == var o := Parse(env, m, Expr, exe, fuel - 1);
         if o.st != ExprDone then Failed(o.m, o.st)
         else
           match Combined(env.evalExpr, o.m, lhs, op)
           case None => Out(o.m, Err)
           case Some(m1) => Continued(env, m1, exe, fuel)
  {
    hide Parse, Next, Advanced, PutBack, Combined;
  }

  lemma Follows(env: Env, m: Machine, r: Rest, rest: seq<Lexeme>, exe: bool, fuel: nat)
    requires At(m.input, RestText(r, rest)) && Closed(rest) && fuel > 0
    requires r.End? || Enough(fuel - 1, RestText(r, rest), 0)
    ensures var a := RestValue(env, r, StoreOf(m), exe);
      a.end in {Fine, Wrong} && Matches(Continued(env, m, exe, fuel), a, RelExpDone, rest)
    decreases fuel, 1
  {
    hide ParseExpr, TermText, Text, TermValue, Value, Next, Advanced, PutBack;
    FirstRead(m, RestText(r, rest), ExprDone) by { RestDelimited(r, rest); }
    var m1 := Advanced(m);
    match r
    case End =>
      BackAt(m, rest);
    case Then(op, next, more) =>
      PendingParsed(env, m1, next, more, EXPR, m.result, op, rest, exe, fuel - 1);
    case Logic(op, other) =>
      LogicParsed(env, m1, other, m.result, op, rest, exe, fuel - 1);
  }

  /** Behind a logical operator. */
  lemma LogicParsed(env: Env, m: Machine, c: Expression, lhs: string, op: Operator, rest: seq<Lexeme>, exe: bool, fuel: nat)
    requires m.input == Input(Text(c, rest), None) && Enough(fuel, Text(c, rest), 2) && Closed(rest)
    ensures var a := Joined(env.evalCond, lhs, op, Value(env, c, StoreOf(m), exe));
      a.end in {Fine, Wrong} && Matches(ParseExpr(env, m, exe, LOGICAL, lhs, op, fuel), a, RelExpDone, rest)
    decreases fuel, 1
  {
    hide Parse, Text, Value, Next, Advanced, PutBack, At, Parse, ParseCond, ParseStmt;
    var o := Parse(env, m, RelExp, exe, fuel - 1);
    ExpressionParsed(env, m, c, rest, exe, fuel - 1);
    var j := Combined(env.evalCond, o.m, lhs, op);
    if o.st == RelExpDone && j.Some? {
      FirstRead(j.value, rest, RelExpDone);
      BackAt(j.value, rest);
    }
  }

  lemma ExpressionParsed(env: Env, m: Machine, c: Expression, rest: seq<Lexeme>, exe: bool, fuel: nat)
    requires m.input == Input(Text(c, rest), None) && Enough(fuel, Text(c, rest), 1) && Closed(rest)
    ensures var a := Value(env, c, StoreOf(m), exe);
      a.end in {Fine, Wrong} && Matches(Parse(env, m, RelExp, exe, fuel), a, RelExpDone, rest)
    decreases fuel, 3
  {
    hide ParseExpr, TermValue, RestValue, TermText, RestText;
    PendingParsed(env, m.(result := ""), c.first, c.rest, ERR, "", "", rest, exe, fuel);
  }

  /** A condition, in front of the mark that ends it. */
  lemma ConditionParsed(env: Env, m: Machine, c: Expression, rest: seq<Lexeme>, exe: bool, fuel: nat)
    requires m.input == Input(Text(c, rest), None) && Enough(fuel, Text(c, rest), 2)
    requires Closed(rest) && rest[0].token.tid in {RPAREN, SEMI}
    ensures var a := Value(env, c, StoreOf(m), exe);
      a.end in {Fine, Wrong} && Matches(Parse(env, m, Cond, exe, fuel), a, CondDone, rest)
  {
    hide ParseExpr, ParseStmt, ParseDeclaration, Text, TermValue, RestValue, Next, Advanced, PutBack, At;
    var m0 := m.(result := "");
    ExpressionParsed(env, m0, c, rest, exe, fuel - 1);
    var o := Parse(env, m0, RelExp, exe, fuel - 1);
    if o.st == RelExpDone {
      FirstRead(o.m, rest, RelExpDone);
      BackAt(o.m, rest);
    }
  }

  // --- Actions ---

  lemma AssignedStored(m: Machine, x: string)
    ensures Assigned(m, x) == m.(vars := Stored(m.vars, x, m.result))
  {
  }

  lemma SetSettles(env: Env, m: Machine, x: Name, c: Expression, st: State, rest: seq<Lexeme>, exe: bool, fuel: nat)
    returns (y: Machine)
    requires st in {Expr, Stmt} && Closed(rest)
    requires m.input == Input(ActionTail(Set(x, c), rest), None) && Enough(fuel, ActionTail(Set(x, c), rest), 1)
    ensures forall last :: Settles(ParseId(env, m, st, exe, x, fuel), y, Acted(env, Set(x, c), StoreOf(m), exe, last), st, rest)
  {
    hide Parse, ParseStmt, Assigned, Stored, Finished, Value, Text, FrameOf, ValueOf, At;
    FirstRead(m, m.input.script, st) by { NowAt(m); }
    var m1 := Advanced(m);
    ExpressionParsed(env, m1, c, rest, exe, fuel);
    var o := Parse(env, m1, RelExp, exe, fuel);
    AssignedStored(o.m, x);
    y := if exe && o.st == RelExpDone then Assigned(o.m, x) else o.m;
  }

  lemma NowAt(m: Machine)
    requires m.input.putBack == None
    ensures At(m.input, m.input.script)
  {
  }

  lemma StepSettles(env: Env, m: Machine, x: Name, op: string, st: State, rest: seq<Lexeme>, exe: bool, fuel: nat)
    returns (y: Machine)
    requires st in {Expr, Stmt} && Closed(rest) && rest[0].token.tid in {RPAREN, SEMI}
    requires m.input == Input(ActionTail(Step(x, op), rest), None) && fuel > 0
    requires st == Stmt ==> rest[0].token.tid == SEMI
    ensures Settles(ParseId(env, m, st, exe, x, fuel), y,
      Acted(env, Step(x, op), StoreOf(m), exe, rest[0].token.tid == RPAREN), st, rest)
  {
    hide Assigned, Stored, Finished, FrameOf, ValueOf, ParseId, ParseStmt, Next, Advanced, At;
    var m1 := m.(input := Input(rest, None));
    FirstRead(m, m.input.script, st) by { NowAt(m); }
    StepUnfolds(env, m, x, st, exe, fuel);
    NowAt(m1);
    y := m1;
    if exe && FrameOf(m.vars, x) >= 0 {
      var value := ValueOf(m.vars, x);
      match env.evalExpr(value, op, "1") {
        case Some(r) =>
          AssignedStored(m1.(result := r), x);
          y := Assigned(m1.(result := r), x);
        case None =>
          y := MarkInError(env, m1.(result := value), rest, exe, fuel);
          ExpressionFinished(y);
      }
    }
  }

  lemma ExpressionFinished(m: Machine)
    ensures Finished(m, Expr) == Out(m, ExprDone)
  {
  }

  /** After an error a bracket still ends the expression; a semicolon does not. */
  lemma MarkInError(env: Env, m: Machine, rest: seq<Lexeme>, exe: bool, fuel: nat) returns (y: Machine)
    requires m.input == Input(rest, None) && Closed(rest) && rest[0].token.tid in {RPAREN, SEMI} && fuel > 0
    ensures ParseStmt(env, m, Err, exe, fuel) == Out(y, if rest[0].token.tid == RPAREN then ExprDone else Err)
    ensures StoreOf(y) == StoreOf(m) && At(y.input, rest)
  {
    hide Parse, ParseId, ParseFunction, ParseFor, ParseIf, ParseBlock, ParseParens;
    FirstRead(m, rest, Err);
    BackAt(m, rest);
    y := PutBack(Advanced(m), rest[0].token);
    StmtUnfolds(env, m, Err, exe, fuel);
  }

  lemma StepUnfolds(env: Env, m: Machine, x: Name, st: State, exe: bool, fuel: nat)
    requires Next(m, st).tid == INC_DEC
    ensures ParseId(env, m, st, exe, x, fuel)
      == var m1 := Advanced(m);
         if !exe then Finished(m1, st)
         else if FrameOf(m1.vars, x) < 0 then Failed(m1, Err)
         else
           var value := ValueOf(m1.vars, x);
           match env.evalExpr(value, Next(m, st).text, "1")
           case None => ParseStmt(env, m1.(result := value), Err, exe, fuel)
           case Some(r) => Finished(Assigned(m1.(result := r), x), st)
  {
    hide Parse, ParseStmt, Assigned, Finished, FrameOf, ValueOf, Next, Advanced;
  }

  lemma ActionSettles(env: Env, m: Machine, a: Action, st: State, rest: seq<Lexeme>, exe: bool, fuel: nat)
    returns (y: Machine)
    requires st in {Expr, Stmt} && Closed(rest) && rest[0].token.tid != COMMA
    requires st == Stmt ==> rest[0].token.tid in {SEMI, NEWLINE} && !(a.Do? && a.term.Bracket?)
    requires rest[0].token.tid == NEWLINE ==> !a.Step?
    requires m.input == Input(ActionTail(a, rest), None) && Enough(fuel, ActionTail(a, rest), 1)
    ensures Settles(Opened(env, m, Plain(ActionHead(a)), st, exe, fuel), y,
      Acted(env, a, StoreOf(m), exe, rest[0].token.tid == RPAREN), st, rest)
  {
    hide ParseId, ParseFunction, ParseParens, ParseIf, ParseFor, ParseBlock, Parse, Finished, TermTail, Settles, Text;
    hide Acted, Opened;
    match a
    case Do(term) =>
      y := TermSettles(env, m, term, st, rest, exe, fuel);
      DoActs(env, term, StoreOf(m), exe, rest[0].token.tid == RPAREN);
    case Set(x, value) =>
      y := SetSettles(env, m, x, value, st, rest, exe, fuel);
      NameOpens(env, m, x, st, exe, fuel);
    case Step(x, op) =>
      y := StepSettles(env, m, x, op, st, rest, exe, fuel);
      NameOpens(env, m, x, st, exe, fuel);
  }

  lemma DoActs(env: Env, term: Term, s: Store, exe: bool, last: bool)
    ensures Acted(env, Do(term), s, exe, last) == TermValue(env, term, s, exe)
  {
  }

  lemma NameOpens(env: Env, m: Machine, x: Name, st: State, exe: bool, fuel: nat)
    ensures Opened(env, m, Token(ID, x), st, exe, fuel) == ParseId(env, m, st, exe, x, fuel)
  {
    hide ParseId;
  }

  /** An action in the head of a loop. */
  lemma ActionParsed(env: Env, m: Machine, a: Action, rest: seq<Lexeme>, exe: bool, fuel: nat)
    requires Closed(rest) && rest[0].token.tid in {RPAREN, SEMI}
    requires m.input == Input(ActionText(a, rest), None) && Enough(fuel, ActionText(a, rest), 0)
    ensures var b := Acted(env, a, StoreOf(m), exe, rest[0].token.tid == RPAREN);
      b.end in {Fine, Wrong} && Matches(Parse(env, m, Expr, exe, fuel), b, ExprDone, rest)
  {
    hide Opened, ParseStmt, Next, Advanced, ActionTail, ActionHead, Acted;
    var s := ActionText(a, rest);
    assert s[1..] == ActionTail(a, rest);
    ActionToken(a);
    WordRead(m, s, Expr);
    StmtUnfolds(env, m, Expr, exe, fuel);
    var y := ActionSettles(env, Advanced(m), a, Expr, rest, exe, fuel - 1);
  }

  lemma ActionToken(a: Action)
    ensures ActionHead(a).Word? ==> ActionHead(a).text !in KEYWORDS
    ensures Plain(ActionHead(a)).tid in {LITERAL, ID, FUNCTION, LPAREN} && Leading(ActionHead(a)) == Plain(ActionHead(a))
  {
  }
}
