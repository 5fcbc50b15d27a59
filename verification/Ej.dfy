/** The Ejscript interpreter: one recursive-descent parser that executes, or only skips, what it reads. */
module Ej {

  datatype Option<T> = None | Some(value: T)

  datatype Tid =
    | ERR | LPAREN | RPAREN | IF | ELSE | LBRACE | RBRACE | LOGICAL | EXPR | SEMI | LITERAL | FUNCTION | NEWLINE | ID
    | EOF | COMMA | VAR | ASSIGNMENT | FOR | INC_DEC | RETURN

  datatype Token = Token(tid: Tid, text: string)

  /** What the script is made of: a word, with or without `(` behind it, or any other token. */
  datatype Lexeme = Word(text: string, called: bool) | Other(token: Token)

  datatype State =
    | Err | Eof | Cond | CondDone | RelExp | RelExpDone | Expr | ExprDone | Stmt | StmtDone | StmtBlockDone
    | ArgList | ArgListDone | DecList | DecListDone | Dec | DecDone | Ret
    | Spent // the bound on steps was reached

  /** The script still to be read, and a token that was put back. */
  datatype Input = Input(script: seq<Lexeme>, putBack: Option<Token>)

  /** Variable frames, the global one first, the local one last; a declared variable may have no value. */
  type Vars = seq<map<string, Option<string>>>

  datatype CallRecord = CallRecord(name: string, args: seq<string>)

  /** The interpreter: its input, the current result, the variables, and the calls made so far. */
  datatype Machine = Machine(input: Input, result: string, vars: Vars, calls: seq<CallRecord>)

  /** What a script function does: a return code, its result, and the variables it leaves. */
  datatype Effect = Effect(rc: int, result: string, vars: Vars)

  /** Operators and script functions, as given. */
  datatype Env = Env(
    evalExpr: (string, string, string) -> Option<string>,
    evalCond: (string, string, string) -> Option<string>,
    call: (string, seq<string>, Vars) -> Effect)

  datatype Out = Out(m: Machine, st: State)

  // --- Tokens ---

  /** Words are keywords only where a statement may begin. */
  function Classified(w: Lexeme, st: State): Token
    requires w.Word?
  {
    if st == Stmt && w.text == "if" then Token(IF, w.text)
    else if st == Stmt && w.text == "else" then Token(ELSE, w.text)
    else if st == Stmt && w.text == "var" then Token(VAR, w.text)
    else if st == Stmt && w.text == "for" then Token(FOR, w.text)
    else if st == Stmt && w.text == "return" then Token(RETURN, w.text)
    else Token(if w.called then FUNCTION else ID, w.text)
  }

  function Next(m: Machine, st: State): Token {
    if m.input.putBack.Some? then m.input.putBack.value
    else if m.input.script == [] then Token(EOF, "")
    else
      match m.input.script[0]
      case Word(_, _) => Classified(m.input.script[0], st)
      case Other(token) => token
  }

  function Advanced(m: Machine): Machine {
    if m.input.putBack.Some? then m.(input := m.input.(putBack := None))
    else if m.input.script == [] then m
    else m.(input := m.input.(script := m.input.script[1..]))
  }

  /** An error token is not put back. */
  function PutBack(m: Machine, t: Token): Machine {
    m.(input := m.input.(putBack := if t.tid == ERR then None else Some(t)))
  }

  function Left(m: Machine): nat {
    |m.input.script| + if m.input.putBack.Some? then 1 else 0
  }

  function SkipNewlines(m: Machine, st: State): Machine
    decreases Left(m)
  {
    var t := Next(m, st);
    if t.tid == NEWLINE && Left(m) > 0 then SkipNewlines(Advanced(m), st) else PutBack(Advanced(m), t)
  }

  lemma SkipUnfolds(m: Machine, st: State)
    ensures var t := Next(m, st);
      SkipNewlines(m, st)
      == if t.tid == NEWLINE && Left(m) > 0 then SkipNewlines(Advanced(m), st) else PutBack(Advanced(m), t)
  {
  }

  lemma AdvancedLess(m: Machine)
    ensures Left(m) > 0 ==> Left(Advanced(m)) < Left(m)
    ensures forall st :: Left(m) == 0 ==> Next(m, st).tid == EOF
  {
  }

  function Drained(m: Machine): Machine
    decreases Left(m)
  {
    if Next(m, Stmt).tid == EOF || Left(m) == 0 then Advanced(m) else Drained(Advanced(m))
  }

  // --- Variables ---

  predicate InFrame(vars: Vars, i: int, name: string) {
    0 <= i < |vars| && name in vars[i]
  }

  /** The frame a variable is found in, the local one before the global one, or -1. */
  function FrameOf(vars: Vars, name: string): int {
    if InFrame(vars, |vars| - 1, name) then |vars| - 1 else if InFrame(vars, 0, name) then 0 else -1
  }

  function ValueOf(vars: Vars, name: string): string {
    var i := FrameOf(vars, name);
    if i >= 0 && i < |vars| && name in vars[i] && vars[i][name].Some? then vars[i][name].value else ""
  }

  function SetIn(m: Machine, i: int, name: string, value: Option<string>): Machine {
    if 0 <= i < |m.vars| then m.(vars := m.vars[i := m.vars[i][name := value]]) else m
  }

  function SetLocal(m: Machine, name: string, value: Option<string>): Machine {
    SetIn(m, |m.vars| - 1, name, value)
  }

  /** An assignment goes to the local frame if the variable is there, and to the global one otherwise. */
  function Assigned(m: Machine, name: string): Machine {
    if FrameOf(m.vars, name) > 0 then SetLocal(m, name, Some(m.result)) else SetIn(m, 0, name, Some(m.result))
  }

  // --- Ends of a statement ---

  function Failed(m: Machine, st: State): Out {
    Out(m, if st == Spent then Spent else Err)
  }

  function Done(m: Machine, st: State): Out {
    Out(m, match st
      case Stmt => StmtDone
      case Dec => DecDone
      case Expr => ExprDone
      case Eof => Eof
      case _ => Err)
  }

  /** A statement that needs one ends in `;` or a newline, and the newlines behind it are skipped. */
  function Finished(m: Machine, st: State): Out {
    if st != Stmt then Done(m, st)
    else
      var t := Next(m, st);
      if t.tid != SEMI && t.tid != NEWLINE then Failed(Advanced(m), Err)
      else Done(SkipNewlines(Advanced(m), st), st)
  }

  // --- The parser ---

  function Parse(env: Env, m: Machine, st: State, exe: bool, fuel: nat): Out
    decreases fuel, 9
  {
    match st
    case Stmt =>
      var o := ParseStmt(env, m, st, exe, fuel);
      if o.st in {StmtDone, Eof, StmtBlockDone, Ret, Spent} then o else Out(o.m, Err)
    case Dec =>
      var o := ParseStmt(env, m, st, exe, fuel);
      if o.st in {DecDone, Eof, Spent} then o else Out(o.m, Err)
    case Expr =>
      var o := ParseStmt(env, m, st, exe, fuel);
      if o.st in {ExprDone, Eof, Spent} then o else Out(o.m, Err)
    case DecList => ParseDeclaration(env, m, st, exe, fuel)
    case Cond => ParseCond(env, m.(result := ""), exe, "", "", fuel)
    case RelExp => ParseExpr(env, m.(result := ""), exe, ERR, "", "", fuel)
    case _ => Out(m, st)
  }

  function ParseStmt(env: Env, m: Machine, st: State, exe: bool, fuel: nat): Out
    decreases fuel, 8
  {
    if fuel == 0 then Out(m, Spent)
    else
      var t, m1 := Next(m, st), Advanced(m);
      if t.tid == NEWLINE then ParseStmt(env, m1, st, exe, fuel - 1)
      else if t.tid == RETURN then
        var o := Parse(env, m1, RelExp, exe, fuel - 1);
        if o.st != RelExpDone then Failed(o.m, o.st)
        else if exe then Out(Drained(o.m), Ret)
        else ParseStmt(env, o.m, st, exe, fuel - 1)
      else Opened(env, m1, t, st, exe, fuel - 1)
  }

  /** A statement whose first token, `t`, has been read. */
  function Opened(env: Env, m: Machine, t: Token, st: State, exe: bool, fuel: nat): Out
    requires t.tid != NEWLINE && t.tid != RETURN
    decreases fuel, 14
  {
    match t.tid
    case ERR => Done(m, Err)
    case EOF => Done(m, Eof)
    case SEMI => Done(if st == Stmt then m else PutBack(m, t), st)
    case ID => ParseId(env, m, st, exe, t.text, fuel)
    case LITERAL => Finished(m.(result := t.text), st)
    case FUNCTION => ParseFunction(env, m, st, exe, t.text, fuel)
    case IF => if st != Stmt then Failed(m, Err) else ParseIf(env, m, exe, fuel)
    case FOR => if st != Stmt then Failed(m, Err) else ParseFor(env, m, exe, fuel)
    case VAR =>
      var o := Parse(env, m, DecList, exe, fuel);
      if o.st != DecListDone then Failed(o.m, o.st) else Done(o.m, st)
    case LPAREN => if st == Expr then ParseParens(env, m, exe, fuel) else Done(m, st)
    case RPAREN => Out(PutBack(m, t), ExprDone)
    case LBRACE => if st != Stmt then Failed(m, Err) else ParseBlock(env, m, exe, fuel)
    case RBRACE => if st == Stmt then Out(PutBack(m, t), StmtBlockDone) else Failed(m, Err)
    case _ => Done(PutBack(m, Token(EXPR, t.text)), st)
  }

  /** A variable: assigned, incremented, declared or read. */
  function ParseId(env: Env, m: Machine, st: State, exe: bool, name: string, fuel: nat): Out
    decreases fuel, 10
  {
    var t, m1 := Next(m, st), Advanced(m);
    if t.tid == ASSIGNMENT then
      var o := Parse(env, m1, RelExp, exe, fuel);
      if o.st != RelExpDone then Failed(o.m, o.st)
      else if !exe then Finished(o.m, st)
      else if st == Dec then Finished(SetLocal(o.m, name, Some(o.m.result)), st)
      else Finished(Assigned(o.m, name), st)
    else if t.tid == INC_DEC then
      if !exe then Finished(m1, st)
      else if FrameOf(m1.vars, name) < 0 then Failed(m1, Err)
      else
        var value := ValueOf(m1.vars, name);
        match env.evalExpr(value, t.text, "1")
        case None => ParseStmt(env, m1.(result := value), Err, exe, fuel)
        case Some(r) => Finished(Assigned(m1.(result := r), name), st)
    else if st == Dec then
      if FrameOf(m1.vars, name) > 0 then Failed(m1, Err)
      else
        var value := ValueOf(m1.vars, name);
        Finished(PutBack(SetLocal(m1, name, None).(result := value), t), st)
    else if exe && FrameOf(m1.vars, name) < 0 then Failed(m1, Err)
    else Finished(PutBack(m1.(result := if exe then ValueOf(m1.vars, name) else ""), t), st)
  }

  /** A function: its arguments are always read, but it is called only when executing. */
  function ParseFunction(env: Env, m: Machine, st: State, exe: bool, name: string, fuel: nat): Out
    decreases fuel, 10
  {
    var m1 := m.(result := "");
    if Next(m1, st).tid != LPAREN then Failed(Advanced(m1), Err)
    else
      var (o, args) := ParseArgs(env, Advanced(m1), exe, [], fuel);
      if o.st != ArgListDone then Failed(o.m, o.st)
      else if exe && Called(env, o.m, name, args).1 < 0 then Failed(Called(env, o.m, name, args).0, Err)
      else
        var m2 := if exe then Called(env, o.m, name, args).0 else o.m;
        if Next(m2, st).tid != RPAREN then Failed(Advanced(m2), Err) else Finished(Advanced(m2), st)
  }

  function Called(env: Env, m: Machine, name: string, args: seq<string>): (Machine, int) {
    var e := env.call(name, args, m.vars);
    (m.(result := e.result, vars := e.vars, calls := m.calls + [CallRecord(name, args)]), e.rc)
  }

  /** Both branches are read; at most one is executed. */
  function ParseIf(env: Env, m: Machine, exe: bool, fuel: nat): Out
    decreases fuel, 13
  {
    if Next(m, Stmt).tid != LPAREN then Failed(Advanced(m), Err)
    else
      var o := Parse(env, Advanced(m), Cond, exe, fuel);
      if o.st != CondDone then Failed(o.m, o.st)
      else if Next(o.m, Stmt).tid != RPAREN then Failed(Advanced(o.m), Err)
      else
        var taken := |o.m.result| > 0 && o.m.result[0] == '1';
        ParseBranches(env, Advanced(o.m), exe && taken, exe && !taken, fuel)
  }

  function ParseBranches(env: Env, m: Machine, thenExe: bool, elseExe: bool, fuel: nat): Out
    decreases fuel, 10
  {
    var o := Parse(env, m, Stmt, thenExe, fuel);
    if o.st == Ret then o
    else if o.st != StmtDone then Failed(o.m, o.st)
    else
      var m1 := SkipNewlines(o.m, Stmt);
      var t := Next(m1, Stmt);
      if t.tid != ELSE then Done(PutBack(Advanced(m1), t), Stmt)
      else
        var p := Parse(env, Advanced(m1), Stmt, elseExe, fuel);
        if p.st == Ret then p else if p.st != StmtDone then Failed(p.m, p.st) else Done(p.m, Stmt)
  }

  /** The initialisation of a loop, then the loop itself. */
  function ParseFor(env: Env, m: Machine, exe: bool, fuel: nat): Out
    decreases fuel, 13
  {
    if Next(m, Stmt).tid != LPAREN then Failed(Advanced(m), Err)
    else
      var o := Parse(env, Advanced(m), Expr, exe, fuel);
      if o.st != ExprDone then Failed(o.m, o.st)
      else if Next(o.m, Stmt).tid != SEMI then Failed(Advanced(o.m), Err)
      else ForFrom(env, Advanced(o.m), exe, fuel)
  }

  /** A loop reads its increment and its body once without executing them, to find where it ends. */
  function ForFrom(env: Env, m: Machine, exe: bool, fuel: nat): Out
    decreases fuel, 12
  {
    var p := Parse(env, m, Cond, exe, fuel);
    if p.st != CondDone then Failed(p.m, p.st)
    else if Next(p.m, Stmt).tid != SEMI then Failed(Advanced(p.m), Err)
    else
      var cond := !(|p.m.result| > 0 && p.m.result[0] == '0');
      var (s, incr, body) := SkipBody(env, Advanced(p.m), fuel);
      if s.st != StmtDone then Failed(s.m, s.st)
      else if exe && cond then
        var l := Loop(env, s.m, m.input, incr, body, fuel);
        if l.st != StmtDone then l else Done(l.m.(input := s.m.input), Stmt)
      else Done(s.m, Stmt)
  }

  /** The increment and the body, read but not executed, and where each begins. */
  function SkipBody(env: Env, m: Machine, fuel: nat): (Out, Input, Input)
    decreases fuel, 10
  {
    var o := Parse(env, m, Expr, false, fuel);
    if o.st != ExprDone then (Failed(o.m, o.st), m.input, m.input)
    else if Next(o.m, Stmt).tid != RPAREN then (Failed(Advanced(o.m), Err), m.input, m.input)
    else
      var m1 := Advanced(o.m);
      var p := Parse(env, m1, Stmt, false, fuel);
      (if p.st == StmtDone then p else Failed(p.m, p.st), m.input, m1.input)
  }

  /** Body, increment, condition, until the condition is 0; each time the input goes back to where they begin. */
  function Loop(env: Env, m: Machine, condAt: Input, incrAt: Input, bodyAt: Input, fuel: nat): Out
    decreases fuel, 10
  {
    var b := Parse(env, m.(input := bodyAt), Stmt, true, fuel);
    if b.st == Ret then b
    else if b.st != StmtDone then Failed(b.m, b.st)
    else
      var i := Parse(env, b.m.(input := incrAt), Expr, true, fuel);
      if i.st != ExprDone then Failed(i.m, i.st)
      else
        var c := Parse(env, i.m.(input := condAt), Cond, true, fuel);
        if c.st != CondDone then Failed(c.m, c.st)
        else if |c.m.result| > 0 && c.m.result[0] == '0' then Out(c.m, StmtDone)
        else if fuel == 0 then Out(c.m, Spent)
        else Loop(env, c.m, condAt, incrAt, bodyAt, fuel - 1)
  }

  function ParseParens(env: Env, m: Machine, exe: bool, fuel: nat): Out
    decreases fuel, 10
  {
    var o := Parse(env, m, RelExp, exe, fuel);
    if o.st != RelExpDone then Failed(o.m, o.st)
    else if Next(o.m, Expr).tid != RPAREN then Failed(Advanced(o.m), Err)
    else Out(Advanced(o.m), ExprDone)
  }

  /** Statements up to the closing brace. */
  function ParseBlock(env: Env, m: Machine, exe: bool, fuel: nat): Out
    decreases fuel, 11
  {
    BlockAfter(env, Parse(env, m, Stmt, exe, fuel), exe, fuel)
  }

  /** What follows in a block once a statement in it has been read. */
  function BlockAfter(env: Env, o: Out, exe: bool, fuel: nat): Out
    decreases fuel, 10
  {
    if o.st == StmtDone then (if fuel == 0 then Out(o.m, Spent) else ParseBlock(env, o.m, exe, fuel - 1))
    else if o.st == Ret || o.st == Spent then o
    else if Next(o.m, o.st).tid != RBRACE then Failed(Advanced(o.m), Err)
    else Out(Advanced(o.m), StmtDone)
  }

  function ParseDeclaration(env: Env, m: Machine, st: State, exe: bool, fuel: nat): Out
    decreases fuel, 8
  {
    if fuel == 0 then Out(m, Spent)
    else
      var t := Next(m, st);
      if t.tid != ID then Out(Advanced(m), Err)
      else
        var o := Parse(env, PutBack(Advanced(m), t), Dec, exe, fuel - 1);
        if o.st != DecDone then Failed(o.m, o.st)
        else
          var tid, m1 := Next(o.m, st).tid, Advanced(o.m);
          if tid == SEMI then Out(m1, DecListDone)
          else if tid != COMMA then Out(m1, Err)
          else ParseDeclaration(env, m1, st, exe, fuel - 1)
  }

  /** Arguments, separated by commas. */
  function ParseArgs(env: Env, m: Machine, exe: bool, args: seq<string>, fuel: nat): (Out, seq<string>)
    decreases fuel, 8
  {
    if fuel == 0 then (Out(m, Spent), args)
    else
      var o := Parse(env, m, RelExp, exe, fuel - 1);
      if o.st in {Eof, Err, Spent} then (o, args)
      else
        var args' := if o.st == RelExpDone then args + [o.m.result] else args;
        var t, m1 := Next(o.m, o.st), Advanced(o.m);
        if t.tid == COMMA then ParseArgs(env, m1, exe, args', fuel - 1)
        else (Out(PutBack(m1, t), if t.tid != RPAREN && o.st != RelExpDone then Err else ArgListDone), args')
  }

  /** A condition: relational expressions joined by logical operators, from left to right. */
  function ParseCond(env: Env, m: Machine, exe: bool, lhs: string, op: string, fuel: nat): Out
    decreases fuel, 8
  {
    if fuel == 0 then Out(m, Spent)
    else
      var o := Parse(env, m, RelExp, exe, fuel - 1);
      if o.st != RelExpDone then Failed(o.m, o.st)
      else
        match Combined(env.evalCond, o.m, lhs, op)
        case None => Out(o.m, Err)
        case Some(m1) =>
          var t, m2 := Next(m1, RelExpDone), Advanced(m1);
          if t.tid == LOGICAL then ParseCond(env, m2, exe, m1.result, t.text, fuel - 1)
          else if t.tid == RPAREN || t.tid == SEMI then Out(PutBack(m2, t), CondDone)
          else ParseCond(env, PutBack(m2, t), exe, m1.result, op, fuel - 1)
  }

  /** The result so far and the one just read, once there is an operator between them. */
  function Combined(eval: (string, string, string) -> Option<string>, m: Machine, lhs: string, op: string): Option<Machine> {
    if op == "" then Some(m)
    else
      match eval(lhs, op, m.result)
      case None => None
      case Some(r) => Some(m.(result := r))
  }

  /** An expression: terms joined by operators; behind a logical operator the rest is an expression of its own. */
  function ParseExpr(env: Env, m: Machine, exe: bool, last: Tid, lhs: string, op: string, fuel: nat): Out
    decreases fuel, 8
  {
    if fuel == 0 then Out(m, Spent)
    else
      var o := Parse(env, m, if last == LOGICAL then RelExp else Expr, exe, fuel - 1);
      if o.st != (if last == LOGICAL then RelExpDone else ExprDone) then Failed(o.m, o.st)
      else
        match Combined(if last == LOGICAL then env.evalCond else env.evalExpr, o.m, lhs, op)
        case None => Out(o.m, Err)
        case Some(m1) =>
          var t, m2 := Next(m1, o.st), Advanced(m1);
          if t.tid == EXPR || t.tid == INC_DEC || t.tid == LOGICAL then
            // After a logical operator the loop does not go round again.
            if last == LOGICAL then Out(m2, RelExpDone)
            else ParseExpr(env, m2, exe, t.tid, m1.result, t.text, fuel - 1)
          else Out(PutBack(m2, t), RelExpDone)
  }

  // --- One step at a time ---

  lemma BlockUnfolds(env: Env, o: Out, exe: bool, fuel: nat)
    ensures BlockAfter(env, o, exe, fuel)
      == if o.st == StmtDone then
           (if fuel == 0 then Out(o.m, Spent)
            else BlockAfter(env, Parse(env, o.m, Stmt, exe, fuel - 1), exe, fuel - 1))
         else if o.st == Ret || o.st == Spent then o
         else if Next(o.m, o.st).tid != RBRACE then Failed(Advanced(o.m), Err)
         else Out(Advanced(o.m), StmtDone)
  {
    hide Parse, Next, Advanced;
  }

  lemma StmtUnfolds(env: Env, m: Machine, st: State, exe: bool, fuel: nat)
    ensures ParseStmt(env, m, st, exe, fuel)
      == if fuel == 0 then Out(m, Spent)
         else
           var t, m1 := Next(m, st), Advanced(m);
           if t.tid == NEWLINE then ParseStmt(env, m1, st, exe, fuel - 1)
           else if t.tid == RETURN then
             var o := Parse(env, m1, RelExp, exe, fuel - 1);
             if o.st != RelExpDone then Failed(o.m, o.st)
             else if exe then Out(Drained(o.m), Ret)
             else ParseStmt(env, o.m, st, exe, fuel - 1)
           else Opened(env, m1, t, st, exe, fuel - 1)
  {
    hide Parse, Opened, Next, Advanced;
  }
}
