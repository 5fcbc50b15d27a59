/** The interpreter as it runs: routines that call each other and change the input, the result and the variables. */
module EjParser {
  import opened Ej
  import opened EjSkip

  class Interpreter {
    const env: Env
    var input: Input
    var result: string
    var vars: Vars
    var calls: seq<CallRecord>

    function Now(): Machine
      reads this
    {
      Machine(input, result, vars, calls)
    }

    constructor (env: Env, script: seq<Lexeme>, vars: Vars)
      ensures Now() == Machine(Input(script, None), "", vars, []) && this.env == env
    {
      this.env, this.vars := env, vars;
      input, result, calls := Input(script, None), "", [];
    }

    method GetToken(st: State) returns (t: Token)
      modifies this`input
      ensures t == Next(old(Now()), st) && Now() == Advanced(old(Now()))
    {
      if input.putBack.Some? {
        t := input.putBack.value;
        input := input.(putBack := None);
      } else if input.script == [] {
        t := Token(EOF, "");
      } else {
        match input.script[0] {
          case Word(_, _) => t := Classified(input.script[0], st);
          case Other(token) => t := token;
        }
        input := input.(script := input.script[1..]);
      }
    }

    method PutBackToken(t: Token)
      modifies this`input
      ensures Now() == PutBack(old(Now()), t)
    {
      input := input.(putBack := if t.tid == ERR then None else Some(t));
    }

    method RemoveNewlines(st: State)
      modifies this`input
      ensures Now() == SkipNewlines(old(Now()), st)
    {
      hide Next, Advanced, PutBack;
      ghost var m := Now();
      var t := GetToken(st);
      while t.tid == NEWLINE
        invariant t == Next(m, st) && Now() == Advanced(m) && SkipNewlines(m, st) == SkipNewlines(old(Now()), st)
        decreases Left(m)
      {
        AdvancedLess(m);
        SkipUnfolds(m, st);
        m := Now();
        t := GetToken(st);
      }
      AdvancedLess(m);
      SkipUnfolds(m, st);
      PutBackToken(t);
    }

    /** One routine for every kind of phrase. */
    method Evaluate(st: State, exe: bool, fuel: nat) returns (r: State)
      modifies this
      ensures Out(Now(), r) == Parse(env, old(Now()), st, exe, fuel)
      ensures !exe && Skippable(st) && NoVar(old(input)) ==> vars == old(vars) && calls == old(calls) && NoVar(input)
      decreases fuel, 9
    {
      Skipped(env, Now(), st, exe, fuel);
      hide ParseStmt, ParseDeclaration, ParseCond, ParseExpr, NoVar;
      match st {
        case Stmt =>
          r := Statement(st, exe, fuel);
          if r !in {StmtDone, Eof, StmtBlockDone, Ret, Spent} {
            r := Err;
          }
        case Dec =>
          r := Statement(st, exe, fuel);
          if r !in {DecDone, Eof, Spent} {
            r := Err;
          }
        case Expr =>
          r := Statement(st, exe, fuel);
          if r !in {ExprDone, Eof, Spent} {
            r := Err;
          }
        case DecList => r := Declarations(exe, fuel);
        case Cond => r := Condition(exe, fuel);
        case RelExp => r := Expression(exe, fuel);
        case _ => r := st;
      }
    }

    /** The end of a statement that needs one. */
    method Finish(st: State) returns (r: State)
      modifies this`input
      ensures Out(Now(), r) == Finished(old(Now()), st)
    {
      hide Next, Advanced, SkipNewlines;
      if st == Stmt {
        var t := GetToken(st);
        if t.tid != SEMI && t.tid != NEWLINE {
          return Err;
        }
        RemoveNewlines(st);
      }
      r := Done(Now(), st).st;
    }

    method Statement(st: State, exe: bool, fuel: nat) returns (r: State)
      modifies this
      ensures Out(Now(), r) == ParseStmt(env, old(Now()), st, exe, fuel)
      ensures NoVar(old(input)) && Skippable(st) ==> Safe(old(Now()), Now(), exe)
      decreases fuel, 8
    {
      hide Parse, ParseStmt, Opened, Drained, Next, Advanced, NoVar, Safe;
      if NoVar(input) && Skippable(st) {
        SafeStmt(env, Now(), st, exe, fuel);
      }
      var left: nat := fuel;
      while left > 0
        invariant left <= fuel && ParseStmt(env, Now(), st, exe, left) == ParseStmt(env, old(Now()), st, exe, fuel)
        decreases left
      {
        StmtUnfolds(env, Now(), st, exe, left);
        left := left - 1;
        var t := GetToken(st);
        match t.tid {
          case NEWLINE =>
          case RETURN =>
            r := Evaluate(RelExp, exe, left);
            if r != RelExpDone {
              return Failed(Now(), r).st;
            }
            if exe {
              DrainInput();
              return Ret;
            }
          case _ =>
            r := Begun(t, st, exe, left);
            return;
        }
      }
      StmtUnfolds(env, Now(), st, exe, 0);
      r := Spent;
    }

    /** A statement whose first token has been read, unless that is a newline or `return`. */
    method Begun(t: Token, st: State, exe: bool, fuel: nat) returns (r: State)
      requires t.tid != NEWLINE && t.tid != RETURN
      modifies this
      ensures Out(Now(), r) == Opened(env, old(Now()), t, st, exe, fuel)
      decreases fuel, 14
    {
      hide Parse, ParseId, ParseFunction, ParseIf, ParseFor, ParseParens, ParseBlock, Finished, PutBack;
      match t.tid {
        case ERR => r := Err;
        case EOF => r := Eof;
        case SEMI =>
          if st != Stmt {
            PutBackToken(t);
          }
          r := Done(Now(), st).st;
        case ID => r := Identifier(t.text, st, exe, fuel);
        case LITERAL =>
          result := t.text;
          r := Finish(st);
        case FUNCTION => r := Function(t.text, st, exe, fuel);
        case IF =>
          if st != Stmt {
            return Err;
          }
          r := If(exe, fuel);
        case FOR =>
          if st != Stmt {
            return Err;
          }
          r := For(exe, fuel);
        case VAR =>
          r := Evaluate(DecList, exe, fuel);
          r := if r != DecListDone then Failed(Now(), r).st else Done(Now(), st).st;
        case LPAREN =>
          if st == Expr {
            r := Parens(exe, fuel);
          } else {
            r := Done(Now(), st).st;
          }
        case RPAREN =>
          PutBackToken(t);
          r := ExprDone;
        case LBRACE =>
          if st != Stmt {
            return Err;
          }
          r := Block(exe, fuel);
        case RBRACE =>
          if st != Stmt {
            return Err;
          }
          PutBackToken(t);
          r := StmtBlockDone;
        case ELSE | LOGICAL | EXPR | COMMA | ASSIGNMENT | INC_DEC =>
          PutBackToken(Token(EXPR, t.text));
          r := Done(Now(), st).st;
      }
    }

    /** Reads on to the end of the script. */
    method DrainInput()
      modifies this`input
      ensures Now() == Drained(old(Now()))
    {
      hide Next, Advanced;
      ghost var m := Now();
      var t := GetToken(Stmt);
      while t.tid != EOF
        invariant t == Next(m, Stmt) && Now() == Advanced(m) && Drained(m) == Drained(old(Now()))
        decreases Left(m)
      {
        AdvancedLess(m);
        DrainUnfolds(m);
        m := Now();
        t := GetToken(Stmt);
      }
      DrainUnfolds(m);
    }

    /** Stores the result in the variable's own frame, or in the global one. */
    method Assign(name: string)
      modifies this`vars
      ensures Now() == Assigned(old(Now()), name)
    {
      var i := if FrameOf(vars, name) > 0 then |vars| - 1 else 0;
      if 0 <= i < |vars| {
        vars := vars[i := vars[i][name := Some(result)]];
      }
    }

    method Declare(name: string, value: Option<string>)
      modifies this`vars
      ensures Now() == SetLocal(old(Now()), name, value)
    {
      if |vars| > 0 {
        vars := vars[|vars| - 1 := vars[|vars| - 1][name := value]];
      }
    }

    method Identifier(name: string, st: State, exe: bool, fuel: nat) returns (r: State)
      modifies this
      ensures Out(Now(), r) == ParseId(env, old(Now()), st, exe, name, fuel)
      decreases fuel, 10
    {
      hide Parse, ParseStmt, Finished, Next, Advanced, PutBack, FrameOf, ValueOf, Assigned, SetLocal;
      var t := GetToken(st);
      if t.tid == ASSIGNMENT {
        r := Evaluate(RelExp, exe, fuel);
        if r != RelExpDone {
          return Failed(Now(), r).st;
        }
        if exe {
          if st == Dec {
            Declare(name, Some(result));
          } else {
            Assign(name);
          }
        }
      } else if t.tid == INC_DEC {
        if exe {
          if FrameOf(vars, name) < 0 {
            return Err;
          }
          result := ValueOf(vars, name);
          var e := env.evalExpr(result, t.text, "1");
          if e.None? {
            r := Statement(Err, exe, fuel);
            return;
          }
          result := e.value;
          Assign(name);
        }
      } else {
        if st == Dec {
          if FrameOf(vars, name) > 0 {
            return Err;
          }
          var value := ValueOf(vars, name);
          Declare(name, None);
          result := value;
        } else if exe {
          if FrameOf(vars, name) < 0 {
            return Err;
          }
          result := ValueOf(vars, name);
        } else {
          result := "";
        }
        PutBackToken(t);
      }
      r := Finish(st);
    }

    method Function(name: string, st: State, exe: bool, fuel: nat) returns (r: State)
      modifies this
      ensures Out(Now(), r) == ParseFunction(env, old(Now()), st, exe, name, fuel)
      decreases fuel, 10
    {
      hide ParseArgs, Finished, Next, Advanced;
      result := "";
      var t := GetToken(st);
      if t.tid != LPAREN {
        return Err;
      }
      var args;
      r, args := Arguments(exe, fuel);
      if r != ArgListDone {
        return Failed(Now(), r).st;
      }
      if exe {
        var e := env.call(name, args, vars);
        result, vars, calls := e.result, e.vars, calls + [CallRecord(name, args)];
        if e.rc < 0 {
          return Err;
        }
      }
      t := GetToken(st);
      if t.tid != RPAREN {
        return Err;
      }
      r := Finish(st);
    }

    method If(exe: bool, fuel: nat) returns (r: State)
      modifies this
      ensures Out(Now(), r) == ParseIf(env, old(Now()), exe, fuel)
      decreases fuel, 13
    {
      hide Parse, ParseBranches, Next, Advanced;
      var t := GetToken(Stmt);
      if t.tid != LPAREN {
        return Err;
      }
      r := Evaluate(Cond, exe, fuel);
      if r != CondDone {
        return Failed(Now(), r).st;
      }
      t := GetToken(Stmt);
      if t.tid != RPAREN {
        return Err;
      }
      var taken := |result| > 0 && result[0] == '1';
      r := Branches(exe && taken, exe && !taken, fuel);
    }

    method Branches(thenExe: bool, elseExe: bool, fuel: nat) returns (r: State)
      modifies this
      ensures Out(Now(), r) == ParseBranches(env, old(Now()), thenExe, elseExe, fuel)
      decreases fuel, 10
    {
      hide Parse, SkipNewlines, Next, Advanced, PutBack;
      r := Evaluate(Stmt, thenExe, fuel);
      if r == Ret {
        return;
      }
      if r != StmtDone {
        return Failed(Now(), r).st;
      }
      RemoveNewlines(Stmt);
      var t := GetToken(Stmt);
      if t.tid != ELSE {
        PutBackToken(t);
        return StmtDone;
      }
      r := Evaluate(Stmt, elseExe, fuel);
      if r != Ret && r != StmtDone {
        r := Failed(Now(), r).st;
      }
    }

    method For(exe: bool, fuel: nat) returns (r: State)
      modifies this
      ensures Out(Now(), r) == ParseFor(env, old(Now()), exe, fuel)
      decreases fuel, 13
    {
      hide Parse, ForFrom, Next, Advanced;
      var t := GetToken(Stmt);
      if t.tid != LPAREN {
        return Err;
      }
      r := Evaluate(Expr, exe, fuel);
      if r != ExprDone {
        return Failed(Now(), r).st;
      }
      t := GetToken(Stmt);
      if t.tid != SEMI {
        return Err;
      }
      r := ForRest(exe, fuel);
    }

    method ForRest(exe: bool, fuel: nat) returns (r: State)
      modifies this
      ensures Out(Now(), r) == ForFrom(env, old(Now()), exe, fuel)
      decreases fuel, 12
    {
      hide Parse, SkipBody, Loop, Next, Advanced;
      var condScript := input;
      r := Evaluate(Cond, exe, fuel);
      if r != CondDone {
        return Failed(Now(), r).st;
      }
      var cond := !(|result| > 0 && result[0] == '0');
      var t := GetToken(Stmt);
      if t.tid != SEMI {
        return Err;
      }
      var incrScript, bodyScript;
      r, incrScript, bodyScript := FirstPass(fuel);
      if r != StmtDone {
        return Failed(Now(), r).st;
      }
      var endScript := input;
      if exe && cond {
        r := Iterate(condScript, incrScript, bodyScript, fuel);
        if r != StmtDone {
          return;
        }
        input := endScript;
      }
      r := StmtDone;
    }

    /** The increment and the body are read without being executed. */
    method FirstPass(fuel: nat) returns (r: State, incrScript: Input, bodyScript: Input)
      modifies this
      ensures (Out(Now(), r), incrScript, bodyScript) == SkipBody(env, old(Now()), fuel)
      ensures NoVar(old(input)) ==> Quiet(old(Now()), Now())
      decreases fuel, 10
    {
      hide Parse, Next, Advanced, NoVar, Quiet;
      if NoVar(input) {
        BodyQuiet(env, Now(), fuel);
      }
      incrScript, bodyScript := input, input;
      r := Evaluate(Expr, false, fuel);
      if r != ExprDone {
        return Failed(Now(), r).st, incrScript, bodyScript;
      }
      var t := GetToken(Stmt);
      if t.tid != RPAREN {
        return Err, incrScript, bodyScript;
      }
      bodyScript := input;
      r := Evaluate(Stmt, false, fuel);
      if r != StmtDone {
        r := Failed(Now(), r).st;
      }
    }

    method Iterate(condScript: Input, incrScript: Input, bodyScript: Input, fuel: nat) returns (r: State)
      modifies this
      ensures Out(Now(), r) == Loop(env, old(Now()), condScript, incrScript, bodyScript, fuel)
      decreases fuel, 10
    {
      hide Parse;
      var left: nat := fuel;
      while true
        invariant left <= fuel
        invariant Loop(env, Now(), condScript, incrScript, bodyScript, left)
               == Loop(env, old(Now()), condScript, incrScript, bodyScript, fuel)
        decreases left
      {
        input := bodyScript;
        r := Evaluate(Stmt, true, left);
        if r == Ret {
          return;
        }
        if r != StmtDone {
          return Failed(Now(), r).st;
        }
        input := incrScript;
        r := Evaluate(Expr, true, left);
        if r != ExprDone {
          return Failed(Now(), r).st;
        }
        input := condScript;
        r := Evaluate(Cond, true, left);
        if r != CondDone {
          return Failed(Now(), r).st;
        }
        if |result| > 0 && result[0] == '0' {
          return StmtDone;
        }
        if left == 0 {
          return Spent;
        }
        left := left - 1;
      }
    }

    method Parens(exe: bool, fuel: nat) returns (r: State)
      modifies this
      ensures Out(Now(), r) == ParseParens(env, old(Now()), exe, fuel)
      decreases fuel, 10
    {
      hide Parse, Next, Advanced;
      r := Evaluate(RelExp, exe, fuel);
      if r != RelExpDone {
        return Failed(Now(), r).st;
      }
      var t := GetToken(Expr);
      r := if t.tid != RPAREN then Err else ExprDone;
    }

    method Block(exe: bool, fuel: nat) returns (r: State)
      modifies this
      ensures Out(Now(), r) == ParseBlock(env, old(Now()), exe, fuel)
      ensures NoVar(old(input)) ==> Safe(old(Now()), Now(), exe)
      decreases fuel, 10
    {
      hide Parse, Next, Advanced, BlockAfter, NoVar, Safe;
      if NoVar(input) {
        SafeBlock(env, Now(), exe, fuel);
      }
      var left: nat := fuel;
      r := Evaluate(Stmt, exe, left);
      while r == StmtDone
        invariant left <= fuel
        invariant ParseBlock(env, old(Now()), exe, fuel) == BlockAfter(env, Out(Now(), r), exe, left)
        decreases left
      {
        BlockUnfolds(env, Out(Now(), r), exe, left);
        if left == 0 {
          return Spent;
        }
        left := left - 1;
        r := Evaluate(Stmt, exe, left);
      }
      BlockUnfolds(env, Out(Now(), r), exe, left);
      if r == Ret || r == Spent {
        return;
      }
      var t := GetToken(r);
      r := if t.tid != RBRACE then Err else StmtDone;
    }

    method Declarations(exe: bool, fuel: nat) returns (r: State)
      modifies this
      ensures Out(Now(), r) == ParseDeclaration(env, old(Now()), DecList, exe, fuel)
      decreases fuel, 8
    {
      hide Parse, Next, Advanced, PutBack;
      var left: nat := fuel;
      while left > 0
        invariant left <= fuel
        invariant ParseDeclaration(env, Now(), DecList, exe, left) == ParseDeclaration(env, old(Now()), DecList, exe, fuel)
        decreases left
      {
        left := left - 1;
        var t := GetToken(DecList);
        if t.tid != ID {
          return Err;
        }
        PutBackToken(t);
        r := Evaluate(Dec, exe, left);
        if r != DecDone {
          return Failed(Now(), r).st;
        }
        t := GetToken(DecList);
        if t.tid == SEMI {
          return DecListDone;
        }
        if t.tid != COMMA {
          return Err;
        }
      }
      r := Spent;
    }

    method Arguments(exe: bool, fuel: nat) returns (r: State, args: seq<string>)
      modifies this
      ensures (Out(Now(), r), args) == ParseArgs(env, old(Now()), exe, [], fuel)
      ensures NoVar(old(input)) ==> Safe(old(Now()), Now(), exe)
      decreases fuel, 8
    {
      hide Parse, Next, Advanced, PutBack, NoVar, Safe;
      if NoVar(input) {
        SafeArgs(env, Now(), exe, [], fuel);
      }
      var left: nat := fuel;
      args := [];
      while left > 0
        invariant left <= fuel
        invariant ParseArgs(env, Now(), exe, args, left) == ParseArgs(env, old(Now()), exe, [], fuel)
        decreases left
      {
        left := left - 1;
        r := Evaluate(RelExp, exe, left);
        if r in {Eof, Err, Spent} {
          return;
        }
        if r == RelExpDone {
          args := args + [result];
        }
        var t := GetToken(r);
        if t.tid != COMMA {
          PutBackToken(t);
          r := if t.tid != RPAREN && r != RelExpDone then Err else ArgListDone;
          return;
        }
      }
      r := Spent;
    }

    /** Joins the result so far with the one just read, by the operator between them if there is one. */
    method Combine(arithmetic: bool, lhs: string, op: string) returns (ok: bool)
      modifies this`result
      ensures match Combined(if arithmetic then env.evalExpr else env.evalCond, old(Now()), lhs, op)
        case None => !ok && Now() == old(Now())
        case Some(m) => ok && Now() == m
    {
      if op != "" {
        var e := if arithmetic then env.evalExpr(lhs, op, result) else env.evalCond(lhs, op, result);
        if e.None? {
          return false;
        }
        result := e.value;
      }
      ok := true;
    }

    method Condition(exe: bool, fuel: nat) returns (r: State)
      modifies this
      ensures Out(Now(), r) == ParseCond(env, old(Now()).(result := ""), exe, "", "", fuel)
      ensures NoVar(old(input)) ==> Safe(old(Now()), Now(), exe)
      decreases fuel, 8
    {
      hide Parse, Next, Advanced, PutBack, NoVar, Safe, Combined;
      CondSafe(env, Now(), exe, fuel);
      var left: nat := fuel;
      result := "";
      var lhs, op := "", "";
      while left > 0
        invariant left <= fuel
        invariant ParseCond(env, Now(), exe, lhs, op, left)
               == ParseCond(env, old(Now()).(result := ""), exe, "", "", fuel)
        decreases left
      {
        left := left - 1;
        r := Evaluate(RelExp, exe, left);
        if r != RelExpDone {
          return Failed(Now(), r).st;
        }
        var ok := Combine(false, lhs, op);
        if !ok {
          return Err;
        }
        lhs := result;
        var t := GetToken(RelExpDone);
        if t.tid == LOGICAL {
          op := t.text;
        } else {
          PutBackToken(t);
          if t.tid == RPAREN || t.tid == SEMI {
            return CondDone;
          }
        }
      }
      r := Spent;
    }

    method Expression(exe: bool, fuel: nat) returns (r: State)
      modifies this
      ensures Out(Now(), r) == ParseExpr(env, old(Now()).(result := ""), exe, ERR, "", "", fuel)
      ensures NoVar(old(input)) ==> Safe(old(Now()), Now(), exe)
      decreases fuel, 8
    {
      hide Parse, Next, Advanced, PutBack, NoVar, Safe, Combined;
      ExprSafe(env, Now(), exe, fuel);
      var left: nat := fuel;
      result := "";
      var lhs, op, tid := "", "", ERR;
      while left > 0
        invariant left <= fuel
        invariant ParseExpr(env, Now(), exe, tid, lhs, op, left)
               == ParseExpr(env, old(Now()).(result := ""), exe, ERR, "", "", fuel)
        decreases left
      {
        left := left - 1;
        r := Evaluate(if tid == LOGICAL then RelExp else Expr, exe, left);
        if r != (if tid == LOGICAL then RelExpDone else ExprDone) {
          return Failed(Now(), r).st;
        }
        var ok := Combine(tid != LOGICAL, lhs, op);
        if !ok {
          return Err;
        }
        lhs := result;
        var t := GetToken(r);
        if t.tid != EXPR && t.tid != INC_DEC && t.tid != LOGICAL {
          PutBackToken(t);
          return RelExpDone;
        }
        if tid == LOGICAL {
          return RelExpDone;
        }
        tid, op := t.tid, t.text;
      }
      r := Spent;
    }
  }

  lemma Skipped(env: Env, m: Machine, st: State, exe: bool, fuel: nat)
    ensures var m' := Parse(env, m, st, exe, fuel).m;
      !exe && Skippable(st) && NoVar(m.input) ==> m'.vars == m.vars && m'.calls == m.calls && NoVar(m'.input)
  {
    hide Parse, NoVar;
    if !exe && Skippable(st) && NoVar(m.input) {
      SafeParse(env, m, st, exe, fuel);
    }
  }

  lemma CondSafe(env: Env, m: Machine, exe: bool, fuel: nat)
    ensures NoVar(m.input) ==> Safe(m, ParseCond(env, m.(result := ""), exe, "", "", fuel).m, exe)
  {
    hide NoVar, ParseCond;
    if NoVar(m.input) {
      SafeCond(env, m.(result := ""), exe, "", "", fuel);
    }
  }

  lemma ExprSafe(env: Env, m: Machine, exe: bool, fuel: nat)
    ensures NoVar(m.input) ==> Safe(m, ParseExpr(env, m.(result := ""), exe, ERR, "", "", fuel).m, exe)
  {
    hide NoVar, ParseExpr;
    if NoVar(m.input) {
      SafeExpr(env, m.(result := ""), exe, ERR, "", "", fuel);
    }
  }

  lemma DrainUnfolds(m: Machine)
    ensures Drained(m) == if Next(m, Stmt).tid == EOF || Left(m) == 0 then Advanced(m) else Drained(Advanced(m))
  {
  }
}
