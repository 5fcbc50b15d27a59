/** Scripts whose effect can be told: branches, loops, operators, and an error that a block covers up. */
module EjLaws {
  import opened Ej
  import opened EjSkip
  import opened EjRuns
  import opened EjPrograms
  import opened EjMeaning
  import opened EjScripts

  function Lit(v: string): Expression {
    Expression(Literal(v), End)
  }

  function CallOf(f: Name, arg: Expression): Phrase {
    Act(Do(Call(f, Only(arg))))
  }

  function LitLexeme(v: string): Lexeme {
    Other(Token(LITERAL, v))
  }

  function Op(op: string): Lexeme {
    Other(Token(EXPR, op))
  }

  function M(tid: Tid): Lexeme {
    Other(Token(tid, ""))
  }

  // --- Branches ---

  /** `f(v);`, and more behind it. */
  function CallScript(f: Name, v: string, rest: seq<Lexeme>): seq<Lexeme> {
    [Word(f, true), M(LPAREN), LitLexeme(v), M(RPAREN), M(SEMI)] + rest
  }

  /** `if (v) f(a); else g(b);` */
  function BranchScript(v: string, f: Name, a: string, g: Name, b: string, rest: seq<Lexeme>): seq<Lexeme> {
    [Word("if", true), M(LPAREN), LitLexeme(v), M(RPAREN)]
    + CallScript(f, a, [Word("else", false)] + CallScript(g, b, rest))
  }

  lemma LitWritten(v: string, rest: seq<Lexeme>)
    ensures Text(Lit(v), rest) == [LitLexeme(v)] + rest
  {
    assert RestText(End, rest) == rest;
    assert TermTail(Literal(v), rest) == rest;
  }

  lemma LitMeant(env: Env, v: string, s: Store, exe: bool)
    ensures Value(env, Lit(v), s, exe) == After(s.(result := v), Fine)
  {
    assert TermValue(env, Literal(v), s.(result := ""), exe) == After(s.(result := v), Fine);
  }

  lemma CallWritten(f: Name, v: string, rest: seq<Lexeme>)
    ensures PhraseText(CallOf(f, Lit(v)), rest) == CallScript(f, v, rest)
  {
    hide Text, Lit;
    var behind := Mark(RPAREN, Mark(SEMI, rest));
    LitWritten(v, behind);
    assert ArgsText(Only(Lit(v)), behind) == [LitLexeme(v)] + behind;
    assert ActionTail(Do(Call(f, Only(Lit(v)))), Mark(SEMI, rest)) == Mark(LPAREN, [LitLexeme(v)] + behind);
  }

  lemma CallMeant(env: Env, f: Name, v: string, s: Store, exe: bool, n: nat)
    ensures var e := env.call(f, [v], s.vars);
      Run(env, CallOf(f, Lit(v)), s, exe, n)
      == if !exe then After(s.(result := v), Fine)
         else After(Store(e.result, e.vars, s.calls + [CallRecord(f, [v])]), if e.rc < 0 then Wrong else Fine)
  {
    hide Value, Lit;
    var args := Only(Lit(v));
    LitMeant(env, v, s.(result := ""), exe);
    assert Values(env, args, s.(result := ""), exe) == (After(s.(result := v), Fine), [v]);
    assert Acted(env, Do(Call(f, args)), s, exe, false) == TermValue(env, Call(f, args), s, exe);
  }

  /** `if (v) f(a); else g(b);` calls exactly the one of them that `v` says, and none when skipped. */
  lemma BranchCalls(env: Env, m: Machine, v: string, f: Name, a: string, g: Name, b: string, rest: seq<Lexeme>, exe: bool,
      fuel: nat)
    requires Calm(rest)
    requires m.input == Input(BranchScript(v, f, a, g, b, rest), None)
    requires fuel >= 2 * |m.input.script|
    ensures var o := Parse(env, m, Stmt, exe, fuel);
      if !exe then o.st == StmtDone && Untouched(m, o.m)
      else
        var (h, c) := if v != "" && v[0] == '1' then (f, a) else (g, b);
        var e := env.call(h, [c], m.vars);
        o.m.calls == m.calls + [CallRecord(h, [c])] && o.m.vars == e.vars && o.st == (if e.rc < 0 then Err else StmtDone)
  {
    hide Parse, PhraseText, PhraseTail, At, CallOf, CallScript, Run, Value, Lit;
    var yes, no := CallOf(f, Lit(a)), CallOf(g, Lit(b));
    var p := IfElse(Lit(v), yes, no);
    var s := StoreOf(m);
    BranchWritten(v, f, a, g, b, rest);
    NowAt(m);
    CallProper(f, Lit(a));
    CallProper(g, Lit(b));
    LitMeant(env, v, s, exe);
    CallMeant(env, f, a, s.(result := v), exe && Yes(v), 0);
    CallMeant(env, g, b, Run(env, yes, s.(result := v), exe && Yes(v), 0).s, exe && !Yes(v), 0);
    BranchMeant(env, Lit(v), yes, no, s, exe, 0);
    PhraseParsed(env, m, p, rest, exe, 0, fuel);
  }

  lemma CallProper(f: Name, arg: Expression)
    ensures var p := CallOf(f, arg); Proper(p) && Blockless(p) && !Open(p)
  {
  }

  lemma BranchMeant(env: Env, cond: Expression, yes: Phrase, no: Phrase, s: Store, exe: bool, n: nat)
    ensures Run(env, IfElse(cond, yes, no), s, exe, n)
      == var c := Value(env, cond, s, exe);
         if c.end != Fine then c
         else
           var a := Run(env, yes, c.s, exe && Yes(c.s.result), n);
           if a.end != Fine then a else Run(env, no, a.s, exe && !Yes(c.s.result), n)
  {
    hide Value;
  }

  lemma BranchWritten(v: string, f: Name, a: string, g: Name, b: string, rest: seq<Lexeme>)
    ensures PhraseText(IfElse(Lit(v), CallOf(f, Lit(a)), CallOf(g, Lit(b))), rest) == BranchScript(v, f, a, g, b, rest)
  {
    hide Text, Lit, CallOf, CallScript, PhraseText;
    CallWritten(g, b, rest);
    var other := [Word("else", false)] + CallScript(g, b, rest);
    CallWritten(f, a, other);
    LitWritten(v, Mark(RPAREN, CallScript(f, a, other)));
    assert PhraseTail(IfElse(Lit(v), CallOf(f, Lit(a)), CallOf(g, Lit(b))), rest)
        == Mark(LPAREN, [LitLexeme(v)] + Mark(RPAREN, CallScript(f, a, other)));
    TextSplits(IfElse(Lit(v), CallOf(f, Lit(a)), CallOf(g, Lit(b))), rest);
  }

  // --- Loops ---

  function Var(x: Name): Expression {
    Expression(Variable(x), End)
  }

  function Below(x: Name, less: Operator, v: string): Expression {
    Expression(Variable(x), Then(less, Literal(v), End))
  }

  /** `for (x = from; x less to; x inc) f(x);` */
  function CountingLoop(x: Name, from: string, less: Operator, to: string, inc: string, f: Name): Phrase {
    For(Set(x, Lit(from)), Below(x, less, to), Step(x, inc), CallOf(f, Var(x)))
  }

  /** Its parts: `x = from;`, `x less to;`, `x inc)` and `f(x);` */
  function FromScript(x: Name, from: string, rest: seq<Lexeme>): seq<Lexeme> {
    [Word(x, false), M(ASSIGNMENT), LitLexeme(from), M(SEMI)] + rest
  }

  function BelowScript(x: Name, less: Operator, to: string, rest: seq<Lexeme>): seq<Lexeme> {
    [Word(x, false), Op(less), LitLexeme(to), M(SEMI)] + rest
  }

  function StepScript(x: Name, inc: string, rest: seq<Lexeme>): seq<Lexeme> {
    [Word(x, false), Other(Token(INC_DEC, inc)), M(RPAREN)] + rest
  }

  function CallVarScript(f: Name, x: Name, rest: seq<Lexeme>): seq<Lexeme> {
    [Word(f, true), M(LPAREN), Word(x, false), M(RPAREN), M(SEMI)] + rest
  }

  function CountingScript(x: Name, from: string, less: Operator, to: string, inc: string, f: Name, rest: seq<Lexeme>)
    : seq<Lexeme>
  {
    [Word("for", true), M(LPAREN)]
    + FromScript(x, from, BelowScript(x, less, to, StepScript(x, inc, CallVarScript(f, x, rest))))
  }

  /** The operators compare and count the numbers up to `k` as they are written. */
  ghost predicate Counts(env: Env, num: nat -> string, less: string, inc: string, k: nat) {
    forall j: nat {:trigger num(j)} :: j <= k ==>
      && env.evalExpr(num(j), less, num(k)) == Some(if j < k then "1" else "0")
      && (j < k ==> env.evalExpr(num(j), inc, "1") == Some(num(j + 1)))
  }

  /** The function neither fails nor touches a variable. */
  ghost predicate Harmless(env: Env, f: string) {
    forall args, vars :: env.call(f, args, vars).rc >= 0 && env.call(f, args, vars).vars == vars
  }

  function Calls(f: string, num: nat -> string, k: nat): seq<CallRecord> {
    seq(k, j requires 0 <= j < k => CallRecord(f, [num(j)]))
  }

  lemma StoredReads(vars: Vars, x: string, v: string)
    requires |vars| > 0
    ensures var vars' := Stored(vars, x, v);
      FrameOf(vars', x) >= 0 && ValueOf(vars', x) == v && OthersKept(vars, vars', x)
  {
  }

  /** The loop variable holds the j-th number, and the function was called with all before it. */
  ghost predicate CountedTo(s0: Store, s: Store, x: string, f: string, num: nat -> string, j: nat) {
    && |s.vars| > 0 && FrameOf(s.vars, x) >= 0 && ValueOf(s.vars, x) == num(j)
    && OthersKept(s0.vars, s.vars, x) && s.calls == s0.calls + Calls(f, num, j)
  }

  lemma BelowMeant(env: Env, x: Name, less: Operator, v: string, s: Store, exe: bool)
    requires exe ==> FrameOf(s.vars, x) >= 0
    ensures var r := env.evalExpr(if exe then ValueOf(s.vars, x) else "", less, v);
      r.Some? ==> Value(env, Below(x, less, v), s, exe) == After(s.(result := r.value), Fine)
  {
    hide FrameOf, ValueOf;
    var lhs := if exe then ValueOf(s.vars, x) else "";
    var s1 := s.(result := lhs);
    var r := env.evalExpr(lhs, less, v);
    assert TermValue(env, Variable(x), s.(result := ""), exe) == After(s1, Fine);
    assert TermValue(env, Literal(v), s1, exe) == After(s1.(result := v), Fine);
    if r.Some? {
      assert Joined(env.evalExpr, lhs, less, After(s1.(result := v), Fine)) == After(s.(result := r.value), Fine);
      assert RestValue(env, Then(less, Literal(v), End), s1, exe) == RestValue(env, End, s.(result := r.value), exe);
    }
  }

  lemma CallVarMeant(env: Env, f: Name, x: Name, s: Store, exe: bool, n: nat)
    requires exe ==> FrameOf(s.vars, x) >= 0
    ensures var v := ValueOf(s.vars, x);
      var e := env.call(f, [v], s.vars);
      Run(env, CallOf(f, Var(x)), s, exe, n)
      == if !exe then After(s.(result := ""), Fine)
         else After(Store(e.result, e.vars, s.calls + [CallRecord(f, [v])]), if e.rc < 0 then Wrong else Fine)
  {
    hide FrameOf, ValueOf;
    var args := Only(Var(x));
    var v := if exe then ValueOf(s.vars, x) else "";
    assert TermValue(env, Variable(x), s.(result := ""), exe) == After(s.(result := v), Fine);
    assert Value(env, Var(x), s.(result := ""), exe) == After(s.(result := v), Fine);
    assert Values(env, args, s.(result := ""), exe) == (After(s.(result := v), Fine), [v]);
    assert Acted(env, Do(Call(f, args)), s, exe, false) == TermValue(env, Call(f, args), s, exe);
  }

  lemma CallKeeps(env: Env, f: string, args: seq<string>, vars: Vars)
    requires Harmless(env, f)
    ensures env.call(f, args, vars).rc >= 0 && env.call(f, args, vars).vars == vars
  {
  }

  lemma CountsAt(env: Env, num: nat -> string, less: string, inc: string, k: nat, j: nat)
    requires Counts(env, num, less, inc, k) && j <= k
    ensures env.evalExpr(num(j), less, num(k)) == Some(if j < k then "1" else "0")
    ensures j < k ==> env.evalExpr(num(j), inc, "1") == Some(num(j + 1))
  {
  }

  lemma CallsGrow(f: string, num: nat -> string, j: nat)
    ensures Calls(f, num, j + 1) == Calls(f, num, j) + [CallRecord(f, [num(j)])]
  {
  }

  /** Once round: the next call, the next number, and whether there is another. */
  lemma RoundCounts(env: Env, s0: Store, s: Store, x: Name, less: Operator, inc: string, f: Name, num: nat -> string, j: nat,
      k: nat, n: nat)
    requires j < k && Counts(env, num, less, inc, k) && Harmless(env, f) && CountedTo(s0, s, x, f, num, j)
    ensures var a := Round(env, Below(x, less, num(k)), Step(x, inc), CallOf(f, Var(x)), s, n);
      a.end == Fine && CountedTo(s0, a.s, x, f, num, j + 1) && a.s.result == (if j + 1 < k then "1" else "0")
  {
    hide Run, Value, FrameOf, ValueOf, Stored, CallOf, Below, OthersKept, Counts, Harmless, Calls;
    CallVarMeant(env, f, x, s, true, n);
    CallKeeps(env, f, [num(j)], s.vars);
    CountsAt(env, num, less, inc, k, j);
    CountsAt(env, num, less, inc, k, j + 1);
    CallsGrow(f, num, j);
    var b := Run(env, CallOf(f, Var(x)), s, true, n).s;
    assert b.vars == s.vars && b.calls == s0.calls + Calls(f, num, j + 1);
    StoredReads(s.vars, x, num(j + 1));
    StoredLength(s.vars, x, num(j + 1));
    KeptTwice(s0.vars, s.vars, Stored(s.vars, x, num(j + 1)), x);
    var i := Acted(env, Step(x, inc), b, true, true).s;
    assert i == Store(num(j + 1), Stored(s.vars, x, num(j + 1)), b.calls);
    BelowMeant(env, x, less, num(k), i, true);
  }

  lemma StoredLength(vars: Vars, x: string, v: string)
    ensures |Stored(vars, x, v)| == |vars|
  {
  }

  lemma KeptTwice(a: Vars, b: Vars, c: Vars, x: string)
    requires OthersKept(a, b, x) && OthersKept(b, c, x)
    ensures OthersKept(a, c, x)
  {
    forall i | 0 <= i < |a| ensures c[i] - {x} == a[i] - {x} {
      assert b[i] - {x} == a[i] - {x};
    }
  }

  lemma {:induction false} RoundsCount(env: Env, s0: Store, s: Store, x: Name, less: Operator, inc: string, f: Name,
      num: nat -> string, j: nat, k: nat, n: nat)
    requires j < k <= j + 1 + n && Counts(env, num, less, inc, k) && Harmless(env, f) && CountedTo(s0, s, x, f, num, j)
    ensures var a := Again(env, Below(x, less, num(k)), Step(x, inc), CallOf(f, Var(x)), s, n);
      a.end == Fine && CountedTo(s0, a.s, x, f, num, k)
    decreases n
  {
    hide Again, Round, Below, CallOf, Counts, Harmless, CountedTo;
    AgainUnfolds(env, Below(x, less, num(k)), Step(x, inc), CallOf(f, Var(x)), s, n);
    RoundCounts(env, s0, s, x, less, inc, f, num, j, k, n);
    if j + 1 < k {
      var a := Round(env, Below(x, less, num(k)), Step(x, inc), CallOf(f, Var(x)), s, n);
      RoundsCount(env, s0, a.s, x, less, inc, f, num, j + 1, k, n - 1);
    }
  }

  lemma LoopMeant(env: Env, init: Action, cond: Expression, incr: Action, body: Phrase, s: Store, exe: bool, n: nat)
    ensures Run(env, For(init, cond, incr, body), s, exe, n)
      == var i := Acted(env, init, s, exe, false);
         if i.end != Fine then i else RunLoop(env, For(init, cond, incr, body), i.s, exe, n)
  {
    hide Acted, Value, Skipped, Again;
  }

  lemma SkippedMeant(env: Env, f: Name, x: Name, inc: string, s: Store, n: nat)
    ensures Skipped(env, Step(x, inc), CallOf(f, Var(x)), s, n) == After(s.(result := ""), Fine)
  {
    hide Run;
    CallVarMeant(env, f, x, s, false, n);
  }

  /** What the counting loop means: as many calls as there are numbers, each with its own. */
  lemma LoopCounts(env: Env, s: Store, x: Name, less: Operator, inc: string, f: Name, num: nat -> string, k: nat)
    requires |s.vars| > 0 && Counts(env, num, less, inc, k) && Harmless(env, f)
    ensures var a := Run(env, CountingLoop(x, num(0), less, num(k), inc, f), s, true, k);
      a.end == Fine && CountedTo(s, a.s, x, f, num, k)
  {
    hide Run, Value, FrameOf, ValueOf, Stored, CallOf, Below, OthersKept, Lit, Skipped, Again;
    var p := CountingLoop(x, num(0), less, num(k), inc, f);
    LoopMeant(env, p.init, p.cond, p.incr, p.body, s, true, k);
    LitMeant(env, num(0), s, true);
    StoredReads(s.vars, x, num(0));
    StoredLength(s.vars, x, num(0));
    var i := Store(num(0), Stored(s.vars, x, num(0)), s.calls);
    assert Acted(env, p.init, s, true, false) == After(i, Fine);
    assert s.calls + Calls(f, num, 0) == s.calls;
    BelowMeant(env, x, less, num(k), i, true);
    var c := i.(result := if 0 < k then "1" else "0");
    assert Value(env, p.cond, i, true) == After(c, Fine);
    SkippedMeant(env, f, x, inc, c, k);
    if 0 < k {
      RoundsCount(env, s, c.(result := ""), x, less, inc, f, num, 0, k, k);
    }
  }

  lemma VarWritten(x: Name, rest: seq<Lexeme>)
    ensures Text(Var(x), rest) == [Word(x, false)] + rest
  {
    assert RestText(End, rest) == rest;
    assert TermTail(Variable(x), rest) == rest;
  }

  lemma BelowWritten(x: Name, less: Operator, v: string, rest: seq<Lexeme>)
    ensures Text(Below(x, less, v), Mark(SEMI, rest)) == BelowScript(x, less, v, rest)
  {
    var semi := Mark(SEMI, rest);
    assert RestText(End, semi) == semi;
    assert TermTail(Literal(v), semi) == semi;
    assert RestText(Then(less, Literal(v), End), semi) == [Op(less), LitLexeme(v)] + semi;
    assert TermTail(Variable(x), [Op(less), LitLexeme(v)] + semi) == [Op(less), LitLexeme(v)] + semi;
  }

  lemma CallVarWritten(f: Name, x: Name, rest: seq<Lexeme>)
    ensures PhraseText(CallOf(f, Var(x)), rest) == CallVarScript(f, x, rest)
  {
    hide Text, Var;
    var behind := Mark(RPAREN, Mark(SEMI, rest));
    VarWritten(x, behind);
    assert ArgsText(Only(Var(x)), behind) == [Word(x, false)] + behind;
    assert ActionTail(Do(Call(f, Only(Var(x)))), Mark(SEMI, rest)) == Mark(LPAREN, [Word(x, false)] + behind);
  }

  lemma StepWritten(x: Name, inc: string, rest: seq<Lexeme>)
    ensures ActionText(Step(x, inc), Mark(RPAREN, rest)) == StepScript(x, inc, rest)
  {
    hide ActionTail, Text, TermTail;
    assert ActionTail(Step(x, inc), Mark(RPAREN, rest)) == [Other(Token(INC_DEC, inc)), M(RPAREN)] + rest by {
      StepTail(x, inc, rest);
    }
  }

  lemma StepTail(x: Name, inc: string, rest: seq<Lexeme>)
    ensures ActionTail(Step(x, inc), Mark(RPAREN, rest)) == [Other(Token(INC_DEC, inc)), M(RPAREN)] + rest
  {
    hide Text, TermTail;
  }

  lemma FromWritten(x: Name, from: string, rest: seq<Lexeme>)
    ensures ActionText(Set(x, Lit(from)), Mark(SEMI, rest)) == FromScript(x, from, rest)
  {
    hide Text, Lit, Mark;
    LitWritten(from, Mark(SEMI, rest));
    assert ActionTail(Set(x, Lit(from)), Mark(SEMI, rest)) == Mark(ASSIGNMENT, [LitLexeme(from)] + Mark(SEMI, rest));
    FourTokens(x, from, rest);
  }

  lemma FourTokens(x: Name, from: string, rest: seq<Lexeme>)
    ensures [Word(x, false)] + Mark(ASSIGNMENT, [LitLexeme(from)] + Mark(SEMI, rest)) == FromScript(x, from, rest)
  {
  }

  lemma CountingWritten(x: Name, from: string, less: Operator, to: string, inc: string, f: Name, rest: seq<Lexeme>)
    ensures PhraseText(CountingLoop(x, from, less, to, inc, f), rest) == CountingScript(x, from, less, to, inc, f, rest)
  {
    hide Text, ActionText, Var, Lit, CallOf, Below, PhraseText, FromScript, BelowScript, StepScript, CallVarScript;
    var p := CountingLoop(x, from, less, to, inc, f);
    var body := CallVarScript(f, x, rest);
    var step := StepScript(x, inc, body);
    var cond := BelowScript(x, less, to, step);
    CallVarWritten(f, x, rest);
    StepWritten(x, inc, body);
    BelowWritten(x, less, to, step);
    FromWritten(x, from, cond);
    TextSplits(p, rest);
  }

  /** Executed, the counting loop calls the function once with each number, in order, and with no other. */
  lemma CountingRuns(env: Env, m: Machine, x: Name, less: Operator, inc: string, f: Name, num: nat -> string, k: nat,
      rest: seq<Lexeme>, fuel: nat)
    requires Calm(rest) && |m.vars| > 0 && Counts(env, num, less, inc, k) && Harmless(env, f)
    requires m.input == Input(CountingScript(x, num(0), less, num(k), inc, f, rest), None)
    requires fuel >= 2 * |m.input.script| + k
    ensures var o := Parse(env, m, Stmt, true, fuel);
      && o.st == StmtDone && o.m.calls == m.calls + seq(k, j requires 0 <= j < k => CallRecord(f, [num(j)]))
      && ValueOf(o.m.vars, x) == num(k) && OthersKept(m.vars, o.m.vars, x)
  {
    hide Parse, PhraseText, CountingScript, At, Run, FrameOf, ValueOf, OthersKept, Counts, Harmless, CallOf, Lit, Below;
    var p := CountingLoop(x, num(0), less, num(k), inc, f);
    CountingWritten(x, num(0), less, num(k), inc, f, rest);
    NowAt(m);
    CallProper(f, Var(x));
    LoopCounts(env, StoreOf(m), x, less, inc, f, num, k);
    PhraseParsed(env, m, p, rest, true, k, fuel);
  }

  // --- Operators ---

  /** `x = a op b log c op' d;` */
  function FormulaScript(x: Name, a: string, op: Operator, b: string, log: Operator, c: string, op': Operator, d: string,
      rest: seq<Lexeme>): seq<Lexeme> {
    [Word(x, false), M(ASSIGNMENT), LitLexeme(a), Op(op), LitLexeme(b), Other(Token(LOGICAL, log))]
    + ([LitLexeme(c), Op(op'), LitLexeme(d), M(SEMI)] + rest)
  }

  function Two(a: string, op: Operator, b: string, more: Rest): Expression {
    Expression(Literal(a), Then(op, Literal(b), more))
  }

  lemma TwoWritten(a: string, op: Operator, b: string, more: Rest, rest: seq<Lexeme>)
    ensures Text(Two(a, op, b, more), rest) == [LitLexeme(a), Op(op), LitLexeme(b)] + RestText(more, rest)
  {
    var behind := RestText(more, rest);
    assert TermTail(Literal(b), behind) == behind;
    assert RestText(Then(op, Literal(b), more), rest) == [Op(op), LitLexeme(b)] + behind;
    assert TermTail(Literal(a), [Op(op), LitLexeme(b)] + behind) == [Op(op), LitLexeme(b)] + behind;
  }

  lemma TwoMeant(env: Env, a: string, op: Operator, b: string, more: Rest, s: Store, exe: bool)
    ensures var r := env.evalExpr(a, op, b);
      r.Some? ==> Value(env, Two(a, op, b, more), s, exe) == RestValue(env, more, s.(result := r.value), exe)
  {
    var s1 := s.(result := a);
    var r := env.evalExpr(a, op, b);
    assert TermValue(env, Literal(a), s.(result := ""), exe) == After(s1, Fine);
    assert TermValue(env, Literal(b), s1, exe) == After(s1.(result := b), Fine);
    if r.Some? {
      assert Joined(env.evalExpr, a, op, After(s1.(result := b), Fine)) == After(s.(result := r.value), Fine);
    }
  }

  /**
   Each operator gets what stands on its left and what stands on its right, in that order, and a logical one gets
   the values of both whole sides.
   */
  lemma FormulaRuns(env: Env, m: Machine, x: Name, a: string, op: Operator, b: string, log: Operator, c: string, op': Operator,
      d: string, l: string, r: string, v: string, rest: seq<Lexeme>, fuel: nat)
    requires Calm(rest) && |m.vars| > 0 && m.input == Input(FormulaScript(x, a, op, b, log, c, op', d, rest), None)
    requires env.evalExpr(a, op, b) == Some(l) && env.evalExpr(c, op', d) == Some(r) && env.evalCond(l, log, r) == Some(v)
    requires fuel >= 2 * |m.input.script|
    ensures var o := Parse(env, m, Stmt, true, fuel);
      o.st == StmtDone && o.m.calls == m.calls && ValueOf(o.m.vars, x) == v && OthersKept(m.vars, o.m.vars, x)
  {
    hide Parse, PhraseText, At, FrameOf, ValueOf, OthersKept, Stored, Text, Two, Value;
    var right := Two(c, op', d, End);
    var whole := Two(a, op, b, Logic(log, right));
    var s := StoreOf(m);
    FormulaWritten(x, a, op, b, log, c, op', d, rest);
    NowAt(m);
    TwoMeant(env, a, op, b, Logic(log, right), s, true);
    TwoMeant(env, c, op', d, End, s.(result := l), true);
    assert Value(env, right, s.(result := l), true) == After(s.(result := r), Fine);
    assert Value(env, whole, s, true) == After(s.(result := v), Fine);
    assert Run(env, Act(Set(x, whole)), s, true, 0) == After(Store(v, Stored(m.vars, x, v), m.calls), Fine);
    StoredReads(m.vars, x, v);
    PhraseParsed(env, m, Act(Set(x, whole)), rest, true, 0, fuel);
  }

  lemma FormulaWritten(x: Name, a: string, op: Operator, b: string, log: Operator, c: string, op': Operator, d: string,
      rest: seq<Lexeme>)
    ensures PhraseText(Act(Set(x, Two(a, op, b, Logic(log, Two(c, op', d, End))))), rest)
         == FormulaScript(x, a, op, b, log, c, op', d, rest)
  {
    hide Text, Two;
    var right := Two(c, op', d, End);
    var semi := Mark(SEMI, rest);
    TwoWritten(c, op', d, End, semi);
    TwoWritten(a, op, b, Logic(log, right), semi);
    assert RestText(Logic(log, right), semi) == [Other(Token(LOGICAL, log))] + Text(right, semi);
  }

  /** Newlines before a statement change nothing but the number of steps. */
  lemma {:induction false} NewlinesBefore(env: Env, m: Machine, k: nat, s: seq<Lexeme>, exe: bool, fuel: nat)
    requires m.input == Input(seq(k, i => M(NEWLINE)) + s, None)
    ensures Parse(env, m, Stmt, exe, k + fuel) == Parse(env, m.(input := Input(s, None)), Stmt, exe, fuel)
    decreases k
  {
    hide ParseStmt, ParseCond, ParseExpr, ParseDeclaration, Opened;
    if k == 0 {
      assert seq(k, i => M(NEWLINE)) + s == s;
    } else {
      var less := seq(k - 1, i => M(NEWLINE)) + s;
      assert m.input.script[1..] == less;
      StmtUnfolds(env, m, Stmt, exe, k + fuel);
      NewlinesBefore(env, m.(input := Input(less, None)), k - 1, s, exe, fuel);
    }
  }

  /** A `return` that is executed leaves nothing of the script to be read, unless an end mark stands inside it. */
  lemma {:induction false} NothingLeft(m: Machine)
    requires m.input.putBack.Some? ==> m.input.putBack.value.tid != EOF
    requires forall i :: 0 <= i < |m.input.script| ==> Leading(m.input.script[i]).tid != EOF
    ensures Drained(m).input == Input([], None)
    decreases Left(m)
  {
    hide Classified;
    AdvancedLess(m);
    if Left(m) > 0 {
      NothingLeft(Advanced(m));
    }
  }

  /** A variable just declared is found, in the local frame, with its value, or without one as the empty string. */
  lemma DeclaredReads(vars: Vars, x: string, v: Option<string>)
    requires |vars| > 0
    ensures var vars' := Declared(vars, x, v);
      && FrameOf(vars', x) == |vars| - 1 && ValueOf(vars', x) == (if v.Some? then v.value else "")
      && OthersKept(vars, vars', x) && forall i :: 0 <= i < |vars| - 1 ==> vars'[i] == vars[i]
  {
  }

  /** A local variable hides a global one of the same name, and frames between the two are not looked at. */
  lemma LocalFirst(vars: Vars, x: string)
    ensures FrameOf(vars, x) >= 0 <==> |vars| > 0 && (x in vars[|vars| - 1] || x in vars[0])
    ensures |vars| > 0 && x in vars[|vars| - 1] && vars[|vars| - 1][x].Some? ==> ValueOf(vars, x) == vars[|vars| - 1][x].value
    ensures |vars| > 0 && x !in vars[|vars| - 1] && x in vars[0] && vars[0][x].Some? ==> ValueOf(vars, x) == vars[0][x].value
  {
  }

  // --- An error that is lost ---

  /** `{ x; }` where there is no `x` is an error, but the brace right behind it ends the block as if nothing had happened. */
  lemma ErrorLost(env: Env, m: Machine, x: Name, rest: seq<Lexeme>, fuel: nat)
    requires m.input == Input([M(LBRACE), Word(x, false), M(SEMI), M(RBRACE)] + rest, None)
    requires FrameOf(m.vars, x) < 0 && fuel >= 2
    ensures var inner := Parse(env, Advanced(m), Stmt, true, fuel - 1);
      inner.st == Err && Parse(env, m, Stmt, true, fuel) == Out(m.(input := Input(rest, None)), StmtDone)
  {
    hide FrameOf, ParseFunction, ParseIf, ParseFor, ParseParens, ParseBlock, ParseStmt, ParseId, Opened;
    hide ParseCond, ParseExpr, ParseDeclaration, Drained, SkipNewlines, PutBack;
    var s := m.input.script;
    var m1 := m.(input := Input(s[1..], None));
    var m2 := m.(input := Input(s[2..], None));
    var m3 := m.(input := Input(s[3..], None));
    assert s[1..][1..] == s[2..] && s[2..][1..] == s[3..] && s[3..][1..] == rest;
    assert Advanced(m) == m1 && Advanced(m1) == m2 && Advanced(m2) == m3;
    StmtUnfolds(env, m, Stmt, true, fuel);
    StmtUnfolds(env, m1, Stmt, true, fuel - 1);
    NameOpens(env, m2, x, Stmt, true, fuel - 2);
    UnknownName(env, m2, x, fuel - 2);
    BlockOpens(env, m1, fuel - 1);
    BlockOf(env, m1, fuel - 1);
  }

  lemma BlockOpens(env: Env, m: Machine, fuel: nat)
    ensures Opened(env, m, Token(LBRACE, ""), Stmt, true, fuel) == ParseBlock(env, m, true, fuel)
  {
    hide ParseBlock;
  }

  lemma UnknownName(env: Env, m: Machine, x: Name, fuel: nat)
    requires FrameOf(m.vars, x) < 0 && Next(m, Stmt).tid == SEMI
    ensures ParseId(env, m, Stmt, true, x, fuel) == Out(Advanced(m), Err)
  {
    hide FrameOf;
  }

  lemma BlockOf(env: Env, m: Machine, fuel: nat)
    requires var o := Parse(env, m, Stmt, true, fuel); o.st == Err && Next(o.m, Err).tid == RBRACE
    ensures ParseBlock(env, m, true, fuel) == Out(Advanced(Parse(env, m, Stmt, true, fuel).m), StmtDone)
  {
    hide Parse, Next, Advanced;
  }
}
