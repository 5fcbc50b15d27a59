/**
 What Ejscript means: programs as trees, the script each is written as, and
 what executing or skipping one does to the variables and which calls it makes.
 */
module EjPrograms {
  import opened Ej

  const KEYWORDS: set<string> := {"if", "else", "var", "for", "return"}

  type Name = x: string | x !in KEYWORDS witness "x"

  type Operator = s: string | s != "" witness "+"

  datatype Term = Literal(v: string) | Variable(x: Name) | Call(f: Name, args: Args) | Bracket(inner: Expression)

  datatype Expression = Expression(first: Term, rest: Rest)

  /** What follows a term: another one behind an operator, or a whole expression behind a logical one. */
  datatype Rest = End | Then(op: Operator, next: Term, rest: Rest) | Logic(op: Operator, other: Expression)

  datatype Args = Only(arg: Expression) | More(arg: Expression, others: Args)

  datatype Action = Do(term: Term) | Set(x: Name, value: Expression) | Step(x: Name, op: string)

  datatype Names = OneName(x: Name, value: Option<Expression>) | MoreNames(x: Name, value: Option<Expression>, others: Names)

  datatype Phrase =
    | Act(action: Action)
    | Line(action: Action) // ended by a newline
    | If(cond: Expression, yes: Phrase)
    | IfElse(cond: Expression, yes: Phrase, no: Phrase)
    | For(init: Action, cond: Expression, incr: Action, body: Phrase)
    | Block(phrases: Phrases)
    | Declare(names: Names)
    | Return(value: Expression)

  datatype Phrases = Nil | Cons(head: Phrase, tail: Phrases)

  /** An `else` behind it would be taken for its own. */
  predicate Open(p: Phrase) {
    match p
    case If(_, _) => true
    case IfElse(_, _, no) => Open(no)
    case For(_, _, _, body) => Open(body)
    case _ => false
  }

  /**
   Every `else` belongs to the `if` it is written for, no statement is a mere bracket, and an increment, which looks
   for a semicolon when it fails, ends in one.
   */
  predicate Proper(p: Phrase) {
    match p
    case Act(action) => !(action.Do? && action.term.Bracket?)
    case Line(action) => !(action.Do? && action.term.Bracket?) && !action.Step?
    case If(_, yes) => Proper(yes)
    case IfElse(_, yes, no) => Proper(yes) && Proper(no) && !Open(yes)
    case For(_, _, _, body) => Proper(body)
    case Block(phrases) => AllProper(phrases)
    case _ => true
  }

  predicate AllProper(ps: Phrases) {
    ps.Cons? ==> Proper(ps.head) && AllProper(ps.tail)
  }

  // --- The script, with `rest` behind it ---

  function Mark(tid: Tid, rest: seq<Lexeme>): (s: seq<Lexeme>)
    ensures s != [] && s[0] == Other(Token(tid, "")) && s[1..] == rest
  {
    [Other(Token(tid, ""))] + rest
  }

  function TermHead(e: Term): Lexeme {
    match e
    case Literal(v) => Other(Token(LITERAL, v))
    case Variable(x) => Word(x, false)
    case Call(f, _) => Word(f, true)
    case Bracket(_) => Other(Token(LPAREN, ""))
  }

  function TermTail(e: Term, rest: seq<Lexeme>): (s: seq<Lexeme>)
    ensures |rest| <= |s|
    decreases e, 0
  {
    match e
    case Call(_, args) => Mark(LPAREN, ArgsText(args, Mark(RPAREN, rest)))
    case Bracket(inner) => Text(inner, Mark(RPAREN, rest))
    case _ => rest
  }

  function TermText(e: Term, rest: seq<Lexeme>): (s: seq<Lexeme>)
    ensures |rest| < |s|
    decreases e, 1
  {
    [TermHead(e)] + TermTail(e, rest)
  }

  function Text(c: Expression, rest: seq<Lexeme>): (s: seq<Lexeme>)
    ensures |rest| < |s|
  {
    TermText(c.first, RestText(c.rest, rest))
  }

  function RestText(r: Rest, rest: seq<Lexeme>): (s: seq<Lexeme>)
    ensures |rest| <= |s|
  {
    match r
    case End => rest
    case Then(op, next, more) => [Other(Token(EXPR, op))] + TermText(next, RestText(more, rest))
    case Logic(op, other) => [Other(Token(LOGICAL, op))] + Text(other, rest)
  }

  function ArgsText(args: Args, rest: seq<Lexeme>): (s: seq<Lexeme>)
    ensures |rest| < |s|
  {
    match args
    case Only(arg) => Text(arg, rest)
    case More(arg, others) => Text(arg, Mark(COMMA, ArgsText(others, rest)))
  }

  function ActionHead(a: Action): Lexeme {
    match a
    case Do(term) => TermHead(term)
    case _ => Word(a.x, false)
  }

  function ActionTail(a: Action, rest: seq<Lexeme>): (s: seq<Lexeme>)
    ensures |rest| <= |s|
  {
    match a
    case Do(term) => TermTail(term, rest)
    case Set(_, value) => Mark(ASSIGNMENT, Text(value, rest))
    case Step(_, op) => [Other(Token(INC_DEC, op))] + rest
  }

  function ActionText(a: Action, rest: seq<Lexeme>): (s: seq<Lexeme>)
    ensures |rest| < |s|
  {
    [ActionHead(a)] + ActionTail(a, rest)
  }

  function NamesText(names: Names, rest: seq<Lexeme>): (s: seq<Lexeme>)
    ensures |rest| < |s|
  {
    var more := match names
      case OneName(_, _) => Mark(SEMI, rest)
      case MoreNames(_, _, others) => Mark(COMMA, NamesText(others, rest));
    [Word(names.x, false)] + if names.value.None? then more else Mark(ASSIGNMENT, Text(names.value.value, more))
  }

  function PhraseHead(p: Phrase): Lexeme {
    match p
    case Act(action) => ActionHead(action)
    case Line(action) => ActionHead(action)
    case If(_, _) => Word("if", true)
    case IfElse(_, _, _) => Word("if", true)
    case For(_, _, _, _) => Word("for", true)
    case Block(_) => Other(Token(LBRACE, ""))
    case Declare(_) => Word("var", false)
    case Return(_) => Word("return", false)
  }

  function PhraseTail(p: Phrase, rest: seq<Lexeme>): (s: seq<Lexeme>)
    ensures |rest| <= |s|
    decreases p, 0
  {
    match p
    case Act(action) => ActionTail(action, Mark(SEMI, rest))
    case Line(action) => ActionTail(action, Mark(NEWLINE, rest))
    case If(cond, yes) => Mark(LPAREN, Text(cond, Mark(RPAREN, PhraseText(yes, rest))))
    case IfElse(cond, yes, no) =>
      Mark(LPAREN, Text(cond, Mark(RPAREN, PhraseText(yes, [Word("else", false)] + PhraseText(no, rest)))))
    case For(init, cond, incr, body) => Mark(LPAREN, ActionText(init, Mark(SEMI, LoopText(cond, incr, body, rest))))
    case Block(phrases) => PhrasesText(phrases, Mark(RBRACE, rest))
    case Declare(names) => NamesText(names, rest)
    case Return(value) => Text(value, Mark(SEMI, rest))
  }

  function LoopText(cond: Expression, incr: Action, body: Phrase, rest: seq<Lexeme>): (s: seq<Lexeme>)
    ensures |rest| < |s|
    decreases body, 2
  {
    Text(cond, Mark(SEMI, ActionText(incr, Mark(RPAREN, PhraseText(body, rest)))))
  }

  function PhraseText(p: Phrase, rest: seq<Lexeme>): (s: seq<Lexeme>)
    ensures |rest| < |s|
    decreases p, 1
  {
    [PhraseHead(p)] + PhraseTail(p, rest)
  }

  function PhrasesText(ps: Phrases, rest: seq<Lexeme>): (s: seq<Lexeme>)
    ensures |rest| <= |s|
  {
    match ps
    case Nil => rest
    case Cons(head, tail) => PhraseText(head, PhrasesText(tail, rest))
  }

  // --- What it does ---

  /** What a program changes: the result so far, the variables, and the calls made. */
  datatype Store = Store(result: string, vars: Vars, calls: seq<CallRecord>)

  datatype Ending = Fine | Wrong | Returned | Unfinished

  datatype After = After(s: Store, end: Ending)

  function Yes(result: string): bool {
    result != "" && result[0] == '1'
  }

  function No(result: string): bool {
    result != "" && result[0] == '0'
  }

  function TermValue(env: Env, e: Term, s: Store, exe: bool): (a: After)
    ensures a.end in {Fine, Wrong}
  {
    match e
    case Literal(v) => After(s.(result := v), Fine)
    case Variable(x) =>
      if !exe then After(s.(result := ""), Fine)
      else if FrameOf(s.vars, x) < 0 then After(s, Wrong)
      else After(s.(result := ValueOf(s.vars, x)), Fine)
    case Call(f, args) =>
      var (a, values) := Values(env, args, s.(result := ""), exe);
      if a.end != Fine || !exe then a
      else
        var e := env.call(f, values, a.s.vars);
        After(Store(e.result, e.vars, a.s.calls + [CallRecord(f, values)]), if e.rc < 0 then Wrong else Fine)
    case Bracket(inner) => Value(env, inner, s, exe)
  }

  function Value(env: Env, c: Expression, s: Store, exe: bool): (a: After)
    ensures a.end in {Fine, Wrong}
  {
    var a := TermValue(env, c.first, s.(result := ""), exe);
    if a.end != Fine then a else RestValue(env, c.rest, a.s, exe)
  }

  /** The operator between what was the result before and what is the result now. */
  function Joined(eval: (string, string, string) -> Option<string>, lhs: string, op: string, a: After): After {
    if a.end != Fine then a
    else
      match eval(lhs, op, a.s.result)
      case None => After(a.s, Wrong)
      case Some(r) => After(a.s.(result := r), Fine)
  }

  /** From left to right; behind a logical operator the rest is evaluated first. */
  function RestValue(env: Env, r: Rest, s: Store, exe: bool): (a: After)
    ensures a.end in {Fine, Wrong}
  {
    match r
    case End => After(s, Fine)
    case Then(op, next, more) =>
      var a := Joined(env.evalExpr, s.result, op, TermValue(env, next, s, exe));
      if a.end != Fine then a else RestValue(env, more, a.s, exe)
    case Logic(op, other) => Joined(env.evalCond, s.result, op, Value(env, other, s, exe))
  }

  function Values(env: Env, args: Args, s: Store, exe: bool): (r: (After, seq<string>))
    ensures r.0.end in {Fine, Wrong}
  {
    var a := Value(env, args.arg, s, exe);
    if a.end != Fine then (a, [])
    else if args.Only? then (a, [a.s.result])
    else
      var (b, others) := Values(env, args.others, a.s, exe);
      (b, [a.s.result] + others)
  }

  /** The local variable of that name if there is one, the global one otherwise. */
  function Stored(vars: Vars, x: string, v: string): Vars {
    if |vars| > 1 && x in vars[|vars| - 1] then vars[|vars| - 1 := vars[|vars| - 1][x := Some(v)]]
    else if |vars| > 0 then vars[0 := vars[0][x := Some(v)]]
    else vars
  }

  function Declared(vars: Vars, x: string, v: Option<string>): Vars {
    if |vars| > 0 then vars[|vars| - 1 := vars[|vars| - 1][x := v]] else vars
  }

  /** An increment that cannot be evaluated is an error, except just before the bracket that ends a loop's head. */
  function Acted(env: Env, a: Action, s: Store, exe: bool, atBracket: bool): (b: After)
    ensures b.end in {Fine, Wrong}
  {
    match a
    case Do(term) => TermValue(env, term, s, exe)
    case Set(x, value) =>
      var b := Value(env, value, s, exe);
      if b.end != Fine || !exe then b else After(b.s.(vars := Stored(b.s.vars, x, b.s.result)), Fine)
    case Step(x, op) =>
      if !exe then After(s, Fine)
      else if FrameOf(s.vars, x) < 0 then After(s, Wrong)
      else
        match env.evalExpr(ValueOf(s.vars, x), op, "1")
        case None => After(s.(result := ValueOf(s.vars, x)), if atBracket then Fine else Wrong)
        case Some(r) => After(s.(result := r, vars := Stored(s.vars, x, r)), Fine)
  }

  /** A name without a value is declared even when skipping; a value is stored only when executing. */
  function Introduced(env: Env, x: Name, value: Option<Expression>, s: Store, exe: bool): (a: After)
    ensures a.end in {Fine, Wrong}
  {
    match value
    case None =>
      if FrameOf(s.vars, x) > 0 then After(s, Wrong)
      else After(s.(result := ValueOf(s.vars, x), vars := Declared(s.vars, x, None)), Fine)
    case Some(c) =>
      var a := Value(env, c, s, exe);
      if a.end != Fine || !exe then a else After(a.s.(vars := Declared(a.s.vars, x, Some(a.s.result))), Fine)
  }

  function AllIntroduced(env: Env, names: Names, s: Store, exe: bool): (a: After)
    ensures a.end in {Fine, Wrong}
  {
    var a := Introduced(env, names.x, names.value, s, exe);
    if a.end != Fine || names.OneName? then a else AllIntroduced(env, names.others, a.s, exe)
  }

  /** Executed or skipped, with at most `n` iterations of a loop. */
  function Run(env: Env, p: Phrase, s: Store, exe: bool, n: nat): After
    decreases n, p, 0
  {
    match p
    case Act(action) => Acted(env, action, s, exe, false)
    case Line(action) => Acted(env, action, s, exe, false)
    case If(cond, yes) =>
      var c := Value(env, cond, s, exe);
      if c.end != Fine then c else Run(env, yes, c.s, exe && Yes(c.s.result), n)
    case IfElse(cond, yes, no) =>
      var c := Value(env, cond, s, exe);
      if c.end != Fine then c
      else
        var a := Run(env, yes, c.s, exe && Yes(c.s.result), n);
        if a.end != Fine then a else Run(env, no, a.s, exe && !Yes(c.s.result), n)
    case For(init, cond, incr, body) =>
      var i := Acted(env, init, s, exe, false);
      if i.end != Fine then i
      else
        var c := Value(env, cond, i.s, exe);
        if c.end != Fine then c
        else
          var skipped := Skipped(env, incr, body, c.s, n);
          if skipped.end == Fine && exe && !No(c.s.result) then Again(env, cond, incr, body, skipped.s, n) else skipped
    case Block(phrases) => RunAll(env, phrases, s, exe, n)
    case Declare(names) => AllIntroduced(env, names, s, exe)
    case Return(value) =>
      var a := Value(env, value, s, exe);
      if a.end == Fine && exe then After(a.s, Returned) else a
  }

  /** Increment and body, read over before the loop begins. */
  function Skipped(env: Env, incr: Action, body: Phrase, s: Store, n: nat): After
    decreases n, body, 1
  {
    var k := Acted(env, incr, s, false, true);
    if k.end != Fine then k else Run(env, body, k.s, false, n)
  }

  /** Body, increment, condition, for as long as the condition is not 0. */
  function Again(env: Env, cond: Expression, incr: Action, body: Phrase, s: Store, n: nat): After
    decreases n, body, 1
  {
    var b := Run(env, body, s, true, n);
    if b.end != Fine then b
    else
      var i := Acted(env, incr, b.s, true, true);
      if i.end != Fine then i
      else
        var c := Value(env, cond, i.s, true);
        if c.end != Fine || No(c.s.result) then c
        else if n == 0 then After(c.s, Unfinished)
        else Again(env, cond, incr, body, c.s, n - 1)
  }

  function RunAll(env: Env, ps: Phrases, s: Store, exe: bool, n: nat): After
    decreases n, ps, 0
  {
    match ps
    case Nil => After(s, Fine)
    case Cons(head, tail) =>
      var a := Run(env, head, s, exe, n);
      if a.end != Fine then a else RunAll(env, tail, a.s, exe, n)
  }
}
