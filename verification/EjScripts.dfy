/** Statements: what the interpreter does with a script is what the program it is written for means. */
module EjScripts {
  import opened Ej
  import opened EjPrograms
  import opened EjMeaning
  import opened EjSkip

  /** What follows a statement: neither a newline nor a token in error. */
  predicate Calm(rest: seq<Lexeme>) {
    rest != [] ==> Leading(rest[0]).tid !in {NEWLINE, ERR}
  }

  predicate NoElse(rest: seq<Lexeme>) {
    rest != [] ==> Leading(rest[0]).tid != ELSE
  }

  /** No block is part of it. */
  predicate Blockless(p: Phrase) {
    match p
    case Block(_) => false
    case If(_, yes) => Blockless(yes)
    case IfElse(_, yes, no) => Blockless(yes) && Blockless(no)
    case For(_, _, _, body) => Blockless(body)
    case _ => true
  }

  /** Ended as it should or by a `return`, or went wrong where no block can cover it up. */
  predicate Told(p: Phrase, a: After) {
    a.end in {Fine, Returned} || (a.end == Wrong && Blockless(p))
  }

  // --- The end of a statement ---

  lemma NewlinesAt(m: Machine, rest: seq<Lexeme>)
    requires At(m.input, rest) && Calm(rest)
    ensures At(SkipNewlines(m, Stmt).input, rest) && StoreOf(SkipNewlines(m, Stmt)) == StoreOf(m)
  {
  }

  lemma MarkFinishes(m: Machine, mark: Tid, rest: seq<Lexeme>)
    requires At(m.input, Mark(mark, rest)) && mark in {SEMI, NEWLINE} && Calm(rest)
    ensures var o := Finished(m, Stmt); o.st == StmtDone && At(o.m.input, rest) && StoreOf(o.m) == StoreOf(m)
  {
    hide SkipNewlines, Next, Advanced, At;
    FirstRead(m, Mark(mark, rest), Stmt);
    BehindMark(m, rest);
    NewlinesAt(Advanced(m), rest);
  }

  lemma BehindMark(m: Machine, rest: seq<Lexeme>)
    ensures At(Input(rest, None), rest)
  {
  }

  /** Looking for an `else` that is not there. */
  lemma NoElseAt(m: Machine, rest: seq<Lexeme>)
    requires At(m.input, rest) && Calm(rest) && NoElse(rest)
    ensures Next(m, Stmt).tid != ELSE
    ensures var m' := PutBack(Advanced(m), Next(m, Stmt)); At(m'.input, rest) && StoreOf(m') == StoreOf(m)
  {
  }

  lemma {:induction false} DrainedStore(m: Machine)
    ensures StoreOf(Drained(m)) == StoreOf(m)
    decreases Left(m)
  {
    hide Next;
    AdvancedLess(m);
    if !(Next(m, Stmt).tid == EOF || Left(m) == 0) {
      DrainedStore(Advanced(m));
    }
  }

  // --- What a phrase begins with ---

  lemma HeadCalm(p: Phrase, rest: seq<Lexeme>)
    ensures Calm(PhraseText(p, rest)) && NoElse(PhraseText(p, rest))
    ensures Leading(PhraseHead(p)).tid != NEWLINE && (Leading(PhraseHead(p)).tid == RETURN <==> p.Return?)
  {
    hide PhraseTail;
    if p.Act? || p.Line? {
      ActionToken(p.action);
    }
  }

  lemma PhrasesCalm(ps: Phrases, rest: seq<Lexeme>)
    requires Calm(rest) && NoElse(rest)
    ensures Calm(PhrasesText(ps, rest)) && NoElse(PhrasesText(ps, rest))
  {
    hide PhraseText;
    if ps.Cons? {
      HeadCalm(ps.head, PhrasesText(ps.tail, rest));
    }
  }

  /** Nothing returns while it is skipped, and no loop is begun. */
  lemma {:induction false} SkippingStays(env: Env, p: Phrase, s: Store, n: nat)
    ensures Run(env, p, s, false, n).end in {Fine, Wrong}
    decreases p, 0
  {
    hide Value, Acted, AllIntroduced;
    match p
    case If(cond, yes) => SkippingStays(env, yes, Value(env, cond, s, false).s, n);
    case IfElse(cond, yes, no) =>
      var c := Value(env, cond, s, false);
      SkippingStays(env, yes, c.s, n);
      SkippingStays(env, no, Run(env, yes, c.s, false, n).s, n);
    case For(init, cond, incr, body) =>
      var c := Value(env, cond, Acted(env, init, s, false, false).s, false);
      SkippingStays(env, body, Acted(env, incr, c.s, false, true).s, n);
    case Block(phrases) => AllSkippingStay(env, phrases, s, n);
    case _ =>
  }

  lemma {:induction false} AllSkippingStay(env: Env, ps: Phrases, s: Store, n: nat)
    ensures RunAll(env, ps, s, false, n).end in {Fine, Wrong}
    decreases ps, 0
  {
    hide Run;
    if ps.Cons? {
      SkippingStays(env, ps.head, s, n);
      AllSkippingStay(env, ps.tail, Run(env, ps.head, s, false, n).s, n);
    }
  }

  // --- Statement by statement ---

  lemma PhraseParsed(env: Env, m: Machine, p: Phrase, rest: seq<Lexeme>, exe: bool, n: nat, fuel: nat)
    requires Proper(p) && Calm(rest) && (Open(p) ==> NoElse(rest))
    requires At(m.input, PhraseText(p, rest)) && Enough(fuel, PhraseText(p, rest), n)
    requires Told(p, Run(env, p, StoreOf(m), exe, n))
    ensures Matches(Parse(env, m, Stmt, exe, fuel), Run(env, p, StoreOf(m), exe, n), StmtDone, rest)
    decreases fuel, 1
  {
    hide ParseStmt, ParseCond, ParseExpr, ParseDeclaration, Opened, Next, Advanced, At, Run, Proper, Open, Told;
    hide PhraseText, PhraseHead, PhraseTail;
    var s := PhraseText(p, rest);
    TextSplits(p, rest);
    HeadCalm(p, rest);
    FirstRead(m, s, Stmt);
    StmtUnfolds(env, m, Stmt, exe, fuel);
    if p.Return? {
      ReturnParsed(env, Advanced(m), p.value, rest, exe, n, fuel - 1);
    } else {
      PhraseOpened(env, Advanced(m), p, rest, exe, n, fuel - 1);
    }
  }

  lemma TextSplits(p: Phrase, rest: seq<Lexeme>)
    ensures var s := PhraseText(p, rest); s != [] && s[0] == PhraseHead(p) && s[1..] == PhraseTail(p, rest)
  {
    hide PhraseHead, PhraseTail;
  }

  lemma ReturnParsed(env: Env, m: Machine, c: Expression, rest: seq<Lexeme>, exe: bool, n: nat, fuel: nat)
    requires m.input == Input(PhraseTail(Return(c), rest), None) && Enough(fuel, PhraseTail(Return(c), rest), 1)
    ensures var o := Parse(env, m, RelExp, exe, fuel);
      Matches(if o.st != RelExpDone then Failed(o.m, o.st)
              else if exe then Out(Drained(o.m), Ret) else ParseStmt(env, o.m, Stmt, exe, fuel),
              Run(env, Return(c), StoreOf(m), exe, n), StmtDone, rest)
  {
    hide Parse, Text, Value, Next, Advanced, At, ParseId, ParseFunction, ParseParens, ParseIf, ParseFor, ParseBlock;
    var o := Parse(env, m, RelExp, exe, fuel);
    ExpressionParsed(env, m, c, Mark(SEMI, rest), exe, fuel);
    if o.st == RelExpDone {
      DrainedStore(o.m);
      FirstRead(o.m, Mark(SEMI, rest), Stmt);
      StmtUnfolds(env, o.m, Stmt, exe, fuel);
      BehindMark(o.m, rest);
    }
  }

  /** A statement whose first token has been read. */
  lemma PhraseOpened(env: Env, m: Machine, p: Phrase, rest: seq<Lexeme>, exe: bool, n: nat, fuel: nat)
    requires Proper(p) && Calm(rest) && (Open(p) ==> NoElse(rest)) && !p.Return?
    requires Leading(PhraseHead(p)).tid !in {NEWLINE, RETURN}
    requires m.input == Input(PhraseTail(p, rest), None) && Enough(fuel, PhraseTail(p, rest), n + 1)
    requires Told(p, Run(env, p, StoreOf(m), exe, n))
    ensures Matches(Opened(env, m, Leading(PhraseHead(p)), Stmt, exe, fuel), Run(env, p, StoreOf(m), exe, n), StmtDone, rest)
    decreases fuel, 8
  {
    hide ParseId, ParseFunction, ParseParens, ParseIf, ParseFor, ParseBlock, Parse, Finished, At, PhraseTail, Run, Acted;
    hide Calm, NoElse, Next, Advanced, PutBack, TermHead, AllIntroduced, NamesText, PhrasesText, RunAll;
    match p
    case Act(action) =>
      ActParsed(env, m, p, rest, exe, n, fuel);
    case Line(action) =>
      ActParsed(env, m, p, rest, exe, n, fuel);
    case If(cond, yes) =>
      IfParsed(env, m, cond, yes, rest, exe, n, fuel);
    case IfElse(cond, yes, no) =>
      IfElseParsed(env, m, cond, yes, no, rest, exe, n, fuel);
    case For(init, cond, incr, body) =>
      LoopParsed(env, m, p, rest, exe, n, fuel);
    case Block(phrases) =>
      BlockMeans(env, phrases, rest, StoreOf(m), exe, n);
      NowAt(m);
      BlockParsed(env, m, phrases, rest, exe, n, fuel);
    case Declare(names) =>
      DeclareMeans(env, names, rest, StoreOf(m), exe, n);
      DeclareParsed(env, m, names, rest, exe, fuel);
    case Return(value) =>
  }

  lemma ActParsed(env: Env, m: Machine, p: Phrase, rest: seq<Lexeme>, exe: bool, n: nat, fuel: nat)
    requires (p.Act? || p.Line?) && Proper(p) && Calm(rest)
    requires m.input == Input(PhraseTail(p, rest), None) && Enough(fuel, PhraseTail(p, rest), 1)
    ensures Matches(Opened(env, m, Leading(PhraseHead(p)), Stmt, exe, fuel), Run(env, p, StoreOf(m), exe, n), StmtDone, rest)
  {
    hide Opened, Finished, ActionTail, ActionHead, Acted, At;
    var mark := if p.Act? then SEMI else NEWLINE;
    ActionToken(p.action);
    var y := ActionSettles(env, m, p.action, Stmt, Mark(mark, rest), exe, fuel);
    if Acted(env, p.action, StoreOf(m), exe, false).end == Fine {
      MarkFinishes(y, mark, rest);
    }
  }

  /** The head of an `if`: its condition decides which branch is to be executed. */
  lemma IfBegins(env: Env, m: Machine, cond: Expression, behind: seq<Lexeme>, exe: bool, fuel: nat) returns (y: Machine)
    requires m.input == Input(Mark(LPAREN, Text(cond, Mark(RPAREN, behind))), None)
    requires Enough(fuel, m.input.script, 0)
    ensures var a := Value(env, cond, StoreOf(m), exe);
      && StoreOf(y) == a.s
      && (a.end == Wrong ==> ParseIf(env, m, exe, fuel) == Out(y, Err))
      && (a.end == Fine ==> y.input == Input(behind, None))
      && (a.end == Fine ==>
          ParseIf(env, m, exe, fuel) == ParseBranches(env, y, exe && Yes(y.result), exe && !Yes(y.result), fuel))
  {
    hide Parse, ParseBranches, Next, Advanced, At, Text, Value;
    var script := Text(cond, Mark(RPAREN, behind));
    FirstRead(m, Mark(LPAREN, script), Stmt) by { NowAt(m); }
    var m1 := Advanced(m);
    ConditionParsed(env, m1, cond, Mark(RPAREN, behind), exe, fuel);
    var o := Parse(env, m1, Cond, exe, fuel);
    y := o.m;
    if o.st == CondDone {
      FirstRead(o.m, Mark(RPAREN, behind), Stmt);
      y := Advanced(o.m);
    }
  }

  lemma IfParsed(env: Env, m: Machine, cond: Expression, yes: Phrase, rest: seq<Lexeme>, exe: bool, n: nat, fuel: nat)
    requires Proper(If(cond, yes)) && Calm(rest) && NoElse(rest)
    requires m.input == Input(PhraseTail(If(cond, yes), rest), None) && Enough(fuel, PhraseTail(If(cond, yes), rest), n + 1)
    requires Told(If(cond, yes), Run(env, If(cond, yes), StoreOf(m), exe, n))
    ensures Matches(ParseIf(env, m, exe, fuel), Run(env, If(cond, yes), StoreOf(m), exe, n), StmtDone, rest)
    decreases fuel, 7
  {
    hide Parse, ParseIf, Next, Advanced, At, Text, PhraseText, Value, SkipNewlines, PutBack;
    var y := IfBegins(env, m, cond, PhraseText(yes, rest), exe, fuel);
    if Value(env, cond, StoreOf(m), exe).end == Fine {
      var taken := exe && Yes(y.result);
      BehindMark(y, PhraseText(yes, rest));
      PhraseParsed(env, y, yes, rest, taken, n, fuel);
      var o := Parse(env, y, Stmt, taken, fuel);
      if o.st == StmtDone {
        NewlinesAt(o.m, rest);
        NoElseAt(SkipNewlines(o.m, Stmt), rest);
      }
    }
  }

  lemma IfElseParsed(env: Env, m: Machine, cond: Expression, yes: Phrase, no: Phrase, rest: seq<Lexeme>, exe: bool, n: nat,
      fuel: nat)
    requires Proper(IfElse(cond, yes, no)) && Calm(rest) && (Open(no) ==> NoElse(rest))
    requires m.input == Input(PhraseTail(IfElse(cond, yes, no), rest), None)
    requires Enough(fuel, PhraseTail(IfElse(cond, yes, no), rest), n + 1)
    requires Told(IfElse(cond, yes, no), Run(env, IfElse(cond, yes, no), StoreOf(m), exe, n))
    ensures Matches(ParseIf(env, m, exe, fuel), Run(env, IfElse(cond, yes, no), StoreOf(m), exe, n), StmtDone, rest)
    decreases fuel, 7
  {
    hide ParseIf, ParseBranches, Text, PhraseText, Value;
    var other := [Word("else", false)] + PhraseText(no, rest);
    var y := IfBegins(env, m, cond, PhraseText(yes, other), exe, fuel);
    if Value(env, cond, StoreOf(m), exe).end == Fine {
      BranchesParsed(env, y, yes, no, rest, exe && Yes(y.result), exe && !Yes(y.result), n, fuel);
    }
  }

  lemma BranchesParsed(env: Env, m: Machine, yes: Phrase, no: Phrase, rest: seq<Lexeme>, thenExe: bool, elseExe: bool, n: nat,
      fuel: nat)
    requires Proper(yes) && Proper(no) && !Open(yes) && Calm(rest) && (Open(no) ==> NoElse(rest))
    requires m.input == Input(PhraseText(yes, [Word("else", false)] + PhraseText(no, rest)), None)
    requires Enough(fuel, m.input.script, n)
    requires var a := Run(env, yes, StoreOf(m), thenExe, n);
      Told(yes, a) && (a.end == Fine ==> Told(no, Run(env, no, a.s, elseExe, n)))
    ensures var a := Run(env, yes, StoreOf(m), thenExe, n);
      Matches(ParseBranches(env, m, thenExe, elseExe, fuel), if a.end != Fine then a else Run(env, no, a.s, elseExe, n),
        StmtDone, rest)
    decreases fuel, 6
  {
    hide Parse, Next, Advanced, At, PhraseText, SkipNewlines, PutBack, Calm, NoElse, Run, Proper, Open;
    var other := [Word("else", false)] + PhraseText(no, rest);
    BehindMark(m, PhraseText(yes, other));
    ElseCalm(no, rest);
    PhraseParsed(env, m, yes, other, thenExe, n, fuel);
    var o := Parse(env, m, Stmt, thenExe, fuel);
    if o.st == StmtDone {
      ElseParsed(env, o.m, no, rest, elseExe, n, fuel);
    }
  }

  lemma ElseCalm(no: Phrase, rest: seq<Lexeme>)
    ensures Calm([Word("else", false)] + PhraseText(no, rest))
  {
    hide PhraseText;
  }

  lemma ElseParsed(env: Env, m: Machine, no: Phrase, rest: seq<Lexeme>, exe: bool, n: nat, fuel: nat)
    requires Proper(no) && Calm(rest) && (Open(no) ==> NoElse(rest))
    requires At(m.input, [Word("else", false)] + PhraseText(no, rest)) && Enough(fuel, PhraseText(no, rest), n)
    requires Told(no, Run(env, no, StoreOf(m), exe, n))
    ensures var m1 := SkipNewlines(m, Stmt);
      && Next(m1, Stmt).tid == ELSE
      && Matches(Parse(env, Advanced(m1), Stmt, exe, fuel), Run(env, no, StoreOf(m), exe, n), StmtDone, rest)
    decreases fuel, 5
  {
    hide Parse, Advanced, At, PhraseText, Run, SkipNewlines;
    var other := [Word("else", false)] + PhraseText(no, rest);
    NewlinesAt(m, other);
    var m1 := SkipNewlines(m, Stmt);
    FirstRead(m1, other, Stmt);
    BehindMark(m1, PhraseText(no, rest));
    PhraseParsed(env, Advanced(m1), no, rest, exe, n, fuel);
  }

  lemma BlockParsed(env: Env, m: Machine, ps: Phrases, rest: seq<Lexeme>, exe: bool, n: nat, fuel: nat)
    requires AllProper(ps) && Calm(rest)
    requires At(m.input, PhrasesText(ps, Mark(RBRACE, rest))) && Enough(fuel, PhrasesText(ps, Mark(RBRACE, rest)), n)
    requires RunAll(env, ps, StoreOf(m), exe, n).end in {Fine, Returned}
    ensures Matches(ParseBlock(env, m, exe, fuel), RunAll(env, ps, StoreOf(m), exe, n), StmtDone, rest)
    decreases fuel, 7
  {
    hide Parse, Next, Advanced, At, PhraseText, Run;
    var o := Parse(env, m, Stmt, exe, fuel);
    match ps
    case Nil =>
      BraceParsed(env, m, rest, exe, fuel);
    case Cons(head, tail) =>
      var behind := PhrasesText(tail, Mark(RBRACE, rest));
      PhrasesCalm(tail, Mark(RBRACE, rest));
      PhraseParsed(env, m, head, behind, exe, n, fuel);
      if o.st == StmtDone {
        BlockParsed(env, o.m, tail, rest, exe, n, fuel - 1);
      }
  }

  /** The closing brace is put back and read again. */
  lemma BraceParsed(env: Env, m: Machine, rest: seq<Lexeme>, exe: bool, fuel: nat)
    requires At(m.input, Mark(RBRACE, rest)) && fuel > 0
    ensures var o := Parse(env, m, Stmt, exe, fuel);
      && o.st == StmtBlockDone && Next(o.m, StmtBlockDone).tid == RBRACE
      && At(Advanced(o.m).input, rest) && StoreOf(Advanced(o.m)) == StoreOf(m)
  {
    hide ParseId, ParseFunction, ParseParens, ParseIf, ParseFor, ParseBlock, ParseStmt;
    FirstRead(m, Mark(RBRACE, rest), Stmt);
    StmtUnfolds(env, m, Stmt, exe, fuel);
  }

  lemma BlockMeans(env: Env, ps: Phrases, rest: seq<Lexeme>, s: Store, exe: bool, n: nat)
    ensures PhraseTail(Block(ps), rest) == PhrasesText(ps, Mark(RBRACE, rest)) && Proper(Block(ps)) == AllProper(ps)
    ensures Run(env, Block(ps), s, exe, n) == RunAll(env, ps, s, exe, n)
  {
  }

  lemma DeclareMeans(env: Env, names: Names, rest: seq<Lexeme>, s: Store, exe: bool, n: nat)
    ensures PhraseTail(Declare(names), rest) == NamesText(names, rest)
    ensures Run(env, Declare(names), s, exe, n) == AllIntroduced(env, names, s, exe)
  {
  }

  // --- Declarations ---

  lemma DeclareParsed(env: Env, m: Machine, names: Names, rest: seq<Lexeme>, exe: bool, fuel: nat)
    requires m.input == Input(NamesText(names, rest), None) && Enough(fuel, NamesText(names, rest), 0)
    ensures Matches(Parse(env, m, DecList, exe, fuel), AllIntroduced(env, names, StoreOf(m), exe), DecListDone, rest)
  {
    hide ParseDeclaration;
    NamesParsed(env, m, names, rest, exe, fuel);
  }

  function Behind(names: Names, rest: seq<Lexeme>): (s: seq<Lexeme>)
    ensures Closed(s) && s[0].token.tid in {SEMI, COMMA} && |rest| < |s|
  {
    match names
    case OneName(_, _) => Mark(SEMI, rest)
    case MoreNames(_, _, others) => Mark(COMMA, NamesText(others, rest))
  }

  lemma {:induction false} NamesParsed(env: Env, m: Machine, names: Names, rest: seq<Lexeme>, exe: bool, fuel: nat)
    requires m.input == Input(NamesText(names, rest), None) && Enough(fuel, NamesText(names, rest), 0)
    ensures Matches(ParseDeclaration(env, m, DecList, exe, fuel), AllIntroduced(env, names, StoreOf(m), exe), DecListDone, rest)
    decreases fuel
  {
    hide Parse, Next, Advanced, PutBack, At, Introduced, Behind, NamesText;
    var o := NameParsed(env, m, names, rest, exe, fuel);
    if o.st == DecDone {
      FirstRead(o.m, Behind(names, rest), DecList);
      BehindSays(names, rest);
      var m1 := Advanced(o.m);
      BehindMark(m1, rest);
      if names.MoreNames? {
        NamesParsed(env, m1, names.others, rest, exe, fuel - 1);
      }
    }
  }

  lemma BehindSays(names: Names, rest: seq<Lexeme>)
    ensures Behind(names, rest)[1..] == if names.OneName? then rest else NamesText(names.others, rest)
    ensures Behind(names, rest)[0].token.tid == if names.OneName? then SEMI else COMMA
    ensures |Behind(names, rest)| < |NamesText(names, rest)|
    ensures NamesText(names, rest)[0] == Word(names.x, false)
    ensures NamesText(names, rest)[1..]
         == if names.value.None? then Behind(names, rest) else Mark(ASSIGNMENT, Text(names.value.value, Behind(names, rest)))
  {
    hide Text;
  }

  /** One name of a list: it is looked at, put back, and read as a declaration. */
  lemma NameParsed(env: Env, m: Machine, names: Names, rest: seq<Lexeme>, exe: bool, fuel: nat) returns (o: Out)
    requires m.input == Input(NamesText(names, rest), None) && Enough(fuel, NamesText(names, rest), 0)
    ensures Next(m, DecList) == Token(ID, names.x)
    ensures o == Parse(env, PutBack(Advanced(m), Token(ID, names.x)), Dec, exe, fuel - 1)
    ensures Matches(o, Introduced(env, names.x, names.value, StoreOf(m), exe), DecDone, Behind(names, rest))
  {
    hide ParseId, Parse, Next, Advanced, Introduced, Behind, NamesText, Text, At;
    BehindSays(names, rest);
    WordRead(m, m.input.script, DecList);
    var m1 := PutBack(Advanced(m), Token(ID, names.x));
    o := Parse(env, m1, Dec, exe, fuel - 1);
    PutBackRead(m1, Token(ID, names.x));
    DecIsName(env, m1, names.x, exe, fuel - 1);
    if names.value.None? {
      BareParsed(env, Advanced(m1), names.x, Behind(names, rest), exe, fuel - 2);
    } else {
      GivenParsed(env, Advanced(m1), names.x, names.value.value, Behind(names, rest), exe, fuel - 2);
    }
  }

  lemma PutBackRead(m: Machine, t: Token)
    requires m.input.putBack == Some(t)
    ensures Advanced(m) == m.(input := Input(m.input.script, None))
  {
  }

  lemma BareParsed(env: Env, m: Machine, x: Name, behind: seq<Lexeme>, exe: bool, fuel: nat)
    requires m.input == Input(behind, None) && Closed(behind)
    ensures Matches(ParseId(env, m, Dec, exe, x, fuel), Introduced(env, x, None, StoreOf(m), exe), DecDone, behind)
  {
    hide Parse, FrameOf, ValueOf, ParseStmt;
  }

  lemma GivenParsed(env: Env, m: Machine, x: Name, c: Expression, behind: seq<Lexeme>, exe: bool, fuel: nat)
    requires m.input == Input(Mark(ASSIGNMENT, Text(c, behind)), None) && Closed(behind) && Enough(fuel, Text(c, behind), 1)
    ensures Matches(ParseId(env, m, Dec, exe, x, fuel), Introduced(env, x, Some(c), StoreOf(m), exe), DecDone, behind)
  {
    hide Parse, Next, Advanced, Text, Value, At, FrameOf, ValueOf, ParseStmt, Assigned;
    FirstRead(m, m.input.script, Dec) by { NowAt(m); }
    ExpressionParsed(env, Advanced(m), c, behind, exe, fuel);
  }

  // --- Loops ---

  lemma LoopParsed(env: Env, m: Machine, p: Phrase, rest: seq<Lexeme>, exe: bool, n: nat, fuel: nat)
    requires p.For? && Proper(p) && Calm(rest) && (Open(p) ==> NoElse(rest))
    requires m.input == Input(PhraseTail(p, rest), None) && Enough(fuel, PhraseTail(p, rest), n + 1)
    requires Told(p, Run(env, p, StoreOf(m), exe, n))
    ensures Matches(ParseFor(env, m, exe, fuel), Run(env, p, StoreOf(m), exe, n), StmtDone, rest)
    decreases fuel, 7
  {
    hide Parse, ForFrom, Next, Advanced, At, ActionText, Acted, Value, Skipped, Again, LoopText;
    var script := LoopText(p.cond, p.incr, p.body, rest);
    var inner := ActionText(p.init, Mark(SEMI, script));
    FirstRead(m, Mark(LPAREN, inner), Stmt) by { NowAt(m); }
    ActionParsed(env, Advanced(m), p.init, Mark(SEMI, script), exe, fuel);
    var o := Parse(env, Advanced(m), Expr, exe, fuel);
    if o.st == ExprDone {
      FirstRead(o.m, Mark(SEMI, script), Stmt);
      ForParsed(env, Advanced(o.m), p, rest, exe, n, fuel);
    }
  }

  /** A loop behind its initialisation. */
  function RunLoop(env: Env, p: Phrase, s: Store, exe: bool, n: nat): After
    requires p.For?
  {
    var c := Value(env, p.cond, s, exe);
    if c.end != Fine then c
    else
      var skipped := Skipped(env, p.incr, p.body, c.s, n);
      if skipped.end == Fine && exe && !No(c.s.result) then Again(env, p.cond, p.incr, p.body, skipped.s, n) else skipped
  }

  lemma ForParsed(env: Env, m: Machine, p: Phrase, rest: seq<Lexeme>, exe: bool, n: nat, fuel: nat)
    requires p.For? && Proper(p.body) && Calm(rest) && (Open(p.body) ==> NoElse(rest))
    requires m.input == Input(LoopText(p.cond, p.incr, p.body, rest), None)
    requires Enough(fuel, LoopText(p.cond, p.incr, p.body, rest), n + 2)
    requires Told(p, RunLoop(env, p, StoreOf(m), exe, n))
    ensures Matches(ForFrom(env, m, exe, fuel), RunLoop(env, p, StoreOf(m), exe, n), StmtDone, rest)
    decreases fuel, 6
  {
    hide Parse, Loop, SkipBody, Next, Advanced, At, ActionText, PhraseText, Text, Value, Skipped, Again;
    var step := ActionText(p.incr, Mark(RPAREN, PhraseText(p.body, rest)));
    var c := Parse(env, m, Cond, exe, fuel);
    ConditionParsed(env, m, p.cond, Mark(SEMI, step), exe, fuel);
    if c.st == CondDone {
      FirstRead(c.m, Mark(SEMI, step), Stmt);
      var m1 := Advanced(c.m);
      SkippedStays(env, p.incr, p.body, StoreOf(m1), n);
      SkipParsed(env, m1, p.incr, p.body, rest, n, fuel);
      var (s, incrAt, bodyAt) := SkipBody(env, m1, fuel);
      if s.st == StmtDone && exe && !No(c.m.result) {
        AgainParsed(env, s.m, p.cond, p.incr, p.body, rest, n, fuel);
      }
    }
  }

  lemma SkippedStays(env: Env, incr: Action, body: Phrase, s: Store, n: nat)
    ensures Skipped(env, incr, body, s, n).end in {Fine, Wrong}
  {
    hide Run, Acted;
    SkippingStays(env, body, Acted(env, incr, s, false, true).s, n);
  }

  /** Increment and body, read over. */
  lemma SkipParsed(env: Env, m: Machine, incr: Action, body: Phrase, rest: seq<Lexeme>, n: nat, fuel: nat)
    requires Proper(body) && Calm(rest) && (Open(body) ==> NoElse(rest))
    requires m.input == Input(ActionText(incr, Mark(RPAREN, PhraseText(body, rest))), None)
    requires Enough(fuel, m.input.script, n) && Told(body, Skipped(env, incr, body, StoreOf(m), n))
    ensures var (s, incrAt, bodyAt) := SkipBody(env, m, fuel);
      && incrAt == m.input && (s.st == StmtDone ==> bodyAt == Input(PhraseText(body, rest), None))
      && Matches(s, Skipped(env, incr, body, StoreOf(m), n), StmtDone, rest)
    decreases fuel, 4
  {
    hide Parse, Next, Advanced, At, ActionText, PhraseText, Acted, Run;
    var behind := Mark(RPAREN, PhraseText(body, rest));
    ActionParsed(env, m, incr, behind, false, fuel);
    var o := Parse(env, m, Expr, false, fuel);
    SkippingStays(env, body, StoreOf(o.m), n);
    if o.st == ExprDone {
      FirstRead(o.m, behind, Stmt);
      BehindMark(m, PhraseText(body, rest));
      PhraseParsed(env, Advanced(o.m), body, rest, false, n, fuel);
    }
  }

  /** Once round a loop, as it is read: body, increment and condition, each from where it begins. */
  function Lap(env: Env, m: Machine, condAt: Input, incrAt: Input, bodyAt: Input, fuel: nat): Out {
    var b := Parse(env, m.(input := bodyAt), Stmt, true, fuel);
    if b.st != StmtDone then (if b.st == Ret then b else Failed(b.m, b.st))
    else
      var i := Parse(env, b.m.(input := incrAt), Expr, true, fuel);
      if i.st != ExprDone then Failed(i.m, i.st)
      else
        var c := Parse(env, i.m.(input := condAt), Cond, true, fuel);
        if c.st != CondDone then Failed(c.m, c.st) else c
  }

  lemma LoopUnfolds(env: Env, m: Machine, condAt: Input, incrAt: Input, bodyAt: Input, fuel: nat)
    ensures Loop(env, m, condAt, incrAt, bodyAt, fuel)
      == var o := Lap(env, m, condAt, incrAt, bodyAt, fuel);
         if o.st != CondDone then o
         else if No(o.m.result) then Out(o.m, StmtDone)
         else if fuel == 0 then Out(o.m, Spent)
         else Loop(env, o.m, condAt, incrAt, bodyAt, fuel - 1)
  {
    hide Parse;
  }

  /** Once round a loop, as it is meant. */
  function Round(env: Env, cond: Expression, incr: Action, body: Phrase, s: Store, n: nat): After {
    var b := Run(env, body, s, true, n);
    if b.end != Fine then b
    else
      var i := Acted(env, incr, b.s, true, true);
      if i.end != Fine then i else Value(env, cond, i.s, true)
  }

  lemma AgainUnfolds(env: Env, cond: Expression, incr: Action, body: Phrase, s: Store, n: nat)
    ensures Again(env, cond, incr, body, s, n)
      == var c := Round(env, cond, incr, body, s, n);
         if c.end != Fine || No(c.s.result) then c
         else if n == 0 then After(c.s, Unfinished)
         else Again(env, cond, incr, body, c.s, n - 1)
  {
    hide Run, Acted, Value;
  }

  lemma LapParsed(env: Env, m: Machine, cond: Expression, incr: Action, body: Phrase, rest: seq<Lexeme>, n: nat, fuel: nat)
    requires Proper(body) && Calm(rest) && (Open(body) ==> NoElse(rest))
    requires Enough(fuel, LoopText(cond, incr, body, rest), n + 2)
    requires Told(body, Round(env, cond, incr, body, StoreOf(m), n))
    ensures var l := Lap(env, m, Input(LoopText(cond, incr, body, rest), None),
                         Input(ActionText(incr, Mark(RPAREN, PhraseText(body, rest))), None),
                         Input(PhraseText(body, rest), None), fuel);
      var a := Round(env, cond, incr, body, StoreOf(m), n);
      l.st == Ended(a.end, CondDone) && StoreOf(l.m) == a.s
    decreases fuel, 4
  {
    hide Parse, At, ActionText, PhraseText, Text, Value, Acted, Run;
    var behind := Mark(RPAREN, PhraseText(body, rest));
    var step := ActionText(incr, behind);
    var bodyAt, incrAt := Input(PhraseText(body, rest), None), Input(step, None);
    BehindMark(m, PhraseText(body, rest));
    PhraseParsed(env, m.(input := bodyAt), body, rest, true, n, fuel);
    var b := Parse(env, m.(input := bodyAt), Stmt, true, fuel);
    if b.st == StmtDone {
      ActionParsed(env, b.m.(input := incrAt), incr, behind, true, fuel);
      var i := Parse(env, b.m.(input := incrAt), Expr, true, fuel);
      if i.st == ExprDone {
        ConditionParsed(env, i.m.(input := Input(LoopText(cond, incr, body, rest), None)), cond, Mark(SEMI, step), true, fuel);
      }
    }
  }

  lemma {:induction false} AgainParsed(env: Env, m: Machine, cond: Expression, incr: Action, body: Phrase, rest: seq<Lexeme>,
      n: nat, fuel: nat)
    requires Proper(body) && Calm(rest) && (Open(body) ==> NoElse(rest))
    requires Enough(fuel, LoopText(cond, incr, body, rest), n + 2)
    requires Told(body, Again(env, cond, incr, body, StoreOf(m), n))
    ensures var l := Loop(env, m, Input(LoopText(cond, incr, body, rest), None),
                          Input(ActionText(incr, Mark(RPAREN, PhraseText(body, rest))), None),
                          Input(PhraseText(body, rest), None), fuel);
      var a := Again(env, cond, incr, body, StoreOf(m), n);
      l.st == Ended(a.end, StmtDone) && StoreOf(l.m) == a.s
    decreases fuel, 5
  {
    hide Loop, Lap, Again, Round, LoopText, ActionText, PhraseText;
    var condAt := Input(LoopText(cond, incr, body, rest), None);
    var incrAt := Input(ActionText(incr, Mark(RPAREN, PhraseText(body, rest))), None);
    var bodyAt := Input(PhraseText(body, rest), None);
    AgainUnfolds(env, cond, incr, body, StoreOf(m), n);
    LoopUnfolds(env, m, condAt, incrAt, bodyAt, fuel);
    LapParsed(env, m, cond, incr, body, rest, n, fuel);
    var o := Lap(env, m, condAt, incrAt, bodyAt, fuel);
    if o.st == CondDone && !No(o.m.result) {
      AgainParsed(env, o.m, cond, incr, body, rest, n - 1, fuel - 1);
    }
  }
}
