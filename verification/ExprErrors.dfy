/** Which error code a malformed text is rejected with, and where: one family of texts for each code. */
module ExprErrors {
  import opened Common
  import opened ExprOps
  import opened ExprLexer
  import opened ExprMachine
  import opened ExprLevels

  // ---------------------------------------------------------------- one step of the run

  /** What is left of the run once a token has been read. */
  ghost predicate GoesOn<N>(s: string, f: Flags, st: State<N>, near: nat, rest: string, f': Flags, st': State<N>,
                            near': nat, cx: Config<N>) {
    Run(s, f, st, near, cx) == Run(rest, f', st', near', cx)
  }

  lemma OneToken<N>(t: string, rest: string, f: Flags, st: State<N>, near: nat, cx: Config<N>)
    requires Scan(TokText(t) + rest, f) == Token(t, |TokText(t)|, After(t))
    ensures var r := Step(st, t, cx); var n := near + |TokText(t)|;
      && (r.Ok? ==> GoesOn(TokText(t) + rest, f, st, near, rest, After(t), r.value, n, cx))
      && (r.Err? ==> Run(TokText(t) + rest, f, st, near, cx) == Rejected(r.code, AtLeastOne(n)))
  {
    hide Scan, Step, TokText, After;
    assert (TokText(t) + rest)[|TokText(t)|..] == rest;
  }

  lemma ScanStops<N>(s: string, f: Flags, st: State<N>, near: nat, cx: Config<N>)
    requires Scan(s, f).Fail?
    ensures Run(s, f, st, near, cx) == Rejected(Scan(s, f).code, AtLeastOne(near))
  {
    hide Scan;
  }

  // ---------------------------------------------------------------- tokens that may not come next

  /** A text that starts like this has no first token. */
  lemma BadStart<N>(s: string, vars: seq<string>, cx: Config<N>)
    requires |s| > 0
    ensures s[0] == ')' ==> Compile(s, vars, cx) == Rejected(-3, 1)
    ensures s[0] in ['*', '/', '%', '+', '<', '>', '=', '&', '|', ',', '.', ':', ';', '?', '\'', '\"']
            ==> Compile(s, vars, cx) == Rejected(-4, 1)
  {
    hide Scan, Step;
    FailsAtStart(s);
    if Scan(s, DEFAULT).Fail? { ScanStops(s, DEFAULT, Init(NoMacros<N>(vars)), 0, cx); }
  }

  lemma FailsAtStart(s: string)
    requires |s| > 0
    ensures s[0] == ')' ==> Scan(s, DEFAULT) == Fail(-3)
    ensures s[0] in ['*', '/', '%', '+', '<', '>', '=', '&', '|', ',', '.', ':', ';', '?', '\'', '\"']
            ==> Scan(s, DEFAULT) == Fail(-4)
  {
    hide Lookup, StopsOperator, IsDigit, IsFirstVarChr, IsSpace, Span, LongestOp;
    assert s[..1] == [s[0]];
    if s[0] == ')' { ClosesOnly(); } else { NoSign(s[0]); }
    if s[0] in ['*', '/', '%', '+', '<', '>', '=', '&', '|', ',', '.', ':', ';', '?', '\'', '\"'] { StartsNothing(s[0]); }
  }

  lemma ClosesOnly()
    ensures !IsDigit(')') && !IsFirstVarChr(')') && !IsSpace(')')
  {
  }

  lemma StartsNothing(c: char)
    requires c in ['*', '/', '%', '+', '<', '>', '=', '&', '|', ',', '.', ':', ';', '?', '\'', '\"']
    ensures !IsDigit(c) && !IsFirstVarChr(c) && !IsSpace(c) && c !in ['#', '\n', '(', ')', '-', '!', '^']
  {
  }

  lemma NoSign(c: char)
    ensures c !in ['-', '!', '^'] ==> Lookup([c], UnaryOnly) == Unknown
  {
  }

  /** Behind a number no word and no parenthesis may open, and not any character is an operator. */
  lemma BadAfterNumber<N>(x: string, s: string, vars: seq<string>, cx: Config<N>)
    requires IsNumber(x) && ParseNumber(x, cx.ar).Some? && |s| > 0
    ensures 'a' <= s[0] <= 'z' || 'A' <= s[0] <= 'Z' || s[0] in ['_', '$', '@', '{', '['] ==>
              Compile(x + s, vars, cx) == Rejected(-2, |x|)
    ensures s[0] == '(' ==> Compile(x + s, vars, cx) == Rejected(-3, |x|)
    ensures s[0] in [':', ';', '?', '\'', '\"'] ==> Compile(x + s, vars, cx) == Rejected(-5, |x|)
    ensures |s| > 1 && s[0] == ' ' && '0' <= s[1] <= '9' ==> Compile(x + s, vars, cx) == Rejected(-1, |x| + 1)
  {
    hide Scan, Step, IsNumber, ParseNumber, Span, Lookup, LongestOp;
    NumberAllowed(x);
    if !IsDigitOrDot(s[0]) {
      NumberFirst(x, s, vars, cx);
      FailsAfterNumber(s);
      var st := AfterOperand(x, vars, cx);
      if Scan(s, AFTER_NUMBER).Fail? { ScanStops(s, AFTER_NUMBER, st, |x|, cx); }
      if |s| > 1 && s[0] == ' ' && '0' <= s[1] <= '9' { BlankSkipped(s, st, |x|, cx); }
    }
  }

  ghost function AfterOperand<N>(x: string, vars: seq<string>, cx: Config<N>): State<N>
    requires ParseNumber(x, cx.ar).Some?
  {
    State([Const(ParseNumber(x, cx.ar).value)], [], [], NoMacros(vars), "", Forbidden)
  }

  lemma NumberFirst<N>(x: string, s: string, vars: seq<string>, cx: Config<N>)
    requires IsNumber(x) && ParseNumber(x, cx.ar).Some? && (|s| > 0 ==> !IsDigitOrDot(s[0]))
    ensures Compile(x + s, vars, cx) == Run(s, AFTER_NUMBER, AfterOperand(x, vars, cx), |x|, cx)
  {
    hide Scan, ParseNumber, Step, IsNumber;
    NumberAllowed(x);
    ScanRenderedWord(x, s, DEFAULT);
    OneToken(x, s, DEFAULT, Init(NoMacros(vars)), 0, cx);
    NumberSteps(x, Init(NoMacros(vars)), cx);
    var num := Const(ParseNumber(x, cx.ar).value);
    assert [] + [num] == [num];
  }

  lemma NumberSteps<N>(x: string, st: State<N>, cx: Config<N>)
    requires IsNumber(x) && ParseNumber(x, cx.ar).Some? && st.id == "" && st.paren.Allowed?
    ensures Step(st, x, cx) == Ok(st.(es := st.es + [Const(ParseNumber(x, cx.ar).value)], paren := Forbidden))
  {
    hide ParseNumber, Lookup;
  }

  lemma FailsAfterNumber(s: string)
    requires |s| > 0
    ensures 'a' <= s[0] <= 'z' || 'A' <= s[0] <= 'Z' || s[0] in ['_', '$', '@', '{', '['] ==>
              Scan(s, AFTER_NUMBER) == Fail(-2)
    ensures s[0] == '(' ==> Scan(s, AFTER_NUMBER) == Fail(-3)
    ensures s[0] in [':', ';', '?', '\'', '\"'] ==> Scan(s, AFTER_NUMBER) == Fail(-5)
  {
    hide Lookup;
    if s[0] in [':', ';', '?', '\'', '\"'] {
      NoOperatorStarts(s[0], s[..1]);
      if |s| > 1 { NoOperatorStarts(s[0], s[..2]); }
    }
  }

  lemma NoOperatorStarts(c: char, s: string)
    requires c in [':', ';', '?', '\'', '\"'] && |s| > 0 && s[0] == c
    ensures Lookup(s, BinaryOnly) == Unknown
  {
  }

  lemma BlankSkipped<N>(s: string, st: State<N>, near: nat, cx: Config<N>)
    requires |s| > 1 && s[0] == ' ' && '0' <= s[1] <= '9' && near > 0
    ensures Run(s, AFTER_NUMBER, st, near, cx) == Rejected(-1, near + 1)
  {
    hide Step, Span, Lookup;
    SpanUnique(s, IsBlank, 1);
    assert Scan(s, AFTER_NUMBER) == Skip(1, AFTER_NUMBER);
    assert Scan(s[1..], AFTER_NUMBER) == Fail(-1);
    ScanStops(s[1..], AFTER_NUMBER, st, near + 1, cx);
  }

  // ---------------------------------------------------------------- words and parentheses

  /** A call of a name that is no function and no macro. */
  lemma UnknownFunction<N>(n: string, rest: string, vars: seq<string>, cx: Config<N>)
    requires IsWord(n) && n != "$" && n !in cx.funcs
    ensures Compile(n + "(" + rest, vars, cx) == Rejected(-6, |n| + 1)
  {
    hide Scan, Step, IsWord;
    var s := "(" + rest;
    assert n + "(" + rest == n + s;
    var st := Init(NoMacros<N>(vars));
    NotEmpty(n);
    WordFirst(n, s, st, vars, cx);
    ScanOpen(rest, AFTER_WORD);
    OneToken("(", rest, AFTER_WORD, st.(id := n), |n|, cx);
    OpenOfUnknown(n, st.(id := n), cx);
  }

  lemma ScanOpen(rest: string, f: Flags)
    requires !f.comma && f.topen
    ensures TokText("(") == "(" && Scan("(" + rest, f) == Token("(", 1, AFTER_OPEN) && After("(") == AFTER_OPEN
  {
    assert ("(" + rest)[..1] == "(";
  }

  lemma ScanClose(rest: string, f: Flags)
    requires !f.comma && f.tclose
    ensures TokText(")") == ")" && Scan(")" + rest, f) == Token(")", 1, AFTER_CLOSE) && After(")") == AFTER_CLOSE
  {
    assert (")" + rest)[..1] == ")";
  }

  lemma WordFirst<N>(n: string, s: string, st: State<N>, vars: seq<string>, cx: Config<N>)
    requires IsWord(n) && (|s| > 0 ==> !IsVarChr(s[0])) && st == Init(NoMacros(vars))
    ensures Compile(n + s, vars, cx) == Run(s, AFTER_WORD, st.(id := n), |n|, cx)
  {
    hide Scan, Step;
    ScanRenderedWord(n, s, DEFAULT);
    OneToken(n, s, DEFAULT, st, 0, cx);
    WordSteps(n, st, cx);
  }

  lemma WordSteps<N>(n: string, st: State<N>, cx: Config<N>)
    requires IsWord(n) && st.id == "" && st.paren.Allowed?
    ensures Step(st, n, cx) == Ok(st.(id := n))
  {
    hide Lookup;
    NonDigitIsNoNumber(n, cx.ar);
    WordIsNoOperator(n);
  }

  lemma WordIsNoOperator(n: string)
    requires IsWord(n)
    ensures Lookup(n, Any) == Unknown
  {
  }

  lemma OpenOfUnknown<N>(n: string, st: State<N>, cx: Config<N>)
    requires st.id == n && |n| > 0 && n != "$" && n !in cx.funcs && st.env.macros == []
    ensures Step(st, "(", cx) == Err(-6)
  {
  }

  /** A parenthesis that is never closed, and one that was never opened. */
  lemma Unbalanced<N>(x: string, rest: string, vars: seq<string>, cx: Config<N>)
    requires IsNumber(x) && ParseNumber(x, cx.ar).Some?
    ensures Compile("(" + x, vars, cx) == Rejected(-8, 1 + |x|)
    ensures Compile(x + ")" + rest, vars, cx) == Rejected(-8, |x| + 1)
  {
    hide Scan, Step, IsNumber, ParseNumber;
    var st := Init(NoMacros<N>(vars));
    var open := st.(os := ["("]);
    ScanOpen(x, DEFAULT);
    OneToken("(", x, DEFAULT, st, 0, cx);
    OpenSteps(st, cx);
    assert x + [] == x;
    ScanRenderedWord(x, [], AFTER_OPEN) by { NumberAllowed(x); }
    NumberAllowed(x);
    OneToken(x, [], AFTER_OPEN, open, 1, cx);
    NumberSteps(x, open, cx);
    EndsOpen(open.(es := [Const(ParseNumber(x, cx.ar).value)], paren := Forbidden), 1 + |x|, cx);
    assert x + ")" + rest == x + (")" + rest);
    NumberFirst(x, ")" + rest, vars, cx);
    ScanClose(rest, AFTER_NUMBER);
    OneToken(")", rest, AFTER_NUMBER, AfterOperand(x, vars, cx), |x|, cx);
    CloseOfNone(AfterOperand(x, vars, cx), cx);
  }

  lemma NumberAllowed(x: string)
    requires IsNumber(x)
    ensures Allows(AFTER_OPEN, x) && Allows(DEFAULT, x) && TokText(x) == x && After(x) == AFTER_NUMBER
    ensures |x| > 0 && IsDigit(x[0]) && !IsWord(x)
  {
  }

  lemma OpenSteps<N>(st: State<N>, cx: Config<N>)
    requires st.id == "" && st.paren.Allowed? && st.os == []
    ensures Step(st, "(", cx) == Ok(st.(os := ["("]))
  {
    assert st.os + ["("] == ["("];
  }

  lemma EndsOpen<N>(st: State<N>, near: nat, cx: Config<N>)
    requires st.os == ["("] && st.id == "" && near > 0
    ensures Run([], AFTER_NUMBER, st, near, cx) == Rejected(-8, near)
  {
  }

  lemma CloseOfNone<N>(st: State<N>, cx: Config<N>)
    requires st.id == "" && st.os == [] && st.frames == [] && st.paren.Forbidden?
    ensures Step(st, ")", cx) == Err(-8)
  {
  }

  // ---------------------------------------------------------------- definitions, numbers, assignments

  /** A macro definition without arguments, and one whose first argument is no variable. */
  lemma BadDefinition<N>(x: string, rest: string, vars: seq<string>, cx: Config<N>)
    requires IsNumber(x) && ParseNumber(x, cx.ar).Some?
    ensures Compile("$()" + rest, vars, cx) == Rejected(-9, 3)
    ensures Compile("$(" + x + ")" + rest, vars, cx) == Rejected(-10, |x| + 3)
  {
    hide Scan, Step, IsNumber, ParseNumber;
    var open := State([], ["$", "{"], [Frame(2, 0, [])], NoMacros<N>(vars), "", Allowed);
    assert "$()" + rest == "$" + ("(" + (")" + rest));
    DefinitionOpens(")" + rest, vars, cx);
    ScanClose(rest, AFTER_OPEN);
    OneToken(")", rest, AFTER_OPEN, open, 2, cx);
    CloseOfDefinition(open, cx);
    var tail := ")" + rest;
    assert "$(" + x + ")" + rest == "$" + ("(" + (x + tail));
    DefinitionOpens(x + tail, vars, cx);
    NumberAllowed(x);
    ScanRenderedWord(x, tail, AFTER_OPEN);
    OneToken(x, tail, AFTER_OPEN, open, 2, cx);
    NumberSteps(x, open, cx);
    var num := Const(ParseNumber(x, cx.ar).value);
    assert [] + [num] == [num];
    var st := open.(es := [num], paren := Forbidden);
    ScanClose(rest, AFTER_NUMBER);
    OneToken(")", rest, AFTER_NUMBER, st, 2 + |x|, cx);
    CloseOfDefinition(st, cx);
  }

  lemma DefinitionOpens<N>(s: string, vars: seq<string>, cx: Config<N>)
    ensures Compile("$" + ("(" + s), vars, cx)
         == Run(s, AFTER_OPEN, State([], ["$", "{"], [Frame(2, 0, [])], NoMacros<N>(vars), "", Allowed), 2, cx)
  {
    hide Scan, Step;
    var st := Init(NoMacros<N>(vars));
    WordFirst("$", "(" + s, st, vars, cx);
    ScanOpen(s, AFTER_WORD);
    OneToken("(", s, AFTER_WORD, st.(id := "$"), 1, cx);
    DollarOpens(st.(id := "$"), cx);
  }

  lemma DollarOpens<N>(st: State<N>, cx: Config<N>)
    requires st.id == "$" && st.os == [] && st.es == [] && st.frames == []
    ensures Step(st, "(", cx) == Ok(State([], ["$", "{"], [Frame(2, 0, [])], st.env, "", Allowed))
  {
    assert [] + ["$"] == ["$"] && ["$"] + ["{"] == ["$", "{"];
    assert [] + [Frame<N>.Frame(2, 0, [])] == [Frame<N>.Frame(2, 0, [])];
  }

  lemma CloseOfDefinition<N>(st: State<N>, cx: Config<N>)
    requires st.id == "" && st.os == ["$", "{"] && st.frames == [Frame(2, 0, [])] && !st.paren.Expected?
    requires st.es == [] || (|st.es| == 1 && !st.es[0].Var?)
    ensures Step(st, ")", cx) == Err(if st.es == [] then -9 else -10)
  {
  }

  /** Digits with a second point are no number, and no name either. */
  lemma BadNumber<N>(x: string, rest: string, vars: seq<string>, cx: Config<N>)
    requires IsNumber(x) && ParseNumber(x, cx.ar).None? && (|rest| > 0 ==> !IsDigitOrDot(rest[0]))
    ensures Compile(x + rest, vars, cx) == Rejected(-11, |x|)
  {
    hide Scan, ParseNumber, Step;
    ScanRenderedWord(x, rest, DEFAULT);
    OneToken(x, rest, DEFAULT, Init(NoMacros<N>(vars)), 0, cx);
    NoNumberSteps(x, Init(NoMacros<N>(vars)), cx);
  }

  lemma NoNumberSteps<N>(x: string, st: State<N>, cx: Config<N>)
    requires IsNumber(x) && ParseNumber(x, cx.ar).None? && st.id == "" && st.paren.Allowed?
    ensures Step(st, x, cx) == Err(-11)
  {
    hide ParseNumber, Operator, Close, Lookup;
    NumberIsNoOperator(x);
  }

  lemma NumberIsNoOperator(x: string)
    requires IsNumber(x)
    ensures Lookup(x, Any) == Unknown
  {
  }

  /** An assignment to a number. */
  lemma BadAssignment<N>(x: string, y: string, vars: seq<string>, cx: Config<N>)
    requires IsNumber(x) && ParseNumber(x, cx.ar).Some? && IsNumber(y) && ParseNumber(y, cx.ar).Some?
    ensures Compile(x + "=" + y, vars, cx) == Rejected(-12, |x| + 1 + |y|)
  {
    hide Scan, Step, IsNumber, ParseNumber;
    var st := AfterOperand(x, vars, cx);
    assert x + "=" + y == x + ("=" + y);
    NumberFirst(x, "=" + y, vars, cx);
    EqualsIs();
    NumberStarts(y);
    ScanRenderedBinary("=", y, AFTER_NUMBER);
    OneToken("=", y, AFTER_NUMBER, st, |x|, cx);
    EqualsSteps(st, cx);
    var st1 := st.(os := ["="], paren := Allowed);
    assert y + [] == y;
    NumberAllowed(y);
    ScanRenderedWord(y, [], AFTER_OPERATOR);
    OneToken(y, [], AFTER_OPERATOR, st1, |x| + 1, cx);
    NumberSteps(y, st1, cx);
    EndsAssigning(st1.(es := st1.es + [Const(ParseNumber(y, cx.ar).value)], paren := Forbidden), |x| + 1 + |y|, cx);
  }

  lemma NumberStarts(y: string)
    requires IsNumber(y)
    ensures |y| > 0 && y[0] !in ['*', '<', '>', '=', '&', '|'] && Allows(AFTER_OPERATOR, y)
  {
  }

  lemma EqualsIs()
    ensures IsBinaryTok("=") && TokText("=") == "=" && After("=") == AFTER_OPERATOR
    ensures Lookup("=", Any) == Assign && Lookup("", Any) == Unknown
  {
    hide Lookup;
    EqualsFound();
  }

  lemma EqualsFound()
    ensures Lookup("=", Any) == Assign && Lookup("=", BinaryOnly) == Assign && Lookup("", Any) == Unknown
  {
  }

  lemma EqualsSteps<N>(st: State<N>, cx: Config<N>)
    requires st.id == "" && st.os == [] && !st.paren.Expected?
    ensures Step(st, "=", cx) == Ok(st.(os := ["="], paren := Allowed))
  {
    hide Lookup;
    EqualsIs();
    NonDigitIsNoNumber("=", cx.ar);
    assert st.os + ["="] == ["="];
  }

  lemma EndsAssigning<N>(st: State<N>, near: nat, cx: Config<N>)
    requires st.os == ["="] && st.id == "" && near > 0 && |st.es| == 2 && !st.es[0].Var?
    ensures Run([], AFTER_NUMBER, st, near, cx) == Rejected(-12, near)
  {
    hide Lookup;
    EqualsIs();
  }

  // ---------------------------------------------------------------- the code that is never given

  /** Where the flags let a parenthesis open, the parser does too. */
  ghost predicate Ready<N>(f: Flags, st: State<N>) {
    !f.comma && !st.paren.Expected? && (f.topen ==> st.paren.Allowed?)
  }

  lemma ReadyStep<N>(f: Flags, st: State<N>, t: string, cx: Config<N>)
    requires Ready(f, st) && IsLexeme(t) && Allows(f, t)
    ensures var r := Step(st, t, cx); (r.Ok? ==> Ready(After(t), r.value)) && r != Err(-7)
  {
    hide Lookup, ParseNumber, Operator, Close, IsNumber, IsWord;
    var r := Resolve(st, t, cx);
    if r.Ok? {
      ParensAllowed(f);
      if t == "(" { ReadyOpens(f, r.value, cx); } else { ReadyActs(t, r.value, cx); }
    }
  }

  lemma ParensAllowed(f: Flags)
    ensures Allows(f, "(") <==> f.topen
    ensures After("(") == AFTER_OPEN && After(")") == AFTER_CLOSE && !IsNumber(")")
  {
  }

  lemma ReadyOpens<N>(f: Flags, st: State<N>, cx: Config<N>)
    requires !st.paren.Forbidden?
    ensures var r := Act(st, "(", cx); (r.Ok? ==> Ready(After("("), r.value)) && r != Err(-7)
  {
    hide Lookup, ParseNumber, Operator, Close;
  }

  lemma ReadyActs<N>(t: string, st: State<N>, cx: Config<N>)
    requires IsLexeme(t) && t != "(" && !st.paren.Expected?
    ensures var r := Act(st, t, cx); (r.Ok? ==> Ready(After(t), r.value)) && r != Err(-7)
  {
    hide Lookup, ParseNumber, Operator, Close, IsNumber, IsWord;
    ParensAllowed(AFTER_OPEN);
    if t == ")" {
      CloseCodes(st, cx);
    } else if IsNumber(t) {
      NumberAllowed(t);
      NumberIsNoOperator(t);
    } else {
      NoNumberOpens(t, cx);
    }
    OperatorCodes(t, Lookup(t, Any), st.es, st.os, st.frames);
  }

  lemma NoNumberOpens<N>(t: string, cx: Config<N>)
    requires IsLexeme(t) && !IsNumber(t)
    ensures ParseNumber(t, cx.ar).None? && |t| > 0
  {
    hide Lookup, ParseNumber;
    if IsBinaryTok(t) { BinaryTokIs(t); }
    NonDigitIsNoNumber(t, cx.ar);
  }

  lemma CloseCodes<N>(st: State<N>, cx: Config<N>)
    ensures var r := Close(st, cx); r != Err(-7) && (r.Ok? ==> !r.value.paren.Expected?)
  {
    hide Unwind;
  }

  lemma {:induction false} OperatorCodes<N>(t: string, op: Op, es: seq<Expr<N>>, os: seq<string>, frames: seq<Frame<N>>)
    ensures Operator(t, op, es, os, frames) != Err(-7)
    decreases |os|
  {
    hide Lookup, Bind, Reduces;
    if |os| > 0 {
      var b := Bind(Last(os), es);
      if b.Some? { OperatorCodes(t, op, b.value, Front(os), frames); }
    }
  }

  lemma {:induction false} DrainCodes<N>(es: seq<Expr<N>>, os: seq<string>)
    ensures Drain(es, os) != Err(-7)
    decreases |os|
  {
    hide Bind;
    if |os| > 0 && Bind(Last(os), es).Some? { DrainCodes(Bind(Last(os), es).value, Front(os)); }
  }

  /** The code -7, for a call that is none, is never given: what would earn it is rejected by the scanner. */
  lemma NoBadCall<N>(s: string, vars: seq<string>, cx: Config<N>)
    ensures forall near :: Compile(s, vars, cx) != Rejected(-7, near)
  {
    RunNoBadCall(s, DEFAULT, Init(NoMacros<N>(vars)), 0, cx);
  }

  lemma {:induction false} RunNoBadCall<N>(s: string, f: Flags, st: State<N>, near: nat, cx: Config<N>)
    requires Ready(f, st)
    ensures forall k :: Run(s, f, st, near, cx) != Rejected(-7, k)
    decreases |s|
  {
    hide Scan, Step, Ready;
    ReadyFlags(f, st);
    ScanIsModed(s, f);
    match Scan(s, f)
    case End => FinishCodes(st, near, cx);
    case Fail(_) => FailCodes(s, f);
    case Abort(_) =>
    case Skip(n, f') => RunNoBadCall(s[n..], f', st, near + n, cx);
    case Token(t, n, f') =>
      ReadyStep(f, st, t, cx);
      if Step(st, t, cx).Ok? { RunNoBadCall(s[n..], f', Step(st, t, cx).value, near + n, cx); }
  }

  lemma ReadyFlags<N>(f: Flags, st: State<N>)
    requires Ready(f, st)
    ensures !f.comma
  {
  }

  lemma FailCodes(s: string, f: Flags)
    ensures Scan(s, f) != Fail(-7)
  {
    hide Lookup, LongestOp, Span;
  }

  lemma FinishCodes<N>(st: State<N>, near: nat, cx: Config<N>)
    ensures forall k :: Finish(st, near, cx) != Rejected(-7, k)
  {
    hide Drain;
    DrainCodes(st.es, st.os);
    DrainCodes(st.es + [Var(st.id)], st.os);
  }

  // ---------------------------------------------------------------- a lone name

  /** A word alone is a variable, which is put at the head of the variables unless it is among them. */
  lemma NameCompiles<N>(n: string, vars: seq<string>, cx: Config<N>)
    requires IsWord(n)
    ensures Compile(n, vars, cx) == Accepted(Var(n), Env(if n in vars then vars else [n] + vars, []), |n|)
  {
    hide Scan, Step, IsWord;
    var st := Init(NoMacros<N>(vars));
    assert n + [] == n;
    WordFirst(n, [], st, vars, cx);
    EndsInName(n, st.(id := n), |n|, cx) by { NotEmpty(n); }
    NotEmpty(n);
  }

  lemma NotEmpty(n: string)
    requires IsWord(n)
    ensures |n| > 0
  {
  }

  lemma EndsInName<N>(n: string, st: State<N>, near: nat, cx: Config<N>)
    requires st.os == [] && st.es == [] && st.id == n && |n| > 0 && near > 0
    ensures Run([], AFTER_WORD, st, near, cx) == Accepted(Var(n), Declare(st.env, n), near)
  {
    var v: Expr<N> := Var(n);
    assert [] + [v] == [v];
  }

  /** What a word is made of: a letter, a digit that is not the first, `$`, `@`, `_`, a backquote, brackets, braces, the
      backslash, the tilde, `#` if it is not the first, and whatever lies beyond the tilde. */
  lemma CharacterClasses(c: char)
    ensures IsWord([c]) <==> 'a' <= c <= 'z' || 'A' <= c <= 'Z' || c in "$@_`[]{}\\~" || c > '~'
    ensures IsWord(['x', c]) <==> IsWord([c]) || '0' <= c <= '9' || c == '#'
    ensures IsNumber([c]) <==> '0' <= c <= '9'
    ensures IsNumber(['1', c]) <==> '0' <= c <= '9' || c == '.'
    ensures IsSpace(c) <==> c == ' ' || c == '\t' || c == '\n' || c == 11 as char || c == 12 as char || c == '\r'
  {
    assert [c][0] == c && ['x', c][0] == 'x' && ['x', c][1] == c && ['1', c][0] == '1' && ['1', c][1] == c;
    assert IsVarChr('x') && IsFirstVarChr('x');
  }
}
