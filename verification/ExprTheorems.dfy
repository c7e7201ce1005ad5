/** The theorems about the compiler on text: for every text, whether it is accepted, with which result, rejected,
    or brought to the undefined step; and that the tree of a text without macros reads the input in order. */
module ExprTheorems {
  import opened Common
  import opened ExprOps
  import opened ExprLexer
  import opened ExprMachine
  import opened ExprGrammar
  import opened ExprEffect
  import opened ExprRefine

  // ---------------------------------------------------------------- modes of a sentence

  predicate OperandMode(f: Flags) {
    !f.top && f.tnumber && f.tword && f.topen
  }

  predicate OperatorMode(f: Flags) {
    f.top && f.tclose
  }

  predicate Reads(f: Flags, toks: seq<string>) {
    Moded(f, toks) && OperatorMode(AfterAll(f, toks))
  }

  lemma MoreModes(f: Flags, a: seq<string>, b: seq<string>)
    requires Moded(f, a) && Moded(AfterAll(f, a), b)
    ensures Moded(f, a + b) && AfterAll(f, a + b) == AfterAll(AfterAll(f, a), b)
  {
    hide Moded, After;
    ModedConcat(f, a, b);
    if |b| == 0 { assert a + b == a; }
  }

  lemma ReadsSpelling(f: Flags, op: Op)
    requires (IsUnary(op) && OperandMode(f)) || (IsBinary(op) && OperatorMode(f))
    ensures Moded(f, [Spelling(op)]) && OperandMode(AfterAll(f, [Spelling(op)]))
  {
    hide Lookup, Spelling;
    if IsUnary(op) {
      UnarySpelling(op);
      UnaryTok(Spelling(op));
    } else {
      BinarySpelling(op);
      BinaryTokIs(Spelling(op));
    }
  }

  lemma ReadsOperand(f: Flags, t: string)
    requires OperandMode(f) && (IsNumber(t) || IsWord(t))
    ensures Reads(f, [t])
  {
  }

  lemma ReadsOpen(f: Flags, n: string)
    requires OperandMode(f)
    ensures Moded(f, ["("]) && AfterAll(f, ["("]) == AFTER_OPEN
    ensures IsWord(n) ==> Moded(f, [n, "("]) && AfterAll(f, [n, "("]) == AFTER_OPEN
  {
    if IsWord(n) { assert [n, "("][1..] == ["("]; }
  }

  lemma ReadsClose(f: Flags)
    requires f.tclose
    ensures Reads(f, [")"])
  {
  }

  /** A proper tree is read from any point where an operand may start. */
  lemma {:induction false} SentenceModes(c: Cst, f: Flags)
    requires Proper(c) && OperandMode(f)
    ensures Reads(f, Toks(c))
    decreases c, 1
  {
    hide Moded, AfterAll, Lookup, Spelling, IsWord, IsNumber, Reduces;
    match c
    case Lit(t) => ReadsOperand(f, t);
    case Id(n) => ReadsOperand(f, n);
    case Un(op, a) =>
      ReadsSpelling(f, op);
      SentenceModes(a, AfterAll(f, [Spelling(op)]));
      MoreModes(f, [Spelling(op)], Toks(a));
    case Bin(op, l, r) =>
      SentenceModes(l, f);
      var f1 := AfterAll(f, Toks(l));
      ReadsSpelling(f1, op);
      MoreModes(f, Toks(l), [Spelling(op)]);
      SentenceModes(r, AfterAll(f1, [Spelling(op)]));
      MoreModes(f, Toks(l) + [Spelling(op)], Toks(r));
    case Paren(a) =>
      ReadsOpen(f, "");
      SentenceModes(a, AFTER_OPEN);
      MoreModes(f, ["("], Toks(a));
      ReadsClose(AfterAll(f, ["("] + Toks(a)));
      MoreModes(f, ["("] + Toks(a), [")"]);
    case Empty =>
      ReadsOpen(f, "");
      ReadsClose(AFTER_OPEN);
      MoreModes(f, ["("], [")"]);
      assert Toks(Empty) == ["("] + [")"];
    case Apply(n, args) =>
      ReadsOpen(f, n);
      ArgsModes(args, AFTER_OPEN);
      MoreModes(f, [n, "("], ToksArgs(args));
      ReadsClose(AfterAll(f, [n, "("] + ToksArgs(args)));
      MoreModes(f, [n, "("] + ToksArgs(args), [")"]);
  }

  lemma {:induction false} ArgsModes(args: seq<Cst>, f: Flags)
    requires (forall a <- args :: Proper(a)) && OperandMode(f) && f.tclose
    ensures Moded(f, ToksArgs(args)) && AfterAll(f, ToksArgs(args)).tclose
    decreases args, 0
  {
    if |args| > 0 {
      var done, last := args[..|args| - 1], args[|args| - 1];
      DoneModes(done, f);
      SentenceModes(last, AfterAll(f, ToksDone(done)));
      MoreModes(f, ToksDone(done), Toks(last));
    }
  }

  lemma {:induction false} DoneModes(args: seq<Cst>, f: Flags)
    requires (forall a <- args :: Proper(a)) && OperandMode(f)
    ensures Moded(f, ToksDone(args)) && OperandMode(AfterAll(f, ToksDone(args)))
    decreases args, 0
  {
    hide Proper, Toks, Lookup;
    if |args| > 0 {
      var done, last := args[..|args| - 1], args[|args| - 1];
      DoneModes(done, f);
      var f1 := AfterAll(f, ToksDone(done));
      SentenceModes(last, f1);
      ReadsSpelling(AfterAll(f1, Toks(last)), Comma);
      MoreModes(f1, Toks(last), [","]);
      MoreModes(f, ToksDone(done), Toks(last) + [","]);
    }
  }

  // ---------------------------------------------------------------- every text

  ghost predicate Accepts<N>(toks: seq<string>, env: Env<N>, cx: Config<N>) {
    toks == [] || exists c :: Proper(c) && Toks(c) == toks && Effect(c, Pile([], env), cx).Ok?
  }

  /** `c` is the tree of the stream, and reading it leaves `x` on top. */
  ghost predicate GivenBy<N>(c: Cst, toks: seq<string>, env: Env<N>, cx: Config<N>, x: Expr<N>, env': Env<N>) {
    && Proper(c) && Toks(c) == toks
    && var r := Effect(c, Pile([], env), cx);
       r.Ok? && x == Result(r.value.es, cx) && env' == r.value.env
  }

  /** What an accepted stream compiles to: the top of the operands that are left, or zero if there is none. */
  ghost predicate Gives<N>(toks: seq<string>, env: Env<N>, cx: Config<N>, x: Expr<N>, env': Env<N>) {
    if toks == [] then x == Const(cx.ar.zero) && env' == env
    else exists c :: GivenBy(c, toks, env, cx, x, env')
  }

  /** The outcome on a scanned input, decided by its tokens. */
  ghost predicate Decided<N>(out: Outcome<N>, lexed: Lexed, total: nat, env: Env<N>, cx: Config<N>) {
    && (out.Undefined? <==> PopsNothing(lexed.toks, env, cx))
    && (out.Accepted? <==> lexed.complete && Accepts(lexed.toks, env, cx))
    && (out.Accepted? ==> out.near == AtLeastOne(total) && Gives(lexed.toks, env, cx, out.expr, out.env))
  }

  /** A stream has at most one tree, so it gives at most one result. */
  lemma GivesOne<N>(toks: seq<string>, env: Env<N>, cx: Config<N>, x: Expr<N>, e: Env<N>, y: Expr<N>, e': Env<N>)
    requires Gives(toks, env, cx, x, e) && Gives(toks, env, cx, y, e')
    ensures x == y && e == e'
  {
    hide Proper, Effect;
    if toks != [] {
      var c :| GivenBy(c, toks, env, cx, x, e);
      var d :| GivenBy(d, toks, env, cx, y, e');
      Unambiguous(c, d);
    }
  }

  /** On every text: the compiler accepts exactly the sentences that are read without an error, gives what reading
      them leaves, and consumes the whole text; it leaves defined behaviour exactly when some comma ends an argument
      while no operand is pending; it rejects everything else. A text without tokens compiles to zero. */
  lemma CompileExact<N>(s: string, vars: seq<string>, cx: Config<N>)
    ensures Decided(Compile(s, vars, cx), Lex(s, DEFAULT), |s|, NoMacros(vars), cx)
  {
    hide Lex, Run, Moded, Decided;
    var env := NoMacros<N>(vars);
    RunIsFeed(s, DEFAULT, Init(env), 0, cx);
    LexIsModed(s, DEFAULT);
    ExactOnTokens(Lex(s, DEFAULT).toks, env, cx);
    ExactOutcome(Compile(s, vars, cx), Lex(s, DEFAULT), |s|, env, cx);
  }

  lemma ExactOutcome<N>(out: Outcome<N>, lexed: Lexed, total: nat, env: Env<N>, cx: Config<N>)
    requires RunAgrees(out, lexed, Init(env), total, cx) && TokensDecided(lexed.toks, env, cx)
    ensures Decided(out, lexed, total, env, cx)
  {
    hide Feed, PopsNothing, Remaining, Init, Builds, Gives, Accepts;
    var r := Feed(Init(env), lexed.toks, cx);
    NothingGiven(env, cx);
    if r.Ok? && Remaining(r.value).Ok? && lexed.toks != [] {
      var (es, env') := Remaining(r.value).value;
      BuildsGives(lexed.toks, env, cx, Pile(es, env'));
    }
  }

  lemma NothingGiven<N>(env: Env<N>, cx: Config<N>)
    ensures Accepts([], env, cx) && Gives([], env, cx, Const(cx.ar.zero), env)
  {
  }

  lemma BuildsGives<N>(toks: seq<string>, env: Env<N>, cx: Config<N>, p: Pile<N>)
    requires Builds(toks, env, cx, p) && toks != []
    ensures Accepts(toks, env, cx) && Gives(toks, env, cx, Result(p.es, cx), p.env)
  {
    hide Proper, Effect;
    var c :| Proper(c) && Toks(c) == toks && Effect(c, Pile([], env), cx) == Ok(p);
    assert GivenBy(c, toks, env, cx, Result(p.es, cx), p.env);
  }

  ghost predicate TokensDecided<N>(toks: seq<string>, env: Env<N>, cx: Config<N>) {
    var r := Feed(Init(env), toks, cx);
    && FeedSound(toks, r, env, cx)
    && (PopsNothing(toks, env, cx) ==> r.Undef?)
    && (Accepts(toks, env, cx) ==> r.Ok? && Remaining(r.value).Ok?)
  }

  lemma ExactOnTokens<N>(toks: seq<string>, env: Env<N>, cx: Config<N>)
    requires Moded(DEFAULT, toks)
    ensures TokensDecided(toks, env, cx)
  {
    hide PopsNothing, Effect, Proper, Toks, Moded;
    MachineSound(toks, env, cx);
    if PopsNothing(toks, env, cx) { MachinePops(toks, env, cx); }
    if toks == [] {
      assert Feed(Init(env), toks, cx) == Ok(Init(env));
    } else if Accepts(toks, env, cx) {
      var c :| Proper(c) && Toks(c) == toks && Effect(c, Pile([], env), cx).Ok?;
      MachineComplete(c, env, cx);
    }
  }

  /** The text of a concrete syntax tree. */
  function Text(c: Cst): string {
    Render(Toks(c))
  }

  ghost predicate EndsAs<N>(out: Outcome<N>, r: Res<Pile<N>>, total: nat, cx: Config<N>) {
    match r
    case Ok(p) => out == Accepted(Result(p.es, cx), p.env, total)
    case Err(_) => out.Rejected?
    case Undef => out.Undefined?
  }

  /** The text of any sentence compiles as the effect of its tree says. */
  lemma CompileSentence<N>(c: Cst, vars: seq<string>, cx: Config<N>)
    requires Proper(c)
    ensures EndsAs(Compile(Text(c), vars, cx), Effect(c, Pile([], NoMacros(vars)), cx), |Text(c)|, cx)
  {
    hide Lex, Run, Moded, Proper, Effect, Toks, Feed, AfterAll, Allows, After;
    var env := NoMacros<N>(vars);
    SentenceModes(c, DEFAULT);
    LexRender(Toks(c), DEFAULT);
    MachineComplete(c, env, cx);
    RunIsFeed(Text(c), DEFAULT, Init(env), 0, cx);
    TextNonEmpty(c);
  }

  /** The text of a sentence of the precedence grammar compiles to its elaboration, whatever macros it defines and
      uses, and is rejected when it has none. */
  lemma CompileText<N>(c: Cst, vars: seq<string>, cx: Config<N>)
    requires Proper(c) && Plain(c)
    ensures var out, d := Compile(Text(c), vars, cx), Elab(c, NoMacros(vars), cx);
      if d.Some? then out == Accepted(d.value.0, d.value.1, |Text(c)|) else out.Rejected?
  {
    hide Proper, Plain, Effect, Elab, Compile, Text;
    CompileSentence(c, vars, cx);
    PlainEffect(c, Pile([], NoMacros(vars)), cx);
  }

  lemma TextNonEmpty(c: Cst)
    requires Proper(c)
    ensures |Text(c)| > 0
  {
    SentenceModes(c, DEFAULT);
    ToksNonEmpty(c);
    FirstCharOf(Toks(c)[0]);
  }

  // ---------------------------------------------------------------- reading the tree in order

  datatype Item<N> = Number(value: Option<N>) | Name(name: string) | Operator(text: string)

  function ItemOf<N>(tok: string, cx: Config<N>): Item<N> {
    if IsNumber(tok) then Number(ParseNumber(tok, cx.ar)) else if IsWord(tok) then Name(tok) else Operator(tok)
  }

  /** The operands and operators of a token stream: everything but the parentheses. */
  function Items<N>(toks: seq<string>, cx: Config<N>): seq<Item<N>> {
    if |toks| == 0 then []
    else (if toks[0] == "(" || toks[0] == ")" then [] else [ItemOf(toks[0], cx)]) + Items(toks[1..], cx)
  }

  lemma {:induction false} ItemsConcat<N>(a: seq<string>, b: seq<string>, cx: Config<N>)
    ensures Items(a + b, cx) == Items(a, cx) + Items(b, cx)
    decreases |a|
  {
    if |a| == 0 {
      assert a + b == b;
    } else {
      assert (a + b)[0] == a[0] && (a + b)[1..] == a[1..] + b;
      ItemsConcat(a[1..], b, cx);
    }
  }

  /** The in-order reading of an expression. */
  function Yield<N>(e: Expr<N>): seq<Item<N>>
    decreases e, 1
  {
    match e
    case Const(v) => [Number(Some(v))]
    case Var(n) => [Name(n)]
    case Unary(op, a) => [Operator(Spelling(op))] + Yield(a)
    case Binary(op, a, b) => Yield(a) + [Operator(Spelling(op))] + Yield(b)
    case Func(n, args) => [Name(n)] + (if |args| == 0 then [] else YieldDone(args[..|args| - 1]) + Yield(args[|args| - 1]))
  }

  function YieldDone<N>(args: seq<Expr<N>>): seq<Item<N>>
    decreases args, 0
  {
    if |args| == 0 then []
    else YieldDone(args[..|args| - 1]) + (Yield(args[|args| - 1]) + [Operator(",")])
  }

  /** No macro is defined, so none is used. */
  predicate MacroFree(c: Cst) {
    match c
    case Lit(_) => true
    case Id(_) => true
    case Un(_, a) => MacroFree(a)
    case Bin(_, l, r) => MacroFree(l) && MacroFree(r)
    case Paren(a) => MacroFree(a)
    case Empty => true
    case Apply(n, args) => n != "$" && forall a <- args :: MacroFree(a)
  }

  lemma ItemsSpelling<N>(op: Op, cx: Config<N>)
    requires IsUnary(op) || IsBinary(op)
    ensures Items([Spelling(op)], cx) == [Operator(Spelling(op))]
  {
    if IsBinary(op) { BinarySpelling(op); }
  }

  /** Elaboration without macros declares variables only, and keeps every operand and operator in its place. */
  lemma {:induction false} YieldOf<N>(c: Cst, env: Env<N>, cx: Config<N>)
    requires Proper(c) && MacroFree(c) && env.macros == [] && Elab(c, env, cx).Some?
    ensures var (x, e) := Elab(c, env, cx).value; e.macros == [] && Yield(x) == Items(Toks(c), cx)
    decreases c, 1
  {
    hide Items, Lookup, Spelling, IsWord, IsNumber, Reduces;
    match c
    case Lit(t) => OneItem(t, cx);
    case Id(n) => OneItem(n, cx);
    case Un(op, a) =>
      YieldOf(a, env, cx);
      ItemsSpelling(op, cx);
      ItemsConcat([Spelling(op)], Toks(a), cx);
    case Bin(op, l, r) => YieldOfBinary(op, l, r, env, cx);
    case Paren(a) =>
      YieldOf(a, env, cx);
      ItemsOfParens(cx);
      ItemsConcat(["("] + Toks(a), [")"], cx);
      ItemsConcat(["("], Toks(a), cx);
    case Empty =>
    case Apply(n, args) => YieldOfCall(n, args, env, cx);
  }

  lemma OneItem<N>(t: string, cx: Config<N>)
    ensures IsNumber(t) ==> Items([t], cx) == [Number(ParseNumber(t, cx.ar))]
    ensures IsWord(t) ==> Items([t], cx) == [Name(t)]
  {
  }

  lemma ItemsOfParens<N>(cx: Config<N>)
    ensures Items(["("], cx) == [] && Items([")"], cx) == []
  {
  }

  lemma {:induction false} YieldOfBinary<N>(op: Op, l: Cst, r: Cst, env: Env<N>, cx: Config<N>)
    requires Proper(Bin(op, l, r)) && MacroFree(Bin(op, l, r)) && env.macros == [] && Elab(Bin(op, l, r), env, cx).Some?
    ensures var (x, e) := Elab(Bin(op, l, r), env, cx).value; e.macros == [] && Yield(x) == Items(Toks(Bin(op, l, r)), cx)
    decreases Bin(op, l, r), 0
  {
    hide Items, Lookup, Spelling, IsWord, Reduces;
    YieldOf(l, env, cx);
    YieldOf(r, Elab(l, env, cx).value.1, cx);
    ItemsSpelling(op, cx);
    ItemsConcat(Toks(l) + [Spelling(op)], Toks(r), cx);
    ItemsConcat(Toks(l), [Spelling(op)], cx);
  }

  lemma {:induction false} YieldOfCall<N>(n: string, args: seq<Cst>, env: Env<N>, cx: Config<N>)
    requires Proper(Apply(n, args)) && MacroFree(Apply(n, args)) && env.macros == []
    requires Elab(Apply(n, args), env, cx).Some?
    ensures var (x, e) := Elab(Apply(n, args), env, cx).value;
      e.macros == [] && Yield(x) == Items(Toks(Apply(n, args)), cx)
    decreases args, 2
  {
    hide Elab, ElabArgs, Items, Toks, Call, ToksDone, IsWord, YieldDone, Yield;
    ElabOfCall(n, args, env, cx);
    YieldOfArgs(args, env, cx);
    var (xs, e) := ElabArgs(args, env, cx).value;
    CallValueIs(n, args, env, cx);
    YieldOfFunc(n, xs);
    CallHead(n, cx);
    ToksOfCall(n, args);
    ItemsOfParens(cx);
    ItemsConcat([n, "("] + ToksArgs(args), [")"], cx);
    ItemsConcat([n, "("], ToksArgs(args), cx);
    if |args| > 0 {
      ItemsConcat(ToksDone(args[..|args| - 1]), Toks(args[|args| - 1]), cx);
    } else {
      NoItems(cx);
    }
  }

  lemma ElabOfCall<N>(n: string, args: seq<Cst>, env: Env<N>, cx: Config<N>)
    requires Elab(Apply(n, args), env, cx).Some?
    ensures ElabArgs(args, env, cx).Some?
  {
  }

  lemma CallValueIs<N>(n: string, args: seq<Cst>, env: Env<N>, cx: Config<N>)
    requires Elab(Apply(n, args), env, cx).Some? && n != "$" && env.macros == []
    requires ElabArgs(args, env, cx).Some? && ElabArgs(args, env, cx).value.1.macros == []
    ensures var (xs, e) := ElabArgs(args, env, cx).value; Elab(Apply(n, args), env, cx).value == (Func(n, xs), e)
  {
  }

  lemma YieldOfFunc<N>(n: string, xs: seq<Expr<N>>)
    ensures Yield(Func(n, xs)) == [Name(n)] + if |xs| == 0 then [] else YieldDone(xs[..|xs| - 1]) + Yield(xs[|xs| - 1])
  {
  }

  lemma NoItems<N>(cx: Config<N>)
    ensures Items([], cx) == []
  {
  }

  lemma ToksOfCall(n: string, args: seq<Cst>)
    ensures Toks(Apply(n, args)) == [n, "("] + ToksArgs(args) + [")"]
  {
  }

  lemma CallHead<N>(n: string, cx: Config<N>)
    requires IsWord(n)
    ensures Items([n, "("], cx) == [Name(n)]
  {
    assert [n, "("] == [n] + ["("];
    ItemsConcat([n], ["("], cx);
  }

  /** The arguments one by one; with `last`, the reading of all but the last is followed by commas. */
  lemma {:induction false} YieldOfArgs<N>(args: seq<Cst>, env: Env<N>, cx: Config<N>)
    requires forall a <- args :: Proper(a) && MacroFree(a)
    requires env.macros == [] && ElabArgs(args, env, cx).Some?
    ensures var (xs, e) := ElabArgs(args, env, cx).value;
      && e.macros == [] && YieldDone(xs) == Items(ToksDone(args), cx)
      && (|args| > 0 ==>
            && YieldDone(xs[..|xs| - 1]) == Items(ToksDone(args[..|args| - 1]), cx)
            && Yield(xs[|xs| - 1]) == Items(Toks(args[|args| - 1]), cx))
    decreases args, 0
  {
    hide Items, Toks, Elab, Proper, MacroFree, Yield, IsWord, Lookup, ElabArgs, YieldDone, ToksDone, ToksArgs;
    NoItems(cx);
    if |args| == 0 {
      NoArguments(env, cx);
      assert args == [];
    } else {
      var done, last := args[..|args| - 1], args[|args| - 1];
      assert args == done + [last];
      ElabArgsPush(done, last, env, cx);
      YieldOfArgs(done, env, cx);
      var (xs, e) := ElabArgs(done, env, cx).value;
      YieldOf(last, e, cx);
      var x := Elab(last, e, cx).value.0;
      assert (xs + [x])[..|xs|] == xs;
      YieldDoneSnoc(xs, x);
      ArgJoins("", done, last);
      ItemsConcat(ToksDone(done), Toks(last) + [","], cx);
      ItemsConcat(Toks(last), [","], cx);
      ItemsSpelling(Comma, cx);
    }
  }

  lemma NoArguments<N>(env: Env<N>, cx: Config<N>)
    ensures ElabArgs([], env, cx) == Some(([], env)) && YieldDone<N>([]) == [] && ToksDone([]) == []
  {
  }

  lemma YieldDoneSnoc<N>(xs: seq<Expr<N>>, x: Expr<N>)
    ensures YieldDone(xs + [x]) == YieldDone(xs) + (Yield(x) + [Operator(",")])
  {
    assert (xs + [x])[..|xs|] == xs;
  }
}
