/** Printing an expression with only the parentheses precedence requires, and the round trip through the
    compiler. */
module ExprPrint {
  import opened Common
  import opened ExprOps
  import opened ExprLexer
  import opened ExprMachine
  import opened ExprGrammar
  import opened ExprEffect
  import opened ExprRefine
  import opened ExprTheorems
  import opened ExprLimits

  /** A choice of spelling for the constants of an expression. */
  datatype Spell<!N> = Spell(of: N -> string)

  /** The expressions the language can write without macros: constants with a spelling that reads back as the
      same number, names that are words, assignments to variables, calls of known functions. */
  predicate Printable<N(==)>(e: Expr<N>, lit: Spell<N>, cx: Config<N>) {
    match e
    case Const(v) => IsNumber(lit.of(v)) && ParseNumber(lit.of(v), cx.ar) == Some(v)
    case Var(n) => IsWord(n)
    case Unary(op, a) => IsUnary(op) && Printable(a, lit, cx)
    case Binary(op, a, b) =>
      IsBinary(op) && Printable(a, lit, cx) && Printable(b, lit, cx) && (op == Assign ==> a.Var?)
    case Func(n, args) => IsWord(n) && n != "$" && n in cx.funcs && forall a <- args :: Printable(a, lit, cx)
  }

  function Group(c: Cst, needed: bool): Cst {
    if needed then Paren(c) else c
  }

  /** The syntax tree of an expression, with parentheses exactly where an operand may not stand bare. */
  function Insert<N>(e: Expr<N>, lit: Spell<N>): Cst
    decreases e, 1
  {
    match e
    case Const(v) => Lit(lit.of(v))
    case Var(n) => Id(n)
    case Unary(op, a) => var c := Insert(a, lit); Un(op, Group(c, !RightOk(c, op)))
    case Binary(op, a, b) =>
      var (l, r) := (Insert(a, lit), Insert(b, lit));
      Bin(op, Group(l, !LeftOk(l, op)), Group(r, !RightOk(r, op)))
    case Func(n, args) => Apply(n, InsertArgs(args, lit))
  }

  function InsertArgs<N>(args: seq<Expr<N>>, lit: Spell<N>): (r: seq<Cst>)
    ensures |r| == |args|
    decreases args, 0
  {
    if |args| == 0 then []
    else
      var c := Insert(args[|args| - 1], lit);
      InsertArgs(args[..|args| - 1], lit) + [Group(c, IsCommaNode(c))]
  }

  function Print<N>(e: Expr<N>, lit: Spell<N>): string {
    Text(Insert(e, lit))
  }

  /** The tree is a sentence of the grammar, and elaborating it gives the expression back. */
  lemma {:induction false} InsertElab<N>(e: Expr<N>, lit: Spell<N>, env: Env<N>, cx: Config<N>)
    requires Printable(e, lit, cx) && env.macros == []
    ensures var c := Insert(e, lit);
      && Proper(c) && Plain(c) && MacroFree(c)
      && Elab(c, env, cx).Some? && Elab(c, env, cx).value.0 == e && Elab(c, env, cx).value.1.macros == []
    decreases e, 1
  {
    hide Lookup, Reduces, Spelling;
    match e
    case Const(v) =>
    case Var(n) =>
    case Unary(op, a) => InsertElab(a, lit, env, cx);
    case Binary(op, a, b) => InsertBinary(op, a, b, lit, env, cx);
    case Func(n, args) => InsertCall(n, args, lit, env, cx);
  }

  lemma {:induction false} InsertCall<N>(n: string, args: seq<Expr<N>>, lit: Spell<N>, env: Env<N>, cx: Config<N>)
    requires Printable(Func(n, args), lit, cx) && env.macros == []
    ensures var c := Insert(Func(n, args), lit);
      && Proper(c) && Plain(c) && MacroFree(c)
      && Elab(c, env, cx).Some? && Elab(c, env, cx).value.0 == Func(n, args) && Elab(c, env, cx).value.1.macros == []
    decreases Func(n, args), 0
  {
    hide Lookup, Reduces, IsWord, InsertArgs, ElabArgs;
    InsertArgsElab(args, lit, env, cx);
  }

  lemma {:induction false} InsertBinary<N>(op: Op, a: Expr<N>, b: Expr<N>, lit: Spell<N>, env: Env<N>, cx: Config<N>)
    requires Printable(Binary(op, a, b), lit, cx) && env.macros == []
    ensures var c := Insert(Binary(op, a, b), lit);
      && Proper(c) && Plain(c) && MacroFree(c)
      && Elab(c, env, cx).Some? && Elab(c, env, cx).value.0 == Binary(op, a, b) && Elab(c, env, cx).value.1.macros == []
    decreases Binary(op, a, b), 0
  {
    hide Lookup, Reduces, Spelling, Elab, LeftOk, RightOk, Group;
    var l, r := Insert(a, lit), Insert(b, lit);
    InsertElab(a, lit, env, cx);
    var e := Elab(l, env, cx).value.1;
    InsertElab(b, lit, e, cx);
    GroupElab(l, !LeftOk(l, op), env, cx);
    GroupElab(r, !RightOk(r, op), e, cx);
    GroupFits(op, l, r);
    BinaryOf(op, Group(l, !LeftOk(l, op)), Group(r, !RightOk(r, op)), env, cx);
  }

  lemma GroupFits(op: Op, l: Cst, r: Cst)
    ensures LeftOk(Group(l, !LeftOk(l, op)), op) && RightOk(Group(r, !RightOk(r, op)), op)
  {
    hide Reduces;
  }

  lemma {:induction false} InsertArgsElab<N>(args: seq<Expr<N>>, lit: Spell<N>, env: Env<N>, cx: Config<N>)
    requires (forall a <- args :: Printable(a, lit, cx)) && env.macros == []
    ensures var cs := InsertArgs(args, lit);
      && (forall c <- cs :: Proper(c) && Plain(c) && MacroFree(c) && !IsCommaNode(c))
      && ElabArgs(cs, env, cx).Some? && ElabArgs(cs, env, cx).value.0 == args
      && ElabArgs(cs, env, cx).value.1.macros == []
    decreases args, 0
  {
    if |args| > 0 {
      var done, last := args[..|args| - 1], args[|args| - 1];
      assert args == done + [last];
      InsertArgsElab(done, lit, env, cx);
      var cs := InsertArgs(done, lit);
      var (xs, e) := ElabArgs(cs, env, cx).value;
      InsertElab(last, lit, e, cx);
      var c := Insert(last, lit);
      GroupElab(c, IsCommaNode(c), e, cx);
      ElabArgsPush(cs, Group(c, IsCommaNode(c)), env, cx);
    }
  }

  lemma GroupElab<N>(c: Cst, needed: bool, env: Env<N>, cx: Config<N>)
    requires Proper(c) && Plain(c) && MacroFree(c)
    ensures var d := Group(c, needed); Proper(d) && Plain(d) && MacroFree(d) && Elab(d, env, cx) == Elab(c, env, cx)
  {
  }

  /** Round trip: compiling the print of an expression rebuilds exactly that expression. */
  lemma RoundTrip<N>(e: Expr<N>, lit: Spell<N>, vars: seq<string>, cx: Config<N>)
    requires Printable(e, lit, cx)
    ensures var s := Print(e, lit); var out := Compile(s, vars, cx);
      out.Accepted? && out.expr == e && out.near == |s|
  {
    InsertElab(e, lit, NoMacros(vars), cx);
    CompileText(Insert(e, lit), vars, cx);
  }

  /** Different expressions have different prints. */
  lemma PrintInjective<N>(d: Expr<N>, e: Expr<N>, lit: Spell<N>, cx: Config<N>)
    requires Printable(d, lit, cx) && Printable(e, lit, cx) && Print(d, lit) == Print(e, lit)
    ensures d == e
  {
    RoundTrip(d, lit, [], cx);
    RoundTrip(e, lit, [], cx);
  }

  // ---------------------------------------------------------------- no shorter source

  /** A parenthesised or bare operand costs at least as many tokens as the printer spends on it. */
  lemma {:induction false} Shortest<N>(c: Cst, env: Env<N>, lit: Spell<N>, cx: Config<N>)
    requires Proper(c) && MacroFree(c) && env.macros == [] && Elab(c, env, cx).Some?
    ensures var (x, e) := Elab(c, env, cx).value;
      e.macros == [] && |Toks(c)| >= |Toks(Insert(x, lit))| && SameRoot(c, Insert(x, lit))
    decreases c, 1
  {
    hide Lookup, Reduces, Spelling, IsWord;
    match c
    case Lit(_) =>
    case Id(_) =>
    case Un(op, a) => Shortest(a, env, lit, cx);
    case Bin(op, l, r) => ShortestBinary(op, l, r, env, lit, cx);
    case Paren(a) => Shortest(a, env, lit, cx);
    case Empty =>
    case Apply(n, args) => ShortestCall(n, args, env, lit, cx);
  }

  lemma {:induction false} ShortestBinary<N>(op: Op, l: Cst, r: Cst, env: Env<N>, lit: Spell<N>, cx: Config<N>)
    requires Proper(Bin(op, l, r)) && MacroFree(Bin(op, l, r)) && env.macros == [] && Elab(Bin(op, l, r), env, cx).Some?
    ensures var (x, e) := Elab(Bin(op, l, r), env, cx).value;
      e.macros == [] && |Toks(Bin(op, l, r))| >= |Toks(Insert(x, lit))| && SameRoot(Bin(op, l, r), Insert(x, lit))
    decreases Bin(op, l, r), 0
  {
    hide Lookup, Reduces, Spelling, Toks, LeftOk, RightOk;
    Shortest(l, env, lit, cx);
    var (x, e) := Elab(l, env, cx).value;
    Shortest(r, e, lit, cx);
    ShortestBin(op, l, r, Insert(x, lit), Insert(Elab(r, e, cx).value.0, lit));
  }

  lemma {:induction false} ShortestCall<N>(n: string, args: seq<Cst>, env: Env<N>, lit: Spell<N>, cx: Config<N>)
    requires Proper(Apply(n, args)) && MacroFree(Apply(n, args)) && env.macros == [] && Elab(Apply(n, args), env, cx).Some?
    ensures var (x, e) := Elab(Apply(n, args), env, cx).value;
      e.macros == [] && |Toks(Apply(n, args))| >= |Toks(Insert(x, lit))| && SameRoot(Apply(n, args), Insert(x, lit))
    decreases Apply(n, args), 0
  {
    hide Elab, ElabArgs, ToksArgs, IsWord, Call;
    ElabOfCall(n, args, env, cx);
    ShortestArgs(args, env, lit, cx);
    CallValueIs(n, args, env, cx);
  }

  /** A tree that is not a group has the root operator of what it elaborates to, and a group costs two tokens
      more than that. */
  ghost predicate SameRoot(c: Cst, d: Cst) {
    match c
    case Paren(_) => |Toks(c)| >= |Toks(d)| + 2
    case Bin(op, _, _) => d.Bin? && d.op == op
    case Un(op, _) => d.Un? && d.op == op
    case _ => !d.Bin? && !d.Un?
  }

  lemma ShortestBin(op: Op, l: Cst, r: Cst, a: Cst, b: Cst)
    requires Proper(Bin(op, l, r))
    requires |Toks(l)| >= |Toks(a)| && SameRoot(l, a) && |Toks(r)| >= |Toks(b)| && SameRoot(r, b)
    ensures |Toks(Bin(op, l, r))| >= |Toks(Bin(op, Group(a, !LeftOk(a, op)), Group(b, !RightOk(b, op))))|
  {
    hide Toks, Reduces;
    GroupCost(a, !LeftOk(a, op));
    GroupCost(b, !RightOk(b, op));
    assert !LeftOk(a, op) ==> |Toks(l)| >= |Toks(a)| + 2;
    assert !RightOk(b, op) ==> |Toks(r)| >= |Toks(b)| + 2;
    BinCost(op, l, r);
    BinCost(op, Group(a, !LeftOk(a, op)), Group(b, !RightOk(b, op)));
  }

  lemma BinCost(op: Op, l: Cst, r: Cst)
    ensures |Toks(Bin(op, l, r))| == |Toks(l)| + 1 + |Toks(r)|
  {
  }

  lemma GroupCost(c: Cst, needed: bool)
    ensures |Toks(Group(c, needed))| == |Toks(c)| + if needed then 2 else 0
  {
  }

  lemma {:induction false} ShortestArgs<N>(args: seq<Cst>, env: Env<N>, lit: Spell<N>, cx: Config<N>)
    requires forall a <- args :: Proper(a) && MacroFree(a) && !IsCommaNode(a)
    requires env.macros == [] && ElabArgs(args, env, cx).Some?
    ensures var (xs, e) := ElabArgs(args, env, cx).value;
      && e.macros == []
      && |ToksDone(args)| >= |ToksDone(InsertArgs(xs, lit))| && |ToksArgs(args)| >= |ToksArgs(InsertArgs(xs, lit))|
    decreases args, 0
  {
    hide Elab, Toks, Proper, MacroFree, Lookup, Insert, ToksArgs, ToksDone, ElabArgs;
    if |args| == 0 {
      assert args == [];
      NoArguments(env, cx);
      NoArgs<N>(lit);
    } else {
      var done, last := args[..|args| - 1], args[|args| - 1];
      assert args == done + [last];
      ElabArgsPush(done, last, env, cx);
      ArgJoins("", done, last);
      ShortestArgs(done, env, lit, cx);
      var (xs, e) := ElabArgs(done, env, cx).value;
      Shortest(last, e, lit, cx);
      var x := Elab(last, e, cx).value.0;
      assert (xs + [x])[..|xs|] == xs;
      var d := Insert(x, lit);
      GroupCost(d, IsCommaNode(d));
      ArgJoins("", InsertArgs(xs, lit), Group(d, IsCommaNode(d)));
    }
  }

  lemma NoArgs<N>(lit: Spell<N>)
    ensures InsertArgs<N>([], lit) == [] && ToksArgs([]) == [] && ToksDone([]) == []
  {
  }

  /** No macro is defined: the word `$` is never called. */
  predicate NoMacroDefinition(toks: seq<string>) {
    forall i :: 0 <= i && i + 1 < |toks| && toks[i] == "$" ==> toks[i + 1] != "("
  }

  /** An accepted text without empty groups and macros is the text of a tree that has none. */
  lemma AcceptedTree<N>(s: string, vars: seq<string>, cx: Config<N>) returns (c: Cst)
    requires NoEmptyGroups(s) && Lex(s, DEFAULT).toks != [] && NoMacroDefinition(Lex(s, DEFAULT).toks)
    requires Compile(s, vars, cx).Accepted?
    ensures Proper(c) && MacroFree(c) && Toks(c) == Lex(s, DEFAULT).toks
    ensures var out := Compile(s, vars, cx); Elab(c, NoMacros(vars), cx) == Some((out.expr, out.env))
  {
    hide Compile, NoEmptyGroups, NoMacroDefinition, MacroFree, Proper, Plain;
    ExactIff(s, vars, cx);
    var toks := Lex(s, DEFAULT).toks;
    var out := Compile(s, vars, cx);
    assert Derives(toks, NoMacros(vars), cx, out.expr, out.env);
    c :| Proper(c) && Plain(c) && Toks(c) == toks && Elab(c, NoMacros(vars), cx) == Some((out.expr, out.env));
    NoDollar(c, [], []) by { assert [] + toks + [] == toks; }
  }

  /** Soundness on text: read in order, what an accepted text compiles to gives the operands and operators of the text,
      each once and in its place. */
  lemma AcceptedYield<N>(s: string, vars: seq<string>, cx: Config<N>)
    requires NoEmptyGroups(s) && Lex(s, DEFAULT).toks != [] && NoMacroDefinition(Lex(s, DEFAULT).toks)
    requires Compile(s, vars, cx).Accepted?
    ensures Yield(Compile(s, vars, cx).expr) == Items(Lex(s, DEFAULT).toks, cx)
  {
    hide Compile, NoEmptyGroups, NoMacroDefinition, MacroFree, Proper, Yield, Items;
    var c := AcceptedTree(s, vars, cx);
    YieldOf(c, NoMacros(vars), cx);
  }

  /** Minimality: no text without macros and empty groups and with fewer tokens compiles to the same expression, unless
      it has no tokens at all. */
  lemma PrintIsShortest<N>(s: string, e: Expr<N>, lit: Spell<N>, vars: seq<string>, cx: Config<N>)
    requires Printable(e, lit, cx) && NoEmptyGroups(s) && NoMacroDefinition(Lex(s, DEFAULT).toks)
    requires Compile(s, vars, cx).Accepted? && Compile(s, vars, cx).expr == e
    ensures |Lex(s, DEFAULT).toks| >= |Lex(Print(e, lit), DEFAULT).toks| <==> Lex(s, DEFAULT).toks != []
  {
    hide Compile, NoEmptyGroups, NoMacroDefinition, MacroFree, Proper, Toks;
    if Lex(s, DEFAULT).toks != [] {
      var c := AcceptedTree(s, vars, cx);
      Shortest(c, NoMacros(vars), lit, cx);
    }
    InsertElab(e, lit, NoMacros(vars), cx);
    SentenceModes(Insert(e, lit), DEFAULT);
    LexRender(Toks(Insert(e, lit)), DEFAULT);
    ToksNonEmpty(Insert(e, lit));
  }

  /** The text without tokens is the exception: it compiles to zero, whose print has one token. */
  lemma EmptyTextIsShorter<N>(lit: Spell<N>, cx: Config<N>)
    requires lit.of(cx.ar.zero) == "0" && cx.ar.shift(cx.ar.zero, 0) == cx.ar.zero
    ensures Printable(Const(cx.ar.zero), lit, cx)
    ensures var out := Compile("", [], cx); out.Accepted? && out.expr == Const(cx.ar.zero)
    ensures |Lex("", DEFAULT).toks| == 0 && |Lex(Print(Const(cx.ar.zero), lit), DEFAULT).toks| == 1
  {
    OneDigit('0', cx.ar);
    var toks := ["0"];
    assert toks[1..] == [] && Render(toks) == "0";
    LexRender(toks, DEFAULT);
  }

  /** A stretch of a stream without macro definitions has none either. */
  lemma {:induction false} NoDollar(c: Cst, pre: seq<string>, post: seq<string>)
    requires NoMacroDefinition(pre + Toks(c) + post)
    ensures MacroFree(c)
    decreases c, 1
  {
    hide Spelling;
    var all := pre + Toks(c) + post;
    match c
    case Lit(_) => case Id(_) => case Empty =>
    case Un(op, a) =>
      assert all == (pre + [Spelling(op)]) + Toks(a) + post;
      NoDollar(a, pre + [Spelling(op)], post);
    case Bin(op, l, r) =>
      assert all == pre + Toks(l) + ([Spelling(op)] + Toks(r) + post);
      NoDollar(l, pre, [Spelling(op)] + Toks(r) + post);
      assert all == (pre + Toks(l) + [Spelling(op)]) + Toks(r) + post;
      NoDollar(r, pre + Toks(l) + [Spelling(op)], post);
    case Paren(a) =>
      assert all == (pre + ["("]) + Toks(a) + ([")"] + post);
      NoDollar(a, pre + ["("], [")"] + post);
    case Apply(n, args) => NoDollarCall(n, args, pre, post);
  }

  lemma {:induction false} NoDollarCall(n: string, args: seq<Cst>, pre: seq<string>, post: seq<string>)
    requires NoMacroDefinition(pre + Toks(Apply(n, args)) + post)
    ensures MacroFree(Apply(n, args))
    decreases Apply(n, args), 0
  {
    var all := pre + Toks(Apply(n, args)) + post;
    assert all[|pre|] == n && all[|pre| + 1] == "(";
    if |args| > 0 {
      var done, last := args[..|args| - 1], args[|args| - 1];
      var d, l := ToksDone(done), Toks(last);
      assert ToksArgs(args) == d + l;
      CallParts(pre, [n, "("], d, l, [")"], post);
      NoDollarDone(done, pre + [n, "("], l + [")"] + post);
      NoDollar(last, pre + [n, "("] + d, [")"] + post);
    }
  }

  lemma CallParts<T>(pre: seq<T>, head: seq<T>, d: seq<T>, l: seq<T>, tail: seq<T>, post: seq<T>)
    ensures pre + (head + (d + l) + tail) + post == pre + head + d + (l + tail + post)
    ensures pre + (head + (d + l) + tail) + post == pre + head + d + l + (tail + post)
  {
  }

  lemma {:induction false} NoDollarDone(args: seq<Cst>, pre: seq<string>, post: seq<string>)
    requires NoMacroDefinition(pre + ToksDone(args) + post)
    ensures forall a <- args :: MacroFree(a)
    decreases args, 0
  {
    if |args| > 0 {
      var done, last := args[..|args| - 1], args[|args| - 1];
      var all := pre + ToksDone(args) + post;
      assert all == pre + ToksDone(done) + (Toks(last) + [","] + post);
      NoDollarDone(done, pre, Toks(last) + [","] + post);
      assert all == (pre + ToksDone(done)) + Toks(last) + ([","] + post);
      NoDollar(last, pre + ToksDone(done), [","] + post);
    }
  }

  // ---------------------------------------------------------------- empty groups save parentheses

  /** The tree of `a*f(b-c-())`. */
  const BORROWING := Bin(Multiply, Id("a"), Apply("f", [Bin(Minus, Bin(Minus, Id("b"), Id("c")), Empty)]))

  /** What it compiles to, `(a-(b-c))*f()`. */
  function Borrowed<N>(): Expr<N> {
    Binary(Multiply, Binary(Minus, Var("a"), Binary(Minus, Var("b"), Var("c"))), Func("f", []))
  }

  /** With an empty group minimality fails: the second minus takes the variable before the call, and the text is two
      tokens shorter than the print of what it compiles to. */
  lemma EmptyGroupIsShorter<N>(lit: Spell<N>, cx: Config<N>)
    requires "f" in cx.funcs
    ensures Printable(Borrowed<N>(), lit, cx)
    ensures var out := Compile("a*f(b-c-())", [], cx); out.Accepted? && out.expr == Borrowed()
    ensures |Lex("a*f(b-c-())", DEFAULT).toks| == 11 && |Lex(Print(Borrowed<N>(), lit), DEFAULT).toks| == 13
  {
    hide Compile, Effect, Render, Proper, Toks, Insert, Printable, Lex;
    BorrowingIsProper();
    BorrowingToks();
    BorrowingReads();
    BorrowingEffect(cx);
    CompileSentence(BORROWING, [], cx);
    SentenceModes(BORROWING, DEFAULT);
    LexRender(Toks(BORROWING), DEFAULT);
    BorrowedPrints(lit, cx);
    InsertElab(Borrowed(), lit, NoMacros([]), cx);
    SentenceModes(Insert(Borrowed<N>(), lit), DEFAULT);
    LexRender(Toks(Insert(Borrowed<N>(), lit)), DEFAULT);
  }

  lemma BorrowedPrints<N>(lit: Spell<N>, cx: Config<N>)
    requires "f" in cx.funcs
    ensures Printable(Borrowed<N>(), lit, cx) && |Toks(Insert(Borrowed<N>(), lit))| == 13
  {
    hide Toks, Insert;
    BorrowedInsert(lit);
    BorrowedIsPrintable(lit, cx);
    var bc := Bin(Minus, Id("b"), Id("c"));
    var abc := Bin(Minus, Id("a"), Paren(bc));
    CallCost("f");
    BinCost(Minus, Id("b"), Id("c"));
    GroupCost(bc, true);
    BinCost(Minus, Id("a"), Paren(bc));
    GroupCost(abc, true);
    BinCost(Multiply, Paren(abc), Apply("f", []));
    IdCost("a");
    IdCost("b");
    IdCost("c");
  }

  lemma BorrowedIsPrintable<N>(lit: Spell<N>, cx: Config<N>)
    requires "f" in cx.funcs
    ensures Printable(Borrowed<N>(), lit, cx)
  {
    var a, b, c: Expr<N> := Var("a"), Var("b"), Var("c");
    assert IsWord("a") && IsWord("b") && IsWord("c") && IsWord("f");
    assert Printable(a, lit, cx) && Printable(b, lit, cx) && Printable(c, lit, cx);
    assert Printable(Binary(Minus, b, c), lit, cx);
    assert Printable(Binary(Minus, a, Binary(Minus, b, c)), lit, cx);
    assert Printable(Func("f", []), lit, cx);
  }

  lemma BorrowedInsert<N>(lit: Spell<N>)
    ensures Insert(Borrowed<N>(), lit)
         == Bin(Multiply, Paren(Bin(Minus, Id("a"), Paren(Bin(Minus, Id("b"), Id("c"))))), Apply("f", []))
  {
    var a, b, c: Expr<N> := Var("a"), Var("b"), Var("c");
    assert Insert(Binary(Minus, b, c), lit) == Bin(Minus, Id("b"), Id("c"));
    assert Insert(Binary(Minus, a, Binary(Minus, b, c)), lit)
        == Bin(Minus, Id("a"), Paren(Bin(Minus, Id("b"), Id("c"))));
  }

  lemma CallCost(n: string)
    ensures |Toks(Apply(n, []))| == 3
  {
  }

  lemma IdCost(n: string)
    ensures |Toks(Id(n))| == 1
  {
  }

  lemma BorrowingIsProper()
    ensures Proper(BORROWING)
  {
    assert Proper(Bin(Minus, Id("b"), Id("c")));
  }

  lemma BorrowingToks()
    ensures Toks(BORROWING) == ["a", "*", "f", "("] + (["b", "-", "c", "-"] + ["(", ")", ")"])
  {
    hide Toks, ToksArgs, ToksDone;
    var bc := Bin(Minus, Id("b"), Id("c"));
    var arg := Bin(Minus, bc, Empty);
    SmallToks("a");
    SmallToks("b");
    SmallToks("c");
    ToksOfBin(Minus, Id("b"), Id("c"));
    ToksOfBin(Minus, bc, Empty);
    ToksOfOne("f", arg);
    ToksOfBin(Multiply, Id("a"), Apply("f", [arg]));
    BorrowingList();
  }

  lemma BorrowingList()
    ensures ["a"] + ["*"] + (["f", "("] + (["b"] + ["-"] + ["c"] + ["-"] + ["(", ")"] + [")"]))
         == ["a", "*", "f", "("] + (["b", "-", "c", "-"] + ["(", ")", ")"])
  {
  }

  lemma BorrowingReads()
    ensures Text(BORROWING) == "a*f(b-c-())"
  {
    hide Render, Toks;
    BorrowingToks();
    Rendered4("a", "*", "f", "(", ["b", "-", "c", "-"] + ["(", ")", ")"]);
    Rendered4("b", "-", "c", "-", ["(", ")", ")"]);
    Rendered("(", [")", ")"]);
    Rendered(")", [")"]);
    Rendered(")", []);
    NothingRendered();
    assert TokText("a") + TokText("*") + TokText("f") + TokText("(") == "a*f(";
    assert TokText("b") + TokText("-") + TokText("c") + TokText("-") == "b-c-";
    assert [")"] + [] == [")"] && [")"] + [")"] == [")", ")"] && ["("] + [")", ")"] == ["(", ")", ")"];
  }

  lemma BorrowingEffect<N>(cx: Config<N>)
    requires "f" in cx.funcs
    ensures var r := Effect(BORROWING, Pile([], NoMacros([])), cx); r.Ok? && r.value.es == [Borrowed()]
  {
    hide Effect, TakeTwo;
    var a: Expr<N> := Var("a");
    var env := NoMacros<N>([]);
    var env1 := Declare(env, "a");
    var env3 := Declare(Declare(env1, "b"), "c");
    var arg := Bin(Minus, Bin(Minus, Id("b"), Id("c")), Empty);
    BorrowedArgument(cx, env1, env3);
    var whole: Expr<N> := Binary(Minus, a, Binary(Minus, Var("b"), Var("c")));
    EmptyCall("f", arg, Pile([a], env1), Pile([whole], env3), cx);
    EffectOfBin(Multiply, Id("a"), Apply("f", [arg]), Pile([], env), cx);
    IdEffect("a", Pile([], env), cx);
    TakeTwoOnly(Multiply, whole, Func("f", []), env3);
    assert [] + [a] == [a];
  }

  lemma IdEffect<N>(n: string, p: Pile<N>, cx: Config<N>)
    ensures Effect(Id(n), p, cx) == Ok(Pile(p.es + [Var(n)], Declare(p.env, n)))
  {
  }

  lemma TakeTwoOf<N>(op: Op, es: seq<Expr<N>>, x: Expr<N>, y: Expr<N>, env: Env<N>)
    requires op != Assign
    ensures TakeTwo(op, Pile(es + [x, y], env)) == Ok(Pile(es + [Binary(op, x, y)], env))
  {
    var all := es + [x, y];
    assert all[..|all| - 2] == es;
  }

  lemma TakeTwoOnly<N>(op: Op, x: Expr<N>, y: Expr<N>, env: Env<N>)
    requires op != Assign
    ensures TakeTwo(op, Pile([x, y], env)) == Ok(Pile([Binary(op, x, y)], env))
  {
    hide TakeTwo;
    TakeTwoOf(op, [], x, y, env);
    assert [] + [x, y] == [x, y] && [] + [Binary(op, x, y)] == [Binary(op, x, y)];
  }

  /** A call whose argument leaves no operand of its own has none. */
  lemma EmptyCall<N>(n: string, arg: Cst, p: Pile<N>, q: Pile<N>, cx: Config<N>)
    requires n in cx.funcs && n != "$" && q.env.macros == [] && Effect(arg, p, cx) == Ok(q) && |q.es| == |p.es| == 1
    ensures Effect(Apply(n, [arg]), p, cx) == Ok(Pile([q.es[0], Func(n, [])], q.env))
  {
    hide Called, Effect;
    EffectOfOne(n, arg, p, cx);
    CalledWithNone(n, q, cx);
  }

  lemma EffectOfOne<N>(n: string, arg: Cst, p: Pile<N>, cx: Config<N>)
    requires Callable(n, p.env, cx) && Effect(arg, p, cx).Ok?
    ensures Effect(Apply(n, [arg]), p, cx) == Called(n, |p.es|, [], Effect(arg, p, cx).value, cx)
  {
    hide Called, Callable, TakeOne, TakeTwo;
    assert [arg][..0] == [];
    NoneDone(p, cx);
  }

  lemma NoneDone<N>(p: Pile<N>, cx: Config<N>)
    ensures EffectDone([], p, cx) == Ok((p, []))
  {
  }

  lemma CalledWithNone<N>(n: string, q: Pile<N>, cx: Config<N>)
    requires n in cx.funcs && n != "$" && q.env.macros == [] && |q.es| == 1
    ensures Called(n, 1, [], q, cx) == Ok(Pile([q.es[0], Func(n, [])], q.env))
  {
    var f: Expr<N> := Func(n, []);
    assert Call(n, [], q.env, cx) == Ok((f, q.env));
    assert q.es + [f] == [q.es[0], f];
  }

  lemma BorrowedArgument<N>(cx: Config<N>, env1: Env<N>, env3: Env<N>)
    requires env3 == Declare(Declare(env1, "b"), "c")
    ensures Effect(Bin(Minus, Bin(Minus, Id("b"), Id("c")), Empty), Pile([Var("a")], env1), cx)
         == Ok(Pile([Binary(Minus, Var("a"), Binary(Minus, Var("b"), Var("c")))], env3))
  {
    hide Effect;
    var p := Pile([Var("a")], env1);
    BorrowedDifference(cx, env1, env3);
    EffectOfBin(Minus, Bin(Minus, Id("b"), Id("c")), Empty, p, cx);
    EmptyEffect(Pile([Var("a"), Binary(Minus, Var("b"), Var("c"))], env3), cx);
    TakeTwoOnly<N>(Minus, Var("a"), Binary(Minus, Var("b"), Var("c")), env3);
  }

  lemma EmptyEffect<N>(p: Pile<N>, cx: Config<N>)
    ensures Effect(Empty, p, cx) == Ok(p)
  {
  }

  lemma BorrowedDifference<N>(cx: Config<N>, env1: Env<N>, env3: Env<N>)
    requires env3 == Declare(Declare(env1, "b"), "c")
    ensures Effect(Bin(Minus, Id("b"), Id("c")), Pile([Var("a")], env1), cx)
         == Ok(Pile([Var("a"), Binary(Minus, Var("b"), Var("c"))], env3))
  {
    hide Effect;
    var a, b, c: Expr<N> := Var("a"), Var("b"), Var("c");
    EffectOfBin(Minus, Id("b"), Id("c"), Pile([a], env1), cx);
    IdEffect("b", Pile([a], env1), cx);
    IdEffect("c", Pile([a] + [b], Declare(env1, "b")), cx);
    assert [a] + [b] + [c] == [a] + [b, c] && [a] + [Binary(Minus, b, c)] == [a, Binary(Minus, b, c)];
    TakeTwoOf(Minus, [a], b, c, env3);
  }
}
