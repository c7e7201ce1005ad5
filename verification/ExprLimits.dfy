/** Where the compiler and the precedence grammar part: at texts with an empty parenthesised group. Without one the
    compiler answers as the grammar says; with one it rejects, takes operands from elsewhere, or reads before the
    start of its operand stack. */
module ExprLimits {
  import opened Common
  import opened ExprOps
  import opened ExprLexer
  import opened ExprMachine
  import opened ExprGrammar
  import opened ExprEffect
  import opened ExprRefine
  import opened ExprTheorems

  /** No parenthesised group is empty; the empty argument list of a call is not a group. */
  predicate NoEmptyGroup(toks: seq<string>) {
    forall i :: 0 <= i && i + 1 < |toks| && toks[i] == "(" && toks[i + 1] == ")" ==> i > 0 && IsWord(toks[i - 1])
  }

  /** The text has no empty parenthesised group. */
  predicate NoEmptyGroups(s: string) {
    NoEmptyGroup(Lex(s, DEFAULT).toks)
  }

  /** The token stream `toks` is a sentence of the precedence grammar, and elaborating it gives `x` and `env'`. */
  ghost predicate Derives<N>(toks: seq<string>, env: Env<N>, cx: Config<N>, x: Expr<N>, env': Env<N>) {
    exists c :: Proper(c) && Plain(c) && Toks(c) == toks && Elab(c, env, cx) == Some((x, env'))
  }

  ghost predicate Derivable<N>(toks: seq<string>, env: Env<N>, cx: Config<N>) {
    exists c :: Proper(c) && Plain(c) && Toks(c) == toks && Elab(c, env, cx).Some?
  }

  /** What the precedence grammar says the outcome must be, given the scanned input. */
  ghost predicate IsExact<N>(out: Outcome<N>, lexed: Lexed, total: nat, env: Env<N>, cx: Config<N>) {
    && !out.Undefined?
    && (out.Accepted? ==>
          && lexed.complete && out.near == AtLeastOne(total)
          && (if lexed.toks == [] then out.expr == Const(cx.ar.zero) && out.env == env
              else Derives(lexed.toks, env, cx, out.expr, out.env)))
    && (lexed.complete && (lexed.toks == [] || Derivable(lexed.toks, env, cx)) ==> out.Accepted?)
  }

  // ---------------------------------------------------------------- plain sentences have no empty group

  /** A sentence neither starts with a closing nor ends with an opening parenthesis. */
  predicate Bounded(toks: seq<string>) {
    |toks| > 0 && toks[0] != ")" && toks[|toks| - 1] != "("
  }

  /** Two streams without empty groups, put together, make none unless the seam does. */
  lemma Join(a: seq<string>, b: seq<string>)
    requires NoEmptyGroup(a) && NoEmptyGroup(b) && (|a| > 0 && |b| > 0 ==> a[|a| - 1] != "(" || b[0] != ")")
    ensures NoEmptyGroup(a + b)
  {
    var t := a + b;
    forall i | 0 <= i && i + 1 < |t| && t[i] == "(" && t[i + 1] == ")" ensures i > 0 && IsWord(t[i - 1]) {
      if i + 1 < |a| {
        assert a[i] == "(" && a[i + 1] == ")";
      } else if i >= |a| {
        assert b[i - |a|] == "(" && b[i - |a| + 1] == ")";
      }
    }
  }

  lemma Single(t: string)
    ensures NoEmptyGroup([t])
  {
  }

  lemma SpellingIs(op: Op)
    ensures Bounded([Spelling(op)])
  {
    SpellingDoesNotOpen(op);
  }

  lemma WordIs(t: string)
    requires IsWord(t) || IsNumber(t)
    ensures t != "(" && t != ")"
  {
  }

  /** No sentence of the grammar has an empty group. */
  lemma {:induction false} SentenceHasNone(c: Cst)
    requires Proper(c) && Plain(c)
    ensures NoEmptyGroup(Toks(c)) && Bounded(Toks(c))
    decreases c, 1
  {
    hide NoEmptyGroup, Spelling, IsWord, IsNumber, Reduces;
    match c
    case Lit(t) => Single(t); WordIs(t);
    case Id(n) => Single(n); WordIs(n);
    case Un(op, a) =>
      SentenceHasNone(a);
      Single(Spelling(op));
      SpellingIs(op);
      Join([Spelling(op)], Toks(a));
    case Bin(op, l, r) =>
      SentenceHasNone(l);
      SentenceHasNone(r);
      Single(Spelling(op));
      SpellingIs(op);
      Join(Toks(l), [Spelling(op)]);
      Join(Toks(l) + [Spelling(op)], Toks(r));
    case Paren(a) =>
      SentenceHasNone(a);
      Single("(");
      Single(")");
      Join(["("], Toks(a));
      Join(["("] + Toks(a), [")"]);
    case Apply(n, args) => CallHasNone(n, args);
  }

  lemma {:induction false} CallHasNone(n: string, args: seq<Cst>)
    requires Proper(Apply(n, args)) && Plain(Apply(n, args))
    ensures NoEmptyGroup(Toks(Apply(n, args))) && Bounded(Toks(Apply(n, args)))
    decreases Apply(n, args), 0
  {
    hide NoEmptyGroup, IsNumber, IsWord, Reduces, ToksDone, Toks;
    ToksOfCall(n, args);
    OpenCall(n);
    if |args| == 0 {
      assert [n, "("] + ToksArgs(args) + [")"] == [n, "(", ")"];
    } else {
      var done, last := args[..|args| - 1], args[|args| - 1];
      DoneHasNone(done);
      SentenceHasNone(last);
      Single(")");
      Join(ToksDone(done), Toks(last));
      Join([n, "("], ToksArgs(args));
      Join([n, "("] + ToksArgs(args), [")"]);
    }
  }

  lemma OpenCall(n: string)
    requires IsWord(n)
    ensures NoEmptyGroup([n, "("]) && NoEmptyGroup([n, "(", ")"]) && n != ")"
  {
  }

  lemma {:induction false} DoneHasNone(args: seq<Cst>)
    requires forall a <- args :: Proper(a) && Plain(a)
    ensures NoEmptyGroup(ToksDone(args)) && (|args| > 0 ==> Bounded(ToksDone(args)))
    ensures |args| == 0 ==> ToksDone(args) == []
    decreases args, 0
  {
    hide NoEmptyGroup, Proper, Plain, Toks;
    if |args| > 0 {
      var done, last := args[..|args| - 1], args[|args| - 1];
      DoneHasNone(done);
      SentenceHasNone(last);
      Single(",");
      Join(Toks(last), [","]);
      Join(ToksDone(done), Toks(last) + [","]);
    } else {
      Nothing();
    }
  }

  lemma Nothing()
    ensures NoEmptyGroup([])
  {
  }

  // ---------------------------------------------------------------- and only they

  /** A parenthesis that opens here opens a group, not a call. */
  predicate NoWordBefore(pre: seq<string>) {
    |pre| > 0 ==> !IsWord(pre[|pre| - 1])
  }

  lemma NoWordAfter(pre: seq<string>, t: string)
    requires !IsWord(t)
    ensures NoWordBefore(pre + [t])
  {
  }

  lemma SpellingIsNoWord(op: Op)
    ensures !IsWord(Spelling(op)) && !IsWord("(") && !IsWord(",")
  {
  }

  /** An empty group of a tree shows in its tokens, in any surroundings in which the tree starts with an operand. */
  lemma {:induction false} EmptyGroupShows(c: Cst, pre: seq<string>, post: seq<string>)
    requires Proper(c) && !Plain(c) && NoWordBefore(pre)
    ensures !NoEmptyGroup(pre + Toks(c) + post)
    decreases c, 1
  {
    hide Spelling, IsWord, IsNumber, Reduces, NoEmptyGroup, NoWordBefore;
    match c
    case Empty => PairShows(pre, post);
    case Un(op, a) =>
      SpellingIsNoWord(op);
      NoWordAfter(pre, Spelling(op));
      EmptyGroupShows(a, pre + [Spelling(op)], post);
      Regroup(pre, [Spelling(op)], Toks(a), [], post);
    case Bin(op, l, r) =>
      SpellingIsNoWord(op);
      if Plain(l) {
        NoWordAfter(pre + Toks(l), Spelling(op));
        assert pre + Toks(l) + [Spelling(op)] == pre + (Toks(l) + [Spelling(op)]);
        EmptyGroupShows(r, pre + Toks(l) + [Spelling(op)], post);
        Regroup(pre, Toks(l) + [Spelling(op)], Toks(r), [], post);
      } else {
        EmptyGroupShows(l, pre, [Spelling(op)] + Toks(r) + post);
        Regroup(pre, [], Toks(l), [Spelling(op)] + Toks(r), post);
        assert Toks(l) + ([Spelling(op)] + Toks(r)) == Toks(l) + [Spelling(op)] + Toks(r);
      }
    case Paren(a) =>
      SpellingIsNoWord(Comma);
      NoWordAfter(pre, "(");
      EmptyGroupShows(a, pre + ["("], [")"] + post);
      Regroup(pre, ["("], Toks(a), [")"], post);
    case Apply(n, args) => EmptyGroupInCall(n, args, pre, post);
    case _ =>
  }

  lemma PairShows(pre: seq<string>, post: seq<string>)
    requires NoWordBefore(pre)
    ensures !NoEmptyGroup(pre + Toks(Empty) + post)
  {
    hide IsWord;
    var all := pre + Toks(Empty) + post;
    var i := |pre|;
    assert all[i] == "(" && all[i + 1] == ")";
    assert i > 0 ==> all[i - 1] == pre[i - 1];
  }

  lemma Regroup<T>(pre: seq<T>, a: seq<T>, b: seq<T>, c: seq<T>, post: seq<T>)
    ensures pre + a + b + (c + post) == pre + (a + b + c) + post
    ensures c == [] ==> pre + a + b + post == pre + (a + b) + post
    ensures a == [] ==> pre + b + (c + post) == pre + (b + c) + post
  {
  }

  lemma {:induction false} EmptyGroupInCall(n: string, args: seq<Cst>, pre: seq<string>, post: seq<string>)
    requires Proper(Apply(n, args)) && !Plain(Apply(n, args))
    ensures !NoEmptyGroup(pre + Toks(Apply(n, args)) + post)
    decreases Apply(n, args), 0
  {
    hide Toks, ToksDone, IsWord, NoEmptyGroup, NoWordBefore;
    ToksOfCall(n, args);
    SpellingIsNoWord(Comma);
    var done, last := args[..|args| - 1], args[|args| - 1];
    var open := pre + [n, "("];
    assert open == pre + [n] + ["("];
    NoWordAfter(pre + [n], "(");
    if Plain(last) {
      assert args == done + [last];
      EmptyGroupInDone(done, open, Toks(last) + [")"] + post);
      CallSplits(pre, [n, "("], ToksDone(done), Toks(last), [")"], post);
    } else {
      DoneEndsInComma(done, open);
      EmptyGroupShows(last, open + ToksDone(done), [")"] + post);
      CallSplits(pre, [n, "("], ToksDone(done), Toks(last), [")"], post);
    }
  }

  lemma CallSplits<T>(pre: seq<T>, open: seq<T>, done: seq<T>, last: seq<T>, close: seq<T>, post: seq<T>)
    ensures pre + open + done + (last + close + post) == pre + (open + (done + last) + close) + post
    ensures pre + open + done + last + (close + post) == pre + (open + (done + last) + close) + post
  {
  }

  lemma DoneEndsInComma(args: seq<Cst>, pre: seq<string>)
    requires NoWordBefore(pre)
    ensures NoWordBefore(pre + ToksDone(args))
  {
    hide Toks, IsWord;
    SpellingIsNoWord(Comma);
    if |args| == 0 {
      assert pre + ToksDone(args) == pre;
    } else {
      assert ToksDone(args)[|ToksDone(args)| - 1] == ",";
    }
  }

  lemma {:induction false} EmptyGroupInDone(args: seq<Cst>, pre: seq<string>, post: seq<string>)
    requires (forall a <- args :: Proper(a)) && (exists a <- args :: !Plain(a)) && NoWordBefore(pre)
    ensures !NoEmptyGroup(pre + ToksDone(args) + post)
    decreases args, 0
  {
    hide Toks, IsWord, NoEmptyGroup, NoWordBefore, Proper, Plain;
    var done, last := args[..|args| - 1], args[|args| - 1];
    if Plain(last) {
      assert args == done + [last];
      EmptyGroupInDone(done, pre, Toks(last) + [","] + post);
      Regroup(pre, ToksDone(done), [], Toks(last) + [","], post);
      assert pre + ToksDone(done) + [] == pre + ToksDone(done);
      assert ToksDone(done) + [] == ToksDone(done);
    } else {
      DoneEndsInComma(done, pre);
      EmptyGroupShows(last, pre + ToksDone(done), [","] + post);
      Regroup(pre, ToksDone(done), Toks(last), [","], post);
      assert ToksDone(done) + Toks(last) + [","] == ToksDone(done) + (Toks(last) + [","]);
    }
  }

  lemma OpenCallEnds(g: seq<Entry>)
    requires |g| > 0 && Last(g).CallE?
    ensures NoWordBefore(StackToks(g))
  {
    hide IsWord, Toks, NoWordBefore, ToksDone;
    var e := Last(g);
    OpenCallToks(StackToks(Front(g)), e.name, ToksDone(e.args));
    SpellingIsNoWord(Comma);
    NoWordAfter(StackToks(Front(g)) + [e.name], "(");
    DoneEndsInComma(e.args, StackToks(Front(g)) + [e.name] + ["("]);
  }

  lemma OpenCallToks(below: seq<string>, n: string, done: seq<string>)
    ensures below + ([n, "("] + done) == below + [n] + ["("] + done
  {
  }

  // ---------------------------------------------------------------- exactly the grammar

  /** Without an empty group no comma lacks an operand. */
  lemma PlainNeverPops<N>(toks: seq<string>, env: Env<N>, cx: Config<N>)
    requires NoEmptyGroup(toks)
    ensures !PopsNothing(toks, env, cx)
  {
    forall i: nat, g, c ensures !PopsAt(toks, i, g, c, env, cx) {
      if PopsAt(toks, i, g, c, env, cx) {
        PopsShow(toks, i, g, c, env, cx);
      }
    }
  }

  lemma PopsShow<N>(toks: seq<string>, i: nat, g: seq<Entry>, c: Cst, env: Env<N>, cx: Config<N>)
    requires PopsAt(toks, i, g, c, env, cx)
    ensures !NoEmptyGroup(toks)
  {
    hide NoEmptyGroup, StackToks, Toks, Proper, Plain, Effect, Elab, DenStack, NoOperand, StackOk;
    assert toks == StackToks(g) + Toks(c) + toks[i..];
    NoOperandReads(g, c, env, cx);
    NoOperandLeft(g, c, env, cx);
    if !Plain(c) {
      OpenCallEnds(g);
      EmptyGroupShows(c, StackToks(g), toks[i..]);
    } else {
      PlainEffect(c, PileOf(DenStack(g, env, cx).value), cx);
    }
  }

  lemma NoOperandReads<N>(g: seq<Entry>, c: Cst, env: Env<N>, cx: Config<N>)
    requires NoOperand(g, c, env, cx)
    ensures DenTop(g, c, env, cx).Ok?
  {
  }

  /** Without an empty group reading a sentence is elaborating it. */
  lemma PlainGives<N>(toks: seq<string>, env: Env<N>, cx: Config<N>)
    requires NoEmptyGroup(toks) && toks != []
    ensures Accepts(toks, env, cx) <==> Derivable(toks, env, cx)
    ensures forall x, env' :: Gives(toks, env, cx, x, env') ==> Derives(toks, env, cx, x, env')
  {
    hide NoEmptyGroup, Proper, Plain, Effect, Elab, Toks;
    forall c | Proper(c) && Toks(c) == toks
      ensures Plain(c) && AddsOne(Effect(c, Pile([], env), cx), Pile([], env), Elab(c, env, cx))
    {
      if !Plain(c) {
        assert [] + Toks(c) + [] == toks;
        EmptyGroupShows(c, [], []);
      }
      PlainEffect(c, Pile([], env), cx);
    }
  }

  /** Without an empty group exactly one operand remains. */
  lemma OneOperandRemains<N>(toks: seq<string>, env: Env<N>, cx: Config<N>)
    requires Moded(DEFAULT, toks) && NoEmptyGroup(toks) && toks != []
    ensures var r := Feed(Init(env), toks, cx); r.Ok? && Remaining(r.value).Ok? ==> |Remaining(r.value).value.0| == 1
  {
    hide Moded, NoEmptyGroup, Feed, Remaining, Proper, Plain, Effect, Elab, Toks, PopsNothing;
    MachineSound(toks, env, cx);
    var r := Feed(Init(env), toks, cx);
    if r.Ok? && Remaining(r.value).Ok? {
      var (es, env') := Remaining(r.value).value;
      var c :| Proper(c) && Toks(c) == toks && Effect(c, Pile([], env), cx) == Ok(Pile(es, env'));
      if !Plain(c) {
        assert [] + Toks(c) + [] == toks;
        EmptyGroupShows(c, [], []);
      }
      PlainEffect(c, Pile([], env), cx);
    }
  }

  lemma NotASentence<N>(toks: seq<string>, env: Env<N>, cx: Config<N>)
    requires !NoEmptyGroup(toks)
    ensures toks != [] && !Derivable(toks, env, cx)
    ensures forall x, env' :: !Derives(toks, env, cx, x, env')
  {
    Nothing();
    forall c | Proper(c) && Plain(c) ensures Toks(c) != toks { SentenceHasNone(c); }
  }

  /** The exact condition: the compiler answers as the precedence grammar says if and only if the text has no empty
      group, or has one and neither pops an operand that is not there nor reads as a sentence to the end. */
  lemma ExactIff<N>(s: string, vars: seq<string>, cx: Config<N>)
    ensures var lexed, env := Lex(s, DEFAULT), NoMacros<N>(vars);
      IsExact(Compile(s, vars, cx), lexed, |s|, env, cx)
      <==> NoEmptyGroups(s) || !(PopsNothing(lexed.toks, env, cx) || (lexed.complete && Accepts(lexed.toks, env, cx)))
  {
    hide Lex, Compile, NoEmptyGroup, PopsNothing, Accepts, Gives, Derives, Derivable;
    var toks, env := Lex(s, DEFAULT).toks, NoMacros<N>(vars);
    CompileExact(s, vars, cx);
    if NoEmptyGroup(toks) {
      PlainNeverPops(toks, env, cx);
      if toks != [] { PlainGives(toks, env, cx); } else { NothingGives(env, cx); }
    } else {
      NotASentence(toks, env, cx);
    }
  }

  lemma NothingGives<N>(env: Env<N>, cx: Config<N>)
    ensures Accepts([], env, cx)
    ensures forall x, env' :: Gives([], env, cx, x, env') ==> x == Const(cx.ar.zero) && env' == env
  {
  }

  // ---------------------------------------------------------------- what empty groups do

  lemma Rendered(t: string, rest: seq<string>)
    ensures Render([t] + rest) == TokText(t) + Render(rest)
  {
    assert ([t] + rest)[1..] == rest;
  }

  /** The text of four tokens, and of up to four more. */
  lemma Rendered4(a: string, b: string, c: string, d: string, rest: seq<string>)
    ensures Render([a, b, c, d] + rest) == TokText(a) + TokText(b) + TokText(c) + TokText(d) + Render(rest)
  {
    hide TokText, Render;
    assert [a, b, c, d] + rest == [a] + ([b] + ([c] + ([d] + rest)));
    Rendered(a, [b] + ([c] + ([d] + rest)));
    Rendered(b, [c] + ([d] + rest));
    Rendered(c, [d] + rest);
    Rendered(d, rest);
  }

  /** A lone empty group compiles to zero although it is no sentence of the precedence grammar. */
  lemma EmptyGroupCompiles<N>(cx: Config<N>)
    ensures Compile("()", [], cx) == Accepted(Const(cx.ar.zero), NoMacros([]), 2)
    ensures !NoEmptyGroup(["(", ")"]) && !Derivable(["(", ")"], NoMacros([]), cx)
  {
    hide Compile, Derivable;
    Rendered("(", [")"]);
    Rendered(")", []);
    assert Text(Empty) == "()";
    CompileSentence(Empty, [], cx);
    var toks := ["(", ")"];
    assert toks[0] == "(" && toks[1] == ")";
    NotASentence(toks, NoMacros([]), cx);
  }

  /** The undefined step is reached: the comma after an empty first argument pops an empty stack. */
  lemma CommaPopsNothing<N>(vars: seq<string>, cx: Config<N>)
    requires "f" in cx.funcs
    ensures Compile("f((),1)", vars, cx) == Undefined
  {
    hide Compile;
    var c := Apply("f", [Empty, Lit("1")]);
    FirstArgumentIsProper();
    FirstArgumentEmpty();
    assert EffectDone([Empty], Pile([], NoMacros(vars)), cx).Undef?;
    assert Effect(c, Pile([], NoMacros(vars)), cx).Undef?;
    CompileSentence(c, vars, cx);
  }

  lemma FirstArgumentIsProper()
    ensures Proper(Apply("f", [Empty, Lit("1")])) && [Empty, Lit("1")][..1] == [Empty]
  {
  }

  lemma FirstArgumentEmpty()
    ensures Text(Apply("f", [Empty, Lit("1")])) == "f((),1)"
  {
    hide Toks, Render;
    FirstArgumentToks();
    NothingRendered();
    assert TokText("f") + TokText("(") + TokText("(") + TokText(")") == "f(()";
    assert [")"] + [] == [")"] && ["1"] + [")"] == ["1", ")"] && [","] + ["1", ")"] == [",", "1", ")"];
    Rendered4("f", "(", "(", ")", [",", "1", ")"]);
    Rendered(",", ["1", ")"]);
    Rendered("1", [")"]);
    Rendered(")", []);
  }

  lemma FirstArgumentToks()
    ensures Toks(Apply("f", [Empty, Lit("1")])) == ["f", "(", "(", ")"] + [",", "1", ")"]
  {
    hide Toks, ToksArgs, ToksDone;
    assert [Empty] + [Lit("1")] == [Empty, Lit("1")] && [] + [Empty] == [Empty];
    ToksOfCall("f", [Empty, Lit("1")]);
    ArgJoins("f", [Empty], Lit("1"));
    ArgJoins("f", [], Empty);
    SmallToks("1");
    assert ToksDone([]) == [] by { NoneToks(); }
  }

  lemma NoneToks()
    ensures ToksDone([]) == []
  {
  }

  /** The tree of `2*f(1+())`. */
  const REACHING_OUT := Bin(Multiply, Lit("2"), Apply("f", [Bin(Plus, Lit("1"), Empty)]))

  /** Operands are moved: the operator inside the call takes the operand before it, and the call has no argument. */
  lemma OperandsMove<N>(cx: Config<N>)
    requires "f" in cx.funcs
    ensures var two, one := Const(cx.ar.shift(cx.ar.zero, 2)), Const(cx.ar.shift(cx.ar.zero, 1));
      Compile("2*f(1+())", [], cx)
      == Accepted(Binary(Multiply, Binary(Plus, two, one), Func("f", [])), NoMacros([]), 9)
  {
    hide Compile, Effect, Text, Proper;
    ReachingOutReads();
    ReachingOutIsProper();
    ReachingOutEffect(cx);
    CompileSentence(REACHING_OUT, [], cx);
  }

  lemma ReachingOutEffect<N>(cx: Config<N>)
    requires "f" in cx.funcs
    ensures var two, one := Const(cx.ar.shift(cx.ar.zero, 2)), Const(cx.ar.shift(cx.ar.zero, 1));
      Effect(REACHING_OUT, Pile([], NoMacros([])), cx)
      == Ok(Pile([Binary(Multiply, Binary(Plus, two, one), Func("f", []))], NoMacros([])))
  {
    hide ParseNumber;
    var two, one := Const(cx.ar.shift(cx.ar.zero, 2)), Const(cx.ar.shift(cx.ar.zero, 1));
    OneDigit('2', cx.ar);
    OneDigit('1', cx.ar);
    var sum, env := Bin(Plus, Lit("1"), Empty), NoMacros<N>([]);
    var p1, p2 := Pile([two], env), Pile([Binary(Plus, two, one)], env);
    EffectOfBin(Plus, Lit("1"), Empty, p1, cx);
    assert [two, one][..0] == [];
    assert [] + [Binary(Plus, two, one)] == [Binary(Plus, two, one)];
    assert TakeTwo(Plus, Pile([two, one], env)) == Ok(p2);
    assert EffectDone([], p1, cx) == Ok((p1, []));
    var f: Expr<N> := Func("f", []);
    assert Call("f", [], env, cx) == Ok((f, env));
    assert p2.es + [f] == [Binary(Plus, two, one), f];
    assert Called("f", 1, [], p2, cx) == Ok(Pile([Binary(Plus, two, one), Func("f", [])], env));
    EffectOfBin(Multiply, Lit("2"), Apply("f", [sum]), Pile([], env), cx);
    assert [sum][..0] == [];
    assert Effect(Lit("2"), Pile([], env), cx) == Ok(p1) by { assert [] + [two] == [two]; }
    assert Effect(Apply("f", [sum]), p1, cx) == Ok(Pile([Binary(Plus, two, one), f], env));
    var both := [Binary(Plus, two, one), f];
    assert both[..0] + [Binary(Multiply, both[0], both[1])] == [Binary(Multiply, both[0], both[1])];
  }

  lemma OneDigit<N>(d: char, ar: Arith<N>)
    requires IsDigit(d)
    ensures ParseNumber([d], ar) == Some(ar.shift(ar.zero, d as int - '0' as int))
  {
    assert [d][1..] == [];
    var num := ar.shift(ar.zero, d as int - '0' as int);
    assert ParseDigits([d], ar.zero, 0, 0, ar) == ParseDigits([], num, 0, 1, ar);
  }

  lemma ReachingOutIsProper()
    ensures Proper(REACHING_OUT)
  {
  }

  lemma ReachingOutToks()
    ensures Toks(REACHING_OUT) == ["2", "*", "f", "("] + (["1", "+", "(", ")"] + [")"])
  {
    hide Toks, ToksArgs, ToksDone;
    var sum := Bin(Plus, Lit("1"), Empty);
    ToksOfBin(Plus, Lit("1"), Empty);
    ToksOfBin(Multiply, Lit("2"), Apply("f", [sum]));
    SmallToks("2");
    SmallToks("1");
    ToksOfOne("f", sum);
    assert ["1"] + ["+"] + ["(", ")"] == ["1", "+", "(", ")"];
    Joined(["2"], ["*"], ["f", "("], ["1", "+", "(", ")"] + [")"]);
    assert ["2"] + ["*"] + ["f", "("] == ["2", "*", "f", "("];
  }

  lemma Joined<T>(a: seq<T>, b: seq<T>, c: seq<T>, d: seq<T>)
    ensures a + b + (c + d) == a + b + c + d
  {
  }

  lemma ToksOfBin(op: Op, l: Cst, r: Cst)
    ensures Toks(Bin(op, l, r)) == Toks(l) + [Spelling(op)] + Toks(r)
  {
  }

  lemma SmallToks(t: string)
    ensures Toks(Lit(t)) == [t] && Toks(Id(t)) == [t] && Toks(Empty) == ["(", ")"]
  {
  }

  lemma ToksOfOne(n: string, c: Cst)
    ensures Toks(Apply(n, [c])) == [n, "("] + (Toks(c) + [")"])
  {
    hide Toks;
    assert [c][..0] == [];
    assert ToksArgs([c]) == Toks(c);
    ToksOfCall(n, [c]);
  }

  lemma ReachingOutReads()
    ensures Text(REACHING_OUT) == "2*f(1+())"
  {
    hide Render, Toks;
    ReachingOutToks();
    Rendered4("2", "*", "f", "(", ["1", "+", "(", ")"] + [")"]);
    Rendered4("1", "+", "(", ")", [")"]);
    Rendered(")", []);
    NothingRendered();
    assert TokText("2") + TokText("*") + TokText("f") + TokText("(") == "2*f(";
    assert TokText("1") + TokText("+") + TokText("(") + TokText(")") == "1+()";
    assert [")"] + [] == [")"];
  }

  lemma NothingRendered()
    ensures Render([]) == ""
  {
  }
}
