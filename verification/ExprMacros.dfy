/** A macro from its definitions in a text to the tree its call expands to. */
module ExprMacros {
  import opened Common
  import opened ExprOps
  import opened ExprLexer
  import opened ExprMachine
  import opened ExprGrammar
  import opened ExprTheorems
  import opened ExprLimits
  import opened ExprLevels

  /** The tree of `$(m,b)`. */
  function Definition(m: string, b: string): Cst {
    Apply("$", [Id(m), Leaf(b)])
  }

  /** The tree of `$(m,b),$(m,d),m(a)`. */
  function Redefined(m: string, b: string, d: string, a: string): Cst {
    Bin(Comma, Definition(m, b), Bin(Comma, Definition(m, d), Apply(m, [Leaf(a)])))
  }

  /** A macro defined twice and called: each definition is worth zero, and the call assigns its argument to `$1` and
      then is the second body. The name of the macro is not part of its body. */
  lemma SecondBodyCounts<N>(m: string, b: string, d: string, a: string, vars: seq<string>, cx: Config<N>)
    requires IsWord(m) && m != "$" && IsOperand(b, cx) && IsOperand(d, cx) && IsOperand(a, cx)
    ensures var out := Compile("$(" + m + "," + b + "),$(" + m + "," + d + ")," + m + "(" + a + ")", vars, cx);
      var zero := Const(cx.ar.zero);
      && out.Accepted?
      && out.expr
         == Binary(Comma, zero,
                   Binary(Comma, zero,
                          Binary(Comma, Binary(Assign, Var("$1"), Meant(a, cx)), Meant(d, cx))))
  {
    hide IsWord, IsNumber, Compile, Elab, Proper, Plain, Text, IsOperand, Meant;
    RedefinedReads(m, b, d, a, cx);
    RedefinedIsProper(m, b, d, a, cx);
    RedefinedElab(m, b, d, a, NoMacros(vars), cx);
    CompileText(Redefined(m, b, d, a), vars, cx);
  }

  lemma RedefinedIsProper<N>(m: string, b: string, d: string, a: string, cx: Config<N>)
    requires IsWord(m) && IsOperand(b, cx) && IsOperand(d, cx) && IsOperand(a, cx)
    ensures var c := Redefined(m, b, d, a); Proper(c) && Plain(c)
  {
    hide IsNumber, Leaf, Elab, IsOperand, Toks, TokText, Meant, IsWord;
    var env := NoMacros<N>([]);
    LeafIs(b, env, cx);
    LeafIs(d, env, cx);
    LeafIs(a, env, cx);
    DollarIsWord();
    var c1, c2, c3 := Definition(m, b), Definition(m, d), Apply(m, [Leaf(a)]);
    assert Proper(Id(m)) && Plain(Id(m));
    assert Proper(c1) && Plain(c1);
    assert Proper(c2) && Plain(c2);
    assert Proper(c3) && Plain(c3);
  }

  lemma DollarIsWord()
    ensures IsWord("$")
  {
  }

  lemma DefinitionToks<N>(m: string, b: string, cx: Config<N>)
    requires IsOperand(b, cx)
    ensures Toks(Definition(m, b)) == ["$", "(", m, ","] + [b, ")"]
  {
    hide Toks, ToksArgs, ToksDone, IsOperand, Leaf, Elab, Proper, IsWord, IsNumber, TokText, Meant;
    LeafIs(b, NoMacros<N>([]), cx);
    ArgJoins("$", [Id(m)], Leaf(b));
    ArgJoins("$", [], Id(m));
    assert [Id(m)] + [Leaf(b)] == [Id(m), Leaf(b)] && [] + [Id(m)] == [Id(m)];
    ToksOfCall("$", [Id(m), Leaf(b)]);
    SmallToks(m);
    NoneToks();
    assert ["$", "("] + ([] + ([m] + [","]) + [b]) + [")"] == ["$", "(", m, ","] + [b, ")"];
  }

  lemma RedefinedToks<N>(m: string, b: string, d: string, a: string, cx: Config<N>)
    requires IsOperand(b, cx) && IsOperand(d, cx) && IsOperand(a, cx)
    ensures Toks(Redefined(m, b, d, a))
         == ["$", "(", m, ","] + ([b, ")", ",", "$"] + (["(", m, ",", d] + ([")", ",", m, "("] + [a, ")"])))
  {
    hide Toks, IsOperand, Leaf, Elab, Proper, IsWord, IsNumber, TokText, Definition, Meant;
    LeafIs(a, NoMacros<N>([]), cx);
    DefinitionToks(m, b, cx);
    DefinitionToks(m, d, cx);
    ToksOfOne(m, Leaf(a));
    ToksOfBin(Comma, Definition(m, d), Apply(m, [Leaf(a)]));
    ToksOfBin(Comma, Definition(m, b), Bin(Comma, Definition(m, d), Apply(m, [Leaf(a)])));
    Pieces("$", "(", m, ",", b, ")", d, a);
  }

  lemma Pieces<T>(s: T, o: T, m: T, c: T, b: T, e: T, d: T, a: T)
    ensures [s, o, m, c] + [b, e] + [c] + ([s, o, m, c] + [d, e] + [c] + ([m, o] + ([a] + [e])))
         == [s, o, m, c] + ([b, e, c, s] + ([o, m, c, d] + ([e, c, m, o] + [a, e])))
  {
  }

  lemma Letters(m: string)
    requires IsWord(m)
    ensures TokText(m) == m && TokText("$") == "$" && TokText("(") == "(" && TokText(")") == ")" && TokText(",") == ","
  {
  }

  lemma RedefinedReads<N>(m: string, b: string, d: string, a: string, cx: Config<N>)
    requires IsWord(m) && IsOperand(b, cx) && IsOperand(d, cx) && IsOperand(a, cx)
    ensures Text(Redefined(m, b, d, a)) == "$(" + m + "," + b + "),$(" + m + "," + d + ")," + m + "(" + a + ")"
  {
    hide Toks, Render, TokText, IsWord, IsNumber, IsOperand, Leaf, Elab, Proper, Redefined, Meant;
    var env := NoMacros<N>([]);
    LeafIs(b, env, cx);
    LeafIs(d, env, cx);
    LeafIs(a, env, cx);
    Letters(m);
    RedefinedToks(m, b, d, a, cx);
    Rendered4(")", ",", m, "(", [a, ")"]);
    Rendered4("(", m, ",", d, [")", ",", m, "("] + [a, ")"]);
    Rendered4(b, ")", ",", "$", ["(", m, ",", d] + ([")", ",", m, "("] + [a, ")"]));
    Rendered4("$", "(", m, ",", [b, ")", ",", "$"] + (["(", m, ",", d] + ([")", ",", m, "("] + [a, ")"])));
    Rendered(a, [")"]);
    Rendered(")", []);
    NothingRendered();
    assert [a] + [")"] == [a, ")"] && [")"] + [] == [")"];
    PiecesOfText(m, b, d, a);
  }

  lemma PiecesOfText(m: string, b: string, d: string, a: string)
    ensures "$" + "(" + m + "," + (b + ")" + "," + "$" + ("(" + m + "," + d + (")" + "," + m + "(" + (a + (")" + "")))))
         == "$(" + m + "," + b + "),$(" + m + "," + d + ")," + m + "(" + a + ")"
  {
    assert "$" + "(" == "$(" && ")" + "," + "$" + "(" == "),$(" && ")" + "," == "),";
    var l := "$(" + m + "," + b + "),$(" + m + "," + d;
    assert "$" + "(" + m + "," + (b + ")" + "," + "$" + ("(" + m + "," + d + (")" + "," + m + "(" + (a + (")" + "")))))
        == l + (")" + "," + m + "(" + (a + (")" + ""))) ;
  }

  // ---------------------------------------------------------------- elaboration

  lemma DefinitionElab<N>(m: string, b: string, env: Env<N>, cx: Config<N>)
    requires IsOperand(b, cx)
    ensures var r := Elab(Definition(m, b), env, cx);
      && r.Some? && r.value.0 == Const(cx.ar.zero)
      && r.value.1.macros == Elab(Leaf(b), Declare(env, m), cx).value.1.macros + [Macro(m, [Var(m), Meant(b, cx)])]
  {
    hide IsOperand, IsWord, IsNumber, Leaf, Proper, Toks, TokText, Meant;
    var e := Declare(env, m);
    LeafIs(b, e, cx);
    assert [Id(m), Leaf(b)][..1] == [Id(m)] && [Id(m)][..0] == [];
    assert ElabArgs([], env, cx) == Some(([], env));
    var v: Expr<N> := Var(m);
    assert [] + [v] == [v];
    assert ElabArgs([Id(m)], env, cx) == Some(([v], e));
    assert [v] + [Meant(b, cx)] == [v, Meant(b, cx)];
  }

  lemma LeafKeepsMacros<N>(b: string, env: Env<N>, cx: Config<N>)
    requires IsOperand(b, cx)
    ensures Elab(Leaf(b), env, cx).value.1.macros == env.macros
  {
  }

  lemma CallElab<N>(m: string, a: string, body: seq<Expr<N>>, env: Env<N>, cx: Config<N>)
    requires m != "$" && IsOperand(a, cx) && |env.macros| > 0 && Last(env.macros) == Macro(m, body) && |body| == 2
    ensures var r := Elab(Apply(m, [Leaf(a)]), env, cx);
      r.Some? && r.value.0 == Binary(Comma, Binary(Assign, Var("$1"), Meant(a, cx)), body[1])
  {
    hide IsOperand, IsWord, IsNumber, Leaf, Proper, Toks, TokText, Meant, Elab, DeclareParams;
    LeafIs(a, env, cx);
    LeafKeepsMacros(a, env, cx);
    OneArgument(m, a, env, cx);
    var x, e := Meant(a, cx), Elab(Leaf(a), env, cx).value.1;
    assert FindMacro(e.macros, m) == Some(body);
    OneParameter(x, body, cx.ar.zero);
    assert Callable(m, env, cx);
  }

  lemma OneArgument<N>(n: string, a: string, env: Env<N>, cx: Config<N>)
    requires IsOperand(a, cx) && Callable(n, env, cx) && Elab(Leaf(a), env, cx).Some?
    ensures var (x, e) := Elab(Leaf(a), env, cx).value; Elab(Apply(n, [Leaf(a)]), env, cx) == CallValue(n, [x], e, cx)
  {
    hide IsOperand, Leaf, Callable, CallValue;
    var x := Elab(Leaf(a), env, cx).value.0;
    assert [Leaf(a)][..0] == [] && [] + [x] == [x];
    assert ElabArgs([], env, cx) == Some(([], env));
    assert ElabArgs([Leaf(a)], env, cx) == Some(([x], Elab(Leaf(a), env, cx).value.1));
  }

  lemma OneParameter<N>(x: Expr<N>, body: seq<Expr<N>>, zero: N)
    requires |body| == 2
    ensures Expansion([x], 0, body, zero) == Binary(Comma, Binary(Assign, Var("$1"), x), body[1])
  {
    assert ParamName(1) == "$1";
    assert Expansion([x], 1, body, zero) == body[1];
  }

  lemma RedefinedElab<N>(m: string, b: string, d: string, a: string, env: Env<N>, cx: Config<N>)
    requires m != "$" && IsOperand(b, cx) && IsOperand(d, cx) && IsOperand(a, cx)
    ensures var r := Elab(Redefined(m, b, d, a), env, cx);
      var zero := Const(cx.ar.zero);
      && r.Some?
      && r.value.0
         == Binary(Comma, zero,
                   Binary(Comma, zero,
                          Binary(Comma, Binary(Assign, Var("$1"), Meant(a, cx)), Meant(d, cx))))
  {
    hide IsOperand, IsWord, IsNumber, Leaf, Proper, Toks, TokText, Meant, Elab, Definition;
    DefinitionElab(m, b, env, cx);
    var e1 := Elab(Definition(m, b), env, cx).value.1;
    DefinitionElab(m, d, e1, cx);
    var e2 := Elab(Definition(m, d), e1, cx).value.1;
    CallElab(m, a, [Var(m), Meant(d, cx)], e2, cx);
    BinaryOf(Comma, Definition(m, d), Apply(m, [Leaf(a)]), e1, cx);
    BinaryOf(Comma, Definition(m, b), Bin(Comma, Definition(m, d), Apply(m, [Leaf(a)])), env, cx);
  }
}
