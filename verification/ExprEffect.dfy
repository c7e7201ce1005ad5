/** What reading a syntax tree does to the compiler's operand stack, empty groups included.

    An empty group leaves no operand, so what follows takes the operands that were there before: an operator may
    bind across a call's opening parenthesis, and a comma may take an operand that belongs further out. `Effect`
    says so for every tree, from left to right. On plain trees it adds exactly one operand, the elaboration. */
module ExprEffect {
  import opened Common
  import opened ExprOps
  import opened ExprLexer
  import opened ExprMachine
  import opened ExprGrammar

  /** The operands read so far, and the variables and macros known. */
  datatype Pile<N> = Pile(es: seq<Expr<N>>, env: Env<N>)

  /** A unary operator takes the top operand. */
  function TakeOne<N>(op: Op, p: Pile<N>): (r: Res<Pile<N>>)
    ensures r.Ok? ==> r.value.env == p.env && |r.value.es| == |p.es|
    ensures !r.Undef?
  {
    if |p.es| == 0 then Err(ERR_UNKNOWN) else Ok(p.(es := Front(p.es) + [Unary(op, Last(p.es))]))
  }

  /** A binary operator takes the two operands on top; an assignment asks for a variable as the lower one. */
  function TakeTwo<N>(op: Op, p: Pile<N>): (r: Res<Pile<N>>)
    ensures r.Ok? ==> r.value.env == p.env && |r.value.es| == |p.es| - 1
    ensures !r.Undef?
  {
    var n := |p.es|;
    if n < 2 || (op == Assign && !p.es[n - 2].Var?) then Err(ERR_UNKNOWN)
    else Ok(p.(es := p.es[..n - 2] + [Binary(op, p.es[n - 2], p.es[n - 1])]))
  }

  /** A call ends: an operand above the `base` operands there were when it opened is its last argument. */
  function Called<N>(n: string, base: nat, done: seq<Expr<N>>, p: Pile<N>, cx: Config<N>): (r: Res<Pile<N>>)
    ensures r.Ok? ==> p.env.macros <= r.value.env.macros
    ensures r.Ok? ==> |r.value.es| == if |p.es| > base then |p.es| else |p.es| + 1
  {
    var (es, args) := if |p.es| > base then (Front(p.es), done + [Last(p.es)]) else (p.es, done);
    DeclareParamsKeepsMacros(p.env, 1, |args|);
    var (x, env) :- Call(n, args, p.env, cx);
    Ok(Pile(es + [x], env))
  }

  function Effect<N>(c: Cst, p: Pile<N>, cx: Config<N>): (r: Res<Pile<N>>)
    ensures r.Ok? ==> p.env.macros <= r.value.env.macros && |r.value.es| <= |p.es| + 1
    decreases c, 1
  {
    match c
    case Lit(t) =>
      var v := ParseNumber(t, cx.ar);
      if v.None? then Err(ERR_UNKNOWN) else Ok(p.(es := p.es + [Const(v.value)]))
    case Id(n) => Ok(Pile(p.es + [Var(n)], Declare(p.env, n)))
    case Un(op, a) =>
      var p1 :- Effect(a, p, cx);
      TakeOne(op, p1)
    case Bin(op, l, r) =>
      var p1 :- Effect(l, p, cx);
      var p2 :- Effect(r, p1, cx);
      TakeTwo(op, p2)
    case Paren(a) => Effect(a, p, cx)
    case Empty => Ok(p)
    case Apply(n, args) =>
      if !Callable(n, p.env, cx) then Err(ERR_INVALID_FUNC_NAME)
      else if |args| == 0 then Called(n, |p.es|, [], p, cx)
      else
        var (p1, done) :- EffectDone(args[..|args| - 1], p, cx);
        var p2 :- Effect(args[|args| - 1], p1, cx);
        Called(n, |p.es|, done, p2, cx)
  }

  /** Arguments each ended by a comma. The comma takes the top operand, whatever it belongs to; when there is
      none the source reads before the start of its operand stack. */
  function EffectDone<N>(args: seq<Cst>, p: Pile<N>, cx: Config<N>): (r: Res<(Pile<N>, seq<Expr<N>>)>)
    ensures r.Ok? ==> p.env.macros <= r.value.0.env.macros && |r.value.0.es| <= |p.es| && |r.value.1| == |args|
    decreases args, 0
  {
    if |args| == 0 then Ok((p, []))
    else
      var (p1, done) :- EffectDone(args[..|args| - 1], p, cx);
      var p2 :- Effect(args[|args| - 1], p1, cx);
      ArgumentEnded(done, p2)
  }

  function ArgumentEnded<N>(done: seq<Expr<N>>, p: Pile<N>): (r: Res<(Pile<N>, seq<Expr<N>>)>)
    ensures r.Undef? <==> p.es == []
    ensures r.Ok? <==> p.es != []
  {
    if |p.es| == 0 then Undef else Ok((p.(es := Front(p.es)), done + [Last(p.es)]))
  }

  // ---------------------------------------------------------------- counting operands

  /** The number of operands after a tree that is read without an error, with `h` before it: the shape of the tree
      decides it. */
  function Height(c: Cst, h: int): int
    decreases c, 1
  {
    match c
    case Lit(_) => h + 1
    case Id(_) => h + 1
    case Un(_, a) => Height(a, h)
    case Bin(_, l, r) => Height(r, Height(l, h)) - 1
    case Paren(a) => Height(a, h)
    case Empty => h
    case Apply(_, args) =>
      if |args| == 0 then h + 1
      else
        var top := Height(args[|args| - 1], HeightDone(args[..|args| - 1], h));
        if top > h then top else top + 1
  }

  function HeightDone(args: seq<Cst>, h: int): int
    decreases args, 0
  {
    if |args| == 0 then h else Height(args[|args| - 1], HeightDone(args[..|args| - 1], h)) - 1
  }

  lemma {:induction false} HeightCounts<N>(c: Cst, p: Pile<N>, cx: Config<N>)
    requires Effect(c, p, cx).Ok?
    ensures |Effect(c, p, cx).value.es| == Height(c, |p.es|)
    decreases c, 1
  {
    hide Call, Callable, ParseNumber, TakeOne, TakeTwo, Called;
    match c
    case Lit(_) => case Id(_) => case Empty =>
    case Un(_, a) => HeightCounts(a, p, cx);
    case Bin(_, l, r) =>
      HeightCounts(l, p, cx);
      HeightCounts(r, Effect(l, p, cx).value, cx);
    case Paren(a) => HeightCounts(a, p, cx);
    case Apply(_, args) =>
      if |args| > 0 {
        var done := args[..|args| - 1];
        HeightDoneCounts(done, p, cx);
        HeightCounts(args[|args| - 1], EffectDone(done, p, cx).value.0, cx);
      }
  }

  lemma {:induction false} HeightDoneCounts<N>(args: seq<Cst>, p: Pile<N>, cx: Config<N>)
    requires EffectDone(args, p, cx).Ok?
    ensures |EffectDone(args, p, cx).value.0.es| == HeightDone(args, |p.es|)
    decreases args, 0
  {
    hide Effect, Height;
    if |args| > 0 {
      var done := args[..|args| - 1];
      HeightDoneCounts(done, p, cx);
      HeightCounts(args[|args| - 1], EffectDone(done, p, cx).value.0, cx);
    }
  }

  // ---------------------------------------------------------------- plain trees

  ghost predicate AddsOne<N>(r: Res<Pile<N>>, p: Pile<N>, d: Option<(Expr<N>, Env<N>)>) {
    match d
    case None => r.Err?
    case Some((x, env)) => r == Ok(Pile(p.es + [x], env))
  }

  ghost predicate AddsNone<N>(r: Res<(Pile<N>, seq<Expr<N>>)>, p: Pile<N>, d: Option<(seq<Expr<N>>, Env<N>)>) {
    match d
    case None => r.Err?
    case Some((xs, env)) => r == Ok((p.(env := env), xs))
  }

  lemma TakeUnary<N>(op: Op, es: seq<Expr<N>>, x: Expr<N>, env: Env<N>)
    ensures TakeOne(op, Pile(es + [x], env)) == Ok(Pile(es + [Unary(op, x)], env))
  {
    assert Front(es + [x]) == es;
  }

  lemma TakeBinary<N>(op: Op, es: seq<Expr<N>>, x: Expr<N>, y: Expr<N>, env: Env<N>)
    ensures var r := TakeTwo(op, Pile(es + [x] + [y], env));
      if op == Assign && !x.Var? then r.Err? else r == Ok(Pile(es + [Binary(op, x, y)], env))
  {
    var all := es + [x] + [y];
    assert all[..|all| - 2] == es;
  }

  lemma CalledPlain<N>(n: string, es: seq<Expr<N>>, done: seq<Expr<N>>, extra: seq<Expr<N>>, env: Env<N>, cx: Config<N>)
    requires |extra| <= 1 && !Call(n, done + extra, env, cx).Undef?
    ensures AddsOne(Called(n, |es|, done, Pile(es + extra, env), cx), Pile(es, env), CallValue(n, done + extra, env, cx))
  {
    hide Call;
    if |extra| == 0 {
      assert es + extra == es && done + extra == done;
    } else {
      assert Front(es + extra) == es && [Last(es + extra)] == extra;
    }
  }

  /** On a plain tree the effect is to add its elaboration on top, or an error when it has none. */
  lemma {:induction false} PlainEffect<N>(c: Cst, p: Pile<N>, cx: Config<N>)
    requires Proper(c) && Plain(c)
    ensures AddsOne(Effect(c, p, cx), p, Elab(c, p.env, cx))
    decreases c, 1
  {
    hide Call, Callable, LeftOk, RightOk, IsWord, IsNumber, TakeOne, TakeTwo, Called;
    match c
    case Lit(_) => case Id(_) =>
    case Un(op, a) => PlainUnary(op, a, p, cx);
    case Bin(op, l, r) => PlainBinary(op, l, r, p, cx);
    case Paren(a) => PlainEffect(a, p, cx);
    case Apply(n, args) => PlainCall(n, args, p, cx);
  }

  lemma {:induction false} PlainUnary<N>(op: Op, a: Cst, p: Pile<N>, cx: Config<N>)
    requires Proper(Un(op, a)) && Plain(a)
    ensures AddsOne(Effect(Un(op, a), p, cx), p, Elab(Un(op, a), p.env, cx))
    decreases Un(op, a), 0
  {
    hide RightOk, TakeOne;
    PlainEffect(a, p, cx);
    var d := Elab(a, p.env, cx);
    if d.Some? { TakeUnary(op, p.es, d.value.0, d.value.1); }
  }

  lemma {:induction false} PlainBinary<N>(op: Op, l: Cst, r: Cst, p: Pile<N>, cx: Config<N>)
    requires Proper(Bin(op, l, r)) && Plain(l) && Plain(r)
    ensures AddsOne(Effect(Bin(op, l, r), p, cx), p, Elab(Bin(op, l, r), p.env, cx))
    decreases Bin(op, l, r), 0
  {
    hide LeftOk, RightOk, TakeTwo;
    PlainEffect(l, p, cx);
    var d := Elab(l, p.env, cx);
    if d.Some? {
      var (x, e) := d.value;
      PlainEffect(r, Pile(p.es + [x], e), cx);
      var d' := Elab(r, e, cx);
      if d'.Some? { TakeBinary(op, p.es, x, d'.value.0, d'.value.1); }
    }
  }

  lemma {:induction false} PlainCall<N>(n: string, args: seq<Cst>, p: Pile<N>, cx: Config<N>)
    requires Proper(Apply(n, args)) && Plain(Apply(n, args))
    ensures AddsOne(Effect(Apply(n, args), p, cx), p, Elab(Apply(n, args), p.env, cx))
    decreases Apply(n, args), 0
  {
    hide Callable, IsWord, Call, Called, CallValue;
    if Callable(n, p.env, cx) {
      var d := ElabArgs(args, p.env, cx);
      if d.Some? { CallableCalls(n, d.value.0, p.env, d.value.1, cx); }
      if |args| == 0 {
        assert p.es + [] == p.es && [] + [] == d.value.0;
        CalledPlain(n, p.es, [], [], p.env, cx);
      } else {
        var done, last := args[..|args| - 1], args[|args| - 1];
        PlainDone(done, p, cx);
        var d1 := ElabArgs(done, p.env, cx);
        if d1.Some? {
          var (xs, e) := d1.value;
          PlainEffect(last, Pile(p.es, e), cx);
          var d2 := Elab(last, e, cx);
          if d2.Some? { CalledPlain(n, p.es, xs, [d2.value.0], d2.value.1, cx); }
        }
      }
    }
  }

  lemma {:induction false} PlainDone<N>(args: seq<Cst>, p: Pile<N>, cx: Config<N>)
    requires forall a <- args :: Proper(a) && Plain(a)
    ensures AddsNone(EffectDone(args, p, cx), p, ElabArgs(args, p.env, cx))
    decreases args, 0
  {
    hide Proper, Plain, Effect, Elab;
    if |args| > 0 {
      var done, last := args[..|args| - 1], args[|args| - 1];
      PlainDone(done, p, cx);
      var d := ElabArgs(done, p.env, cx);
      if d.Some? {
        PlainEffect(last, Pile(p.es, d.value.1), cx);
        var d' := Elab(last, d.value.1, cx);
        if d'.Some? { assert Front(p.es + [d'.value.0]) == p.es; }
      }
    }
  }
}
