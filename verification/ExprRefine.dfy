/** The three-stack machine of the source refines the abstract machine on syntax trees, and with it the
    precedence grammar: every token stream ends as the effect of its syntax tree says. It is accepted with the
    operands that effect leaves, rejected, or brought to the one step the source leaves undefined. */
module ExprRefine {
  import opened Common
  import opened ExprOps
  import opened ExprLexer
  import opened ExprMachine
  import opened ExprGrammar
  import opened ExprEffect

  // ---------------------------------------------------------------- denotation

  function PileOf<N>(st: State<N>): Pile<N> {
    Pile(st.es, st.env)
  }

  /** The machine state that a stack of pending entries stands for, with no operand complete; a failure when some
      part of it has no effect: an error (an unknown function, a missing operand, an assignment to something that
      is not a variable, a malformed number or macro definition), or a comma with no operand to take. */
  function DenStack<N>(g: seq<Entry>, env: Env<N>, cx: Config<N>): Res<State<N>>
    decreases |g|
  {
    if |g| == 0 then Ok(Init(env))
    else
      var st :- DenStack(Front(g), env, cx);
      DenEntry(Last(g), st, cx)
  }

  function DenEntry<N>(e: Entry, st: State<N>, cx: Config<N>): Res<State<N>> {
    match e
    case UnE(op) => Ok(st.(os := st.os + [Spelling(op)]))
    case BinE(l, op) =>
      var st1 :- DenOperand(l, st, cx);
      Ok(st1.(os := st1.os + [Spelling(op)], paren := Allowed))
    case ParenE => Ok(st.(os := st.os + ["("]))
    case CallE(n, args) =>
      if !Callable(n, st.env, cx) then Err(ERR_INVALID_FUNC_NAME)
      else
        var (p, xs) :- EffectDone(args, PileOf(st), cx);
        Ok(State(p.es, st.os + [n] + ["{"], st.frames + [Frame(|st.os| + 2, |st.es|, xs)], p.env, "", Allowed))
  }

  /** The state with the operand `c` complete on top. */
  function DenOperand<N>(c: Cst, st: State<N>, cx: Config<N>): Res<State<N>> {
    var p :- Effect(c, PileOf(st), cx);
    Ok(st.(es := p.es, env := p.env, paren := Forbidden))
  }

  function DenTop<N>(g: seq<Entry>, c: Cst, env: Env<N>, cx: Config<N>): Res<State<N>> {
    var st :- DenStack(g, env, cx);
    DenOperand(c, st, cx)
  }

  /** The machine state of an abstract state. A word is held back until the next token tells a variable from a
      call. */
  function Den<N>(a: Abs, env: Env<N>, cx: Config<N>): Res<State<N>> {
    match a.cur
    case None => DenStack(a.stack, env, cx)
    case Some(c) =>
      if c.Id? then
        var st :- DenStack(a.stack, env, cx);
        Ok(st.(id := c.name))
      else DenTop(a.stack, c, env, cx)
  }

  /** Same value, or failures of the same kind. */
  ghost predicate Agrees<T>(d: Res<T>, r: Res<T>) {
    match d
    case Ok(_) => r == d
    case Err(_) => r.Err?
    case Undef => r.Undef?
  }

  lemma DenStackPush<N>(g: seq<Entry>, e: Entry, env: Env<N>, cx: Config<N>)
    ensures DenStack(g + [e], env, cx) ==
            (var d := DenStack(g, env, cx); if d.Ok? then DenEntry(e, d.value, cx) else d)
  {
    assert Front(g + [e]) == g;
  }

  /** Between tokens the machine holds no word back, admits a parenthesis, and its frames point into the operator
      stack. */
  lemma {:induction false} DenStackShape<N>(g: seq<Entry>, env: Env<N>, cx: Config<N>)
    requires DenStack(g, env, cx).Ok?
    ensures var st := DenStack(g, env, cx).value;
      && st.id == "" && st.paren == Allowed
      && (|st.frames| > 0 ==> Last(st.frames).oslen <= |st.os|)
      && (|g| == 0 <==> |st.os| == 0)
      && env.macros <= st.env.macros
    decreases |g|
  {
    if |g| > 0 { DenStackShape(Front(g), env, cx); }
  }

  /** What the top of the operator stack looks like. */
  lemma TopOfStack<N>(g: seq<Entry>, env: Env<N>, cx: Config<N>)
    requires DenStack(g, env, cx).Ok? && |g| > 0 && EntryOk(Last(g))
    ensures var os := DenStack(g, env, cx).value.os;
      && |os| > 0
      && (IsOpEntry(Last(g)) ==>
            && Last(os) == Spelling(Last(g).op) && !Opens(Last(os)) && Last(os) != "{" && Last(os) != "("
            && Lookup(Last(os), Any) == Last(g).op && Last(g).op != Unknown)
      && (Last(g).ParenE? ==> Last(os) == "(")
      && (Last(g).CallE? ==> Last(os) == "{" && |os| >= 2 && os[|os| - 2] == Last(g).name)
  {
    if IsOpEntry(Last(g)) {
      LookupSpelling(Last(g).op);
      SpellingDoesNotOpen(Last(g).op);
    }
  }

  /** The same below a complete operand. */
  lemma TopOfOperand<N>(g: seq<Entry>, c: Cst, env: Env<N>, cx: Config<N>)
    requires DenTop(g, c, env, cx).Ok? && |g| > 0 && IsOpEntry(Last(g)) && EntryOk(Last(g))
    ensures var os := DenTop(g, c, env, cx).value.os;
      && |os| > 0
      && Last(os) == Spelling(Last(g).op) && !Opens(Last(os)) && Last(os) != "{" && Last(os) != "("
      && Lookup(Last(os), Any) == Last(g).op && Last(g).op != Unknown
  {
    hide Lookup, Spelling, DenStack, Effect, Opens;
    TopOfStack(g, env, cx);
  }

  lemma SpellingDoesNotOpen(op: Op)
    ensures !Opens(Spelling(op)) && Spelling(op) != "{" && Spelling(op) != "(" && Spelling(op) != ")"
  {
  }

  // ---------------------------------------------------------------- binding one operator

  /** Binding the operator on top is combining the entry on top with the finished operand. */
  lemma BindIsCombine<N>(g: seq<Entry>, c: Cst, env: Env<N>, cx: Config<N>)
    requires |g| > 0 && IsOpEntry(Last(g)) && EntryOk(Last(g))
    ensures var d, d' := DenTop(g, c, env, cx), DenTop(Front(g), Combine(Last(g), c), env, cx);
      && (!d.Ok? ==> Agrees(d, d'))
      && (d.Ok? ==>
            && |d.value.os| > 0
            && match Bind(Spelling(Last(g).op), d.value.es)
               case None => d'.Err?
               case Some(es) => d' == Ok(d.value.(es := es, os := Front(d.value.os))))
  {
    hide Lookup, Spelling, Effect, Bind, Reduces, TakeOne, TakeTwo;
    var e, op := Last(g), Last(g).op;
    var d0 := DenStack(Front(g), env, cx);
    if d0.Ok? {
      var st := d0.value;
      assert Front(st.os + [Spelling(op)]) == st.os;
      if e.UnE? {
        EffectOfUn(op, c, PileOf(st), cx);
        var r := Effect(c, PileOf(st), cx);
        if r.Ok? { BindTakesOne(op, r.value); }
      } else {
        EffectOfBin(op, e.left, c, PileOf(st), cx);
        var l := Effect(e.left, PileOf(st), cx);
        if l.Ok? {
          var r := Effect(c, l.value, cx);
          if r.Ok? { BindTakesTwo(op, r.value); }
        }
      }
    }
  }

  lemma BindTakesOne<N>(op: Op, p: Pile<N>)
    requires IsUnary(op)
    ensures var r, b := TakeOne(op, p), Bind(Spelling(op), p.es);
      if b.None? then r.Err? else r == Ok(p.(es := b.value))
  {
    hide Lookup, Spelling;
    LookupSpelling(op);
  }

  lemma BindTakesTwo<N>(op: Op, p: Pile<N>)
    requires IsBinary(op)
    ensures var r, b := TakeTwo(op, p), Bind(Spelling(op), p.es);
      if b.None? then r.Err? else r == Ok(p.(es := b.value))
  {
    hide Lookup, Spelling;
    LookupSpelling(op);
  }

  lemma EffectOfUn<N>(op: Op, c: Cst, p: Pile<N>, cx: Config<N>)
    ensures var r := Effect(c, p, cx); Effect(Un(op, c), p, cx) == if r.Ok? then TakeOne(op, r.value) else r
  {
  }

  lemma EffectOfBin<N>(op: Op, left: Cst, right: Cst, p: Pile<N>, cx: Config<N>)
    ensures Effect(Bin(op, left, right), p, cx) ==
            (var l := Effect(left, p, cx);
             if !l.Ok? then l else
             var r := Effect(right, l.value, cx);
             if r.Ok? then TakeTwo(op, r.value) else r)
  {
  }

  // ---------------------------------------------------------------- the loops

  /** The state an operator token produces, given what its loop returns. */
  function AfterOperator<N>(st: State<N>, r: Res<(seq<Expr<N>>, seq<string>, seq<Frame<N>>)>): Res<State<N>> {
    match r
    case Ok((es, os, frames)) => Ok(st.(es := es, os := os, frames := frames, paren := Allowed))
    case Err(c) => Err(c)
    case Undef => Undef
  }

  lemma EffectDonePush<N>(args: seq<Cst>, c: Cst, p: Pile<N>, cx: Config<N>)
    ensures EffectDone(args + [c], p, cx) ==
            (var a := EffectDone(args, p, cx);
             if !a.Ok? then a.PropagateFailure() else
             var r := Effect(c, a.value.0, cx);
             if r.Ok? then ArgumentEnded(a.value.1, r.value) else r.PropagateFailure())
  {
    assert (args + [c])[..|args|] == args;
  }

  /** The state after a comma has ended an argument. */
  function ArgumentTaken<N>(st: State<N>): State<N>
    requires st.es != [] && |st.frames| > 0
  {
    var fr := Last(st.frames);
    st.(es := Front(st.es), paren := Allowed, frames := Front(st.frames) + [fr.(args := fr.args + [Last(st.es)])])
  }

  lemma ArgumentDen<N>(g: seq<Entry>, c: Cst, env: Env<N>, cx: Config<N>)
    requires |g| > 0 && Last(g).CallE?
    ensures var e := Last(g);
      var d, d' := DenTop(g, c, env, cx), DenStack(Front(g) + [CallE(e.name, e.args + [c])], env, cx);
      && (!d.Ok? ==> Agrees(d, d'))
      && (d.Ok? ==> |d.value.frames| > 0 && if d.value.es == [] then d'.Undef? else d' == Ok(ArgumentTaken(d.value)))
  {
    hide Effect, EffectDone, Callable, DenStack;
    var e := Last(g);
    var d0 := DenStack(Front(g), env, cx);
    assert g == Front(g) + [e];
    DenStackPush(Front(g), e, env, cx);
    DenStackPush(Front(g), CallE(e.name, e.args + [c]), env, cx);
    if d0.Ok? {
      EffectDonePush(e.args, c, PileOf(d0.value), cx);
      var d := DenTop(g, c, env, cx);
      if d.Ok? { TopFrame(d0.value.frames, Last(d.value.frames)); }
    }
  }

  lemma TopFrame<N>(frames: seq<Frame<N>>, fr: Frame<N>)
    ensures Front(frames + [fr]) == frames && Last(frames + [fr]) == fr
  {
  }

  lemma PushDen<N>(op: Op, g: seq<Entry>, c: Cst, env: Env<N>, cx: Config<N>)
    ensures var d, d' := DenTop(g, c, env, cx), DenStack(g + [BinE(c, op)], env, cx);
      if !d.Ok? then Agrees(d, d') else d' == Ok(d.value.(os := d.value.os + [Spelling(op)], paren := Allowed))
  {
    hide Spelling, Effect;
    DenStackPush(g, BinE(c, op), env, cx);
  }

  /** Pushing a binary operator, or ending an argument at a comma. */
  lemma PushOpDen<N>(op: Op, g: seq<Entry>, c: Cst, env: Env<N>, cx: Config<N>)
    requires IsBinary(op)
    ensures var d, d' := DenTop(g, c, env, cx), DenStack(PushOp(op, g, c).stack, env, cx);
      && (!d.Ok? ==> Agrees(d, d'))
      && (d.Ok? ==>
            if op == Comma && |g| > 0 && Last(g).CallE? then
              |d.value.frames| > 0 && if d.value.es == [] then d'.Undef? else d' == Ok(ArgumentTaken(d.value))
            else d' == Ok(d.value.(os := d.value.os + [Spelling(op)], paren := Allowed)))
  {
    hide DenTop, DenStack, Spelling, ArgumentTaken;
    if op == Comma && |g| > 0 && Last(g).CallE? { ArgumentDen(g, c, env, cx); } else { PushDen(op, g, c, env, cx); }
  }

  /** A failure stays whatever is reduced above it. */
  lemma {:induction false} FailureStaysBy<N>(op: Op, g: seq<Entry>, c: Cst, env: Env<N>, cx: Config<N>)
    requires StackOk(g) && !DenTop(g, c, env, cx).Ok?
    ensures var (g', c') := ReduceBy(op, g, c); Agrees(DenTop(g, c, env, cx), DenTop(g', c', env, cx))
    decreases |g|
  {
    if |g| > 0 && IsOpEntry(Last(g)) && Reduces(op, Last(g).op) {
      BindIsCombine(g, c, env, cx);
      FailureStaysBy(op, Front(g), Combine(Last(g), c), env, cx);
    }
  }

  lemma {:induction false} FailureStaysAll<N>(g: seq<Entry>, c: Cst, env: Env<N>, cx: Config<N>)
    requires StackOk(g) && !DenTop(g, c, env, cx).Ok?
    ensures var (g', c') := ReduceAll(g, c); Agrees(DenTop(g, c, env, cx), DenTop(g', c', env, cx))
    decreases |g|
  {
    if |g| > 0 && IsOpEntry(Last(g)) {
      BindIsCombine(g, c, env, cx);
      FailureStaysAll(Front(g), Combine(Last(g), c), env, cx);
    }
  }

  lemma OperatorPushes<N>(op: Op, st: State<N>)
    requires IsBinary(op)
    requires op == Comma && |st.os| > 0 ==> Last(st.os) != "{"
    requires |st.os| > 0 ==> Lookup(Last(st.os), Any) == Unknown || !Reduces(op, Lookup(Last(st.os), Any))
    ensures Operator(Spelling(op), op, st.es, st.os, st.frames) == Ok((st.es, st.os + [Spelling(op)], st.frames))
  {
    hide Lookup, Spelling, Reduces;
    BinarySpelling(op);
    CommaSpelling(op);
  }

  lemma CommaSpelling(op: Op)
    requires IsBinary(op)
    ensures Lookup("", Any) == Unknown && (Spelling(op) == "," ==> op == Comma)
  {
    hide Lookup, Spelling, Reduces;
    NothingSpelled();
    if Spelling(op) == "," { OnlyComma(op); }
  }

  lemma NothingSpelled()
    ensures Lookup("", Any) == Unknown
  {
  }

  lemma OnlyComma(op: Op)
    requires IsBinary(op) && Spelling(op) == ","
    ensures op == Comma
  {
    hide Lookup, Reduces;
  }

  lemma OperatorBinds<N>(op: Op, st: State<N>)
    requires |st.os| > 0 && Last(st.os) != "{"
    requires Lookup(Last(st.os), Any) != Unknown && Reduces(op, Lookup(Last(st.os), Any))
    ensures var r, b := Operator(Spelling(op), op, st.es, st.os, st.frames), Bind(Last(st.os), st.es);
      if b.None? then r == Err(ERR_UNKNOWN) else r == Operator(Spelling(op), op, b.value, Front(st.os), st.frames)
  {
    hide Lookup, Spelling, Reduces, Bind;
  }

  lemma {:induction false} OperatorRefines<N>(op: Op, g: seq<Entry>, c: Cst, env: Env<N>, cx: Config<N>)
    requires IsBinary(op) && StackOk(g) && DenTop(g, c, env, cx).Ok?
    ensures var st := DenTop(g, c, env, cx).value;
      var (g', c') := ReduceBy(op, g, c);
      Agrees(DenStack(PushOp(op, g', c').stack, env, cx),
             AfterOperator(st, Operator(Spelling(op), op, st.es, st.os, st.frames)))
    decreases |g|
  {
    if |g| > 0 && IsOpEntry(Last(g)) && Reduces(op, Last(g).op) {
      OperatorReduces(op, g, c, env, cx);
    } else {
      OperatorStops(op, g, c, env, cx);
    }
  }

  lemma OperatorStops<N>(op: Op, g: seq<Entry>, c: Cst, env: Env<N>, cx: Config<N>)
    requires IsBinary(op) && StackOk(g) && DenTop(g, c, env, cx).Ok?
    requires |g| > 0 && IsOpEntry(Last(g)) ==> !Reduces(op, Last(g).op)
    ensures var st := DenTop(g, c, env, cx).value;
      Agrees(DenStack(PushOp(op, g, c).stack, env, cx),
             AfterOperator(st, Operator(Spelling(op), op, st.es, st.os, st.frames)))
  {
    DenTopShape(g, c, env, cx);
    if |g| > 0 { TopOfStack(g, env, cx); }
    var st := DenTop(g, c, env, cx).value;
    PushOpDen(op, g, c, env, cx);
    if op == Comma && |g| > 0 && Last(g).CallE? {
      OperatorEndsArg(st);
    } else {
      BracketsAreNoOperators();
      OperatorPushes(op, st);
    }
  }

  lemma BracketsAreNoOperators()
    ensures Lookup("(", Any) == Unknown && Lookup("{", Any) == Unknown
  {
  }

  lemma DenTopShape<N>(g: seq<Entry>, c: Cst, env: Env<N>, cx: Config<N>)
    requires DenTop(g, c, env, cx).Ok?
    ensures DenStack(g, env, cx).Ok?
    ensures var st, st0 := DenTop(g, c, env, cx).value, DenStack(g, env, cx).value;
      && st.os == st0.os && st.frames == st0.frames
      && st.paren == Forbidden && st.id == ""
      && (|g| == 0 <==> |st.os| == 0)
  {
    DenStackShape(g, env, cx);
  }

  lemma OperatorEndsArg<N>(st: State<N>)
    requires |st.os| > 0 && Last(st.os) == "{" && |st.frames| > 0
    ensures var r := Operator(Spelling(Comma), Comma, st.es, st.os, st.frames);
      if st.es == [] then r.Undef?
      else r == Ok((Front(st.es), st.os,
                    Front(st.frames) + [Last(st.frames).(args := Last(st.frames).args + [Last(st.es)])]))
  {
  }

  lemma {:induction false} OperatorReduces<N>(op: Op, g: seq<Entry>, c: Cst, env: Env<N>, cx: Config<N>)
    requires IsBinary(op) && StackOk(g) && DenTop(g, c, env, cx).Ok?
    requires |g| > 0 && IsOpEntry(Last(g)) && Reduces(op, Last(g).op)
    ensures var st := DenTop(g, c, env, cx).value;
      var (g', c') := ReduceBy(op, g, c);
      Agrees(DenStack(PushOp(op, g', c').stack, env, cx),
             AfterOperator(st, Operator(Spelling(op), op, st.es, st.os, st.frames)))
    decreases |g|, 0
  {
    hide Lookup, Spelling, Reduces, DenTop, DenStack, Effect, PushOp, Bind, Operator, Proper, LeftOk, SitsOnTop;
    var st := DenTop(g, c, env, cx).value;
    TopOfOperand(g, c, env, cx);
    BindIsCombine(g, c, env, cx);
    OperatorBinds(op, st);
    var r := Bind(Spelling(Last(g).op), st.es);
    var (g', c') := ReduceBy(op, g, c);
    if r.None? {
      FailureStaysBy(op, Front(g), Combine(Last(g), c), env, cx);
      PushOpDen(op, g', c', env, cx);
    } else {
      OperatorRefines(op, Front(g), Combine(Last(g), c), env, cx);
    }
  }

  /** Where the closing loop stops at the latest. */
  function Bottom<N>(st: State<N>): nat {
    if |st.frames| > 0 then Last(st.frames).oslen else 0
  }

  /** A pending operator lies above the bracket of the innermost open call. */
  lemma AboveBottom<N>(g: seq<Entry>, c: Cst, env: Env<N>, cx: Config<N>)
    requires DenTop(g, c, env, cx).Ok? && |g| > 0 && IsOpEntry(Last(g))
    ensures var st := DenTop(g, c, env, cx).value; |st.os| > Bottom(st)
  {
    hide Effect, Spelling;
    DenStackShape(Front(g), env, cx);
  }

  lemma NothingPending<N>(g: seq<Entry>, c: Cst, env: Env<N>, cx: Config<N>)
    requires DenTop(g, c, env, cx).Ok? && (|g| > 0 ==> EntryOk(Last(g)) && !IsOpEntry(Last(g)))
    ensures var st := DenTop(g, c, env, cx).value; |st.os| == 0 || Opens(Last(st.os))
  {
    hide DenTop, DenStack, Lookup;
    DenTopShape(g, c, env, cx);
    if |g| > 0 { TopOfStack(g, env, cx); }
  }

  lemma {:induction false} UnwindRefines<N>(g: seq<Entry>, c: Cst, minlen: nat, env: Env<N>, cx: Config<N>)
    requires StackOk(g) && DenTop(g, c, env, cx).Ok? && minlen == Bottom(DenTop(g, c, env, cx).value)
    ensures var st := DenTop(g, c, env, cx).value;
      var (g', c') := ReduceAll(g, c);
      match Unwind(st.es, st.os, minlen)
      case None => DenTop(g', c', env, cx).Err?
      case Some((es, os)) => DenTop(g', c', env, cx) == Ok(st.(es := es, os := os))
    decreases |g|
  {
    hide Lookup, Spelling, Bind, Effect, Reduces, Proper, DenTop, DenStack, Opens;
    var st := DenTop(g, c, env, cx).value;
    if |g| > 0 && IsOpEntry(Last(g)) {
      TopOfOperand(g, c, env, cx);
      AboveBottom(g, c, env, cx);
      BindIsCombine(g, c, env, cx);
      var r := Bind(Spelling(Last(g).op), st.es);
      if r.None? {
        FailureStaysAll(Front(g), Combine(Last(g), c), env, cx);
      } else {
        UnwindRefines(Front(g), Combine(Last(g), c), minlen, env, cx);
      }
    } else {
      NothingPending(g, c, env, cx);
    }
  }

  lemma DrainBinds<N>(es: seq<Expr<N>>, os: seq<string>)
    requires |os| > 0 && Last(os) != "(" && Last(os) != ")"
    ensures var b := Bind(Last(os), es);
      if b.None? then Drain(es, os).Err? else Drain(es, os) == Drain(b.value, Front(os))
  {
    hide Bind, Lookup;
  }

  lemma {:induction false} DrainRefines<N>(g: seq<Entry>, c: Cst, env: Env<N>, cx: Config<N>)
    requires StackOk(g) && DenTop(g, c, env, cx).Ok?
    ensures var st := DenTop(g, c, env, cx).value;
      var (g', c') := ReduceAll(g, c);
      var d, r := DenTop(g', c', env, cx), Drain(st.es, st.os);
      !d.Undef? && if |g'| == 0 && d.Ok? then r == Ok(d.value.es) else r.Err?
    decreases |g|
  {
    if |g| > 0 && IsOpEntry(Last(g)) {
      DrainReduces(g, c, env, cx);
    } else {
      DrainStops(g, c, env, cx);
    }
  }

  lemma DrainStops<N>(g: seq<Entry>, c: Cst, env: Env<N>, cx: Config<N>)
    requires StackOk(g) && DenTop(g, c, env, cx).Ok? && (|g| > 0 ==> !IsOpEntry(Last(g)))
    ensures var st := DenTop(g, c, env, cx).value;
      if |g| == 0 then Drain(st.es, st.os) == Ok(st.es) else Drain(st.es, st.os).Err?
  {
    hide DenTop, DenStack, Lookup, Proper, Reduces;
    var st := DenTop(g, c, env, cx).value;
    DenTopShape(g, c, env, cx);
    if |g| > 0 {
      TopOfStack(g, env, cx);
      BracketsAreNoOperators();
      if Last(g).CallE? { DrainBinds(st.es, st.os); }
    }
  }

  lemma {:induction false} DrainReduces<N>(g: seq<Entry>, c: Cst, env: Env<N>, cx: Config<N>)
    requires StackOk(g) && DenTop(g, c, env, cx).Ok? && |g| > 0 && IsOpEntry(Last(g))
    ensures var st := DenTop(g, c, env, cx).value;
      var (g', c') := ReduceAll(g, c);
      var d, r := DenTop(g', c', env, cx), Drain(st.es, st.os);
      !d.Undef? && if |g'| == 0 && d.Ok? then r == Ok(d.value.es) else r.Err?
    decreases |g|, 0
  {
    var st := DenTop(g, c, env, cx).value;
    TopOfStack(g, env, cx);
    SpellingDoesNotOpen(Last(g).op);
    BindIsCombine(g, c, env, cx);
    DrainBinds(st.es, st.os);
    var r := Bind(Spelling(Last(g).op), st.es);
    if r.None? {
      FailureStaysAll(Front(g), Combine(Last(g), c), env, cx);
    } else {
      DrainRefines(Front(g), Combine(Last(g), c), env, cx);
    }
  }

  // ---------------------------------------------------------------- one token

  lemma ResolveOperand<N>(a: Abs, tok: string, env: Env<N>, cx: Config<N>)
    requires AbsOk(a) && a.cur.Some? && tok != "(" && Den(a, env, cx).Ok?
    ensures DenTop(a.stack, a.cur.value, env, cx).Ok?
    ensures Resolve(Den(a, env, cx).value, tok, cx) == Ok(DenTop(a.stack, a.cur.value, env, cx).value)
  {
    DenStackShape(a.stack, env, cx);
  }

  lemma OperatorStep<N>(a: Abs, tok: string, env: Env<N>, cx: Config<N>)
    requires AbsOk(a) && a.cur.Some? && IsBinaryTok(tok) && Den(a, env, cx).Ok?
    requires AbsStep(a, tok).Some?
    ensures Agrees(Den(AbsStep(a, tok).value, env, cx), Step(Den(a, env, cx).value, tok, cx))
  {
    hide DenTop, DenStack, Den, StackOk, Proper, Reduces, Operator, Resolve, ParseNumber;
    hide ReduceBy, PushOp, IsNumber, IsWord;
    BinaryTokSteps(tok);
    var op := Lookup(tok, BinaryOnly);
    ResolveOperand(a, tok, env, cx);
    OperatorRefines(op, a.stack, a.cur.value, env, cx);
    NonDigitIsNoNumber(tok, cx.ar);
    var st := DenTop(a.stack, a.cur.value, env, cx).value;
    DenTopParen(a.stack, a.cur.value, env, cx);
    ActOperator(st, tok, op, cx);
    PushedDen(op, a, env, cx);
  }

  lemma BinaryTokSteps(tok: string)
    requires IsBinaryTok(tok)
    ensures var op := Lookup(tok, BinaryOnly);
      IsBinary(op) && tok == Spelling(op) && Lookup(tok, Any) == op && tok != "(" && tok != ")"
    ensures |tok| > 0 && !IsDigitOrDot(tok[0])
  {
    BinaryLookupIsSpelling(tok);
    BinarySpelling(Lookup(tok, BinaryOnly));
  }

  lemma ActOperator<N>(st: State<N>, tok: string, op: Op, cx: Config<N>)
    requires Lookup(tok, Any) == op && op != Unknown && tok != "(" && tok != ")" && ParseNumber(tok, cx.ar).None?
    requires !st.paren.Expected?
    ensures Act(st, tok, cx) == AfterOperator(st, Operator(tok, op, st.es, st.os, st.frames))
  {
    hide Lookup, ParseNumber, Operator;
  }

  lemma PushedDen<N>(op: Op, a: Abs, env: Env<N>, cx: Config<N>)
    requires a.cur.Some?
    ensures var (g, c) := ReduceBy(op, a.stack, a.cur.value);
      Den(PushOp(op, g, c), env, cx) == DenStack(PushOp(op, g, c).stack, env, cx)
  {
    hide ReduceBy, DenStack;
  }

  lemma DenTopParen<N>(g: seq<Entry>, c: Cst, env: Env<N>, cx: Config<N>)
    requires DenTop(g, c, env, cx).Ok?
    ensures var st := DenTop(g, c, env, cx).value; st.paren == Forbidden && st.id == ""
  {
    DenStackShape(g, env, cx);
  }

  lemma CallOpens<N>(a: Abs, env: Env<N>, cx: Config<N>)
    requires AbsOk(a) && a.cur.Some? && a.cur.value.Id? && Den(a, env, cx).Ok?
    ensures AbsStep(a, "(").Some?
    ensures Agrees(Den(AbsStep(a, "(").value, env, cx), Step(Den(a, env, cx).value, "(", cx))
  {
    DenStackShape(a.stack, env, cx);
    DenStackPush(a.stack, CallE(a.cur.value.name, []), env, cx);
  }

  lemma NoOperator(tok: string)
    requires IsNumber(tok) || IsWord(tok) || tok == "("
    ensures Lookup(tok, Any) == Unknown
  {
  }

  lemma OperandStep<N>(a: Abs, tok: string, env: Env<N>, cx: Config<N>)
    requires AbsOk(a) && a.cur.None? && IsLexeme(tok) && Den(a, env, cx).Ok?
    requires AbsStep(a, tok).Some? && tok != ")"
    ensures Agrees(Den(AbsStep(a, tok).value, env, cx), Step(Den(a, env, cx).value, tok, cx))
  {
    hide Lookup, Spelling, Operator, StackOk, Reduces;
    DenStackShape(a.stack, env, cx);
    if IsNumber(tok) {
      NoOperator(tok);
    } else if IsWord(tok) {
      NoOperator(tok);
      NonDigitIsNoNumber(tok, cx.ar);
    } else if tok == "(" {
      NoOperator(tok);
      DenStackPush(a.stack, ParenE, env, cx);
    } else {
      UnaryStep(a, tok, env, cx);
    }
  }

  lemma UnaryStep<N>(a: Abs, tok: string, env: Env<N>, cx: Config<N>)
    requires AbsOk(a) && a.cur.None? && IsUnaryTok(tok) && Den(a, env, cx).Ok?
    ensures Agrees(Den(AbsStep(a, tok).value, env, cx), Step(Den(a, env, cx).value, tok, cx))
  {
    hide Lookup, Spelling, Operator, DenStack, StackOk, Effect, Reduces, ParseNumber;
    DenStackShape(a.stack, env, cx);
    var op, st := Lookup(tok, Any), Den(a, env, cx).value;
    UnaryTok(tok);
    NonDigitIsNoNumber(tok, cx.ar);
    UnaryPushes(tok, st.es, st.os, st.frames);
    DenStackPush(a.stack, UnE(op), env, cx);
  }

  lemma UnaryTok(tok: string)
    requires IsUnaryTok(tok)
    ensures var op := Lookup(tok, Any); IsUnary(op) && op != Unknown && Spelling(op) == tok
    ensures |tok| > 0 && !IsDigit(tok[0]) && !IsDigitOrDot(tok[0])
    ensures !IsNumber(tok) && !IsWord(tok) && tok != "(" && tok != ")"
  {
  }

  lemma UnaryPushes<N>(tok: string, es: seq<Expr<N>>, os: seq<string>, frames: seq<Frame<N>>)
    requires IsUnaryTok(tok)
    ensures Operator(tok, Lookup(tok, Any), es, os, frames) == Ok((es, os + [tok], frames))
  {
    hide Lookup, Reduces;
    UnaryTok(tok);
    var below := Lookup(if |os| > 0 then Last(os) else "", Any);
    if below != Unknown { UnaryReducesNone(Lookup(tok, Any), below); }
  }

  lemma UnaryReducesNone(a: Op, b: Op)
    requires IsUnary(a) && b != Unknown
    ensures !Reduces(a, b)
  {
  }

  /** Closing a parenthesis over a complete operand. */
  lemma CloseStep<N>(a: Abs, env: Env<N>, cx: Config<N>)
    requires AbsOk(a) && a.cur.Some? && Den(a, env, cx).Ok?
    ensures match AbsStep(a, ")")
            case None => Step(Den(a, env, cx).value, ")", cx).Err?
            case Some(a') =>
              !Den(a', env, cx).Undef? && Agrees(Den(a', env, cx), Step(Den(a, env, cx).value, ")", cx))
  {
    hide Unwind, DenTop, DenStack, Resolve, ReduceAll, CloseTop, Den, Effect;
    hide StackOk, StackToks, Toks, Proper, Lookup, Reduces, Call;
    ResolveOperand(a, ")", env, cx);
    var c := a.cur.value;
    var st := DenTop(a.stack, c, env, cx).value;
    DenTopParen(a.stack, c, env, cx);
    UnwindRefines(a.stack, c, Bottom(st), env, cx);
    ReduceAllKeeps(a.stack, c);
    var (g, c') := ReduceAll(a.stack, c);
    CloseTopRefines(g, c', env, cx);
  }

  /** What `Close` does once its loop has run. */
  function CloseRest<N>(st: State<N>, es: seq<Expr<N>>, os: seq<string>, cx: Config<N>): Res<State<N>> {
    if |os| == 0 then Err(ERR_BAD_PARENS)
    else if Last(os) != "{" then Ok(st.(es := es, os := Front(os), paren := Forbidden))
    else if |os| < 2 || |st.frames| == 0 then Undef
    else
      var name, fr := os[|os| - 2], Last(st.frames);
      var (es1, args) := if |es| > fr.eslen then (Front(es), fr.args + [Last(es)]) else (es, fr.args);
      var (x, env) :- Call(name, args, st.env, cx);
      Ok(State(es1 + [x], os[..|os| - 2], Front(st.frames), env, st.id, Forbidden))
  }

  lemma CloseTopRefines<N>(g: seq<Entry>, c: Cst, env: Env<N>, cx: Config<N>)
    requires StackOk(g) && (|g| > 0 ==> !IsOpEntry(Last(g)))
    ensures var d, r := DenTop(g, c, env, cx), CloseTop(g, c);
      if !d.Ok? then r.Some? ==> Agrees(d, Den(r.value, env, cx))
      else
        var st := d.value;
        match r
        case None => CloseRest(st, st.es, st.os, cx).Err?
        case Some(a') => !Den(a', env, cx).Undef? && Agrees(Den(a', env, cx), CloseRest(st, st.es, st.os, cx))
  {
    if |g| == 0 {
      DenStackShape(g, env, cx);
    } else if Last(g).ParenE? {
      CloseGroup(g, c, env, cx);
    } else {
      CloseCall(g, Some(c), env, cx);
    }
  }

  lemma CloseGroup<N>(g: seq<Entry>, c: Cst, env: Env<N>, cx: Config<N>)
    requires |g| > 0 && Last(g).ParenE?
    ensures var d, d' := DenTop(g, c, env, cx), Den(Abs(Front(g), Some(Paren(c))), env, cx);
      if !d.Ok? then Agrees(d, d')
      else d'.Ok? && Agrees(d', CloseRest(d.value, d.value.es, d.value.os, cx))
  {
    var d0 := DenStack(Front(g), env, cx);
    if d0.Ok? { assert Front(d0.value.os + ["("]) == d0.value.os; }
  }

  /** Closing a call takes the last argument, or what lies on top of the operands since the call was opened. */
  lemma CloseRestCall<N>(st0: State<N>, st: State<N>, n: string, done: seq<Expr<N>>, cx: Config<N>)
    requires st.os == st0.os + [n] + ["{"] && st.id == ""
    requires st.frames == st0.frames + [Frame(|st0.os| + 2, |st0.es|, done)]
    ensures match Called(n, |st0.es|, done, PileOf(st), cx)
            case Ok(p) => CloseRest(st, st.es, st.os, cx) == Ok(State(p.es, st0.os, st0.frames, p.env, "", Forbidden))
            case Err(_) => CloseRest(st, st.es, st.os, cx).Err?
            case Undef => CloseRest(st, st.es, st.os, cx).Undef?
  {
    hide Call;
    assert st.os[..|st.os| - 2] == st0.os && st.os[|st.os| - 2] == n;
    assert Front(st.frames) == st0.frames;
  }

  lemma CalledDefined<N>(n: string, base: nat, done: seq<Expr<N>>, p: Pile<N>, env0: Env<N>, cx: Config<N>)
    requires Callable(n, env0, cx) && env0.macros <= p.env.macros
    ensures !Called(n, base, done, p, cx).Undef?
  {
    hide Call, Callable;
    CallableCalls(n, if |p.es| > base then done + [Last(p.es)] else done, env0, p.env, cx);
  }

  lemma EffectOfCall<N>(n: string, args: seq<Cst>, c: Option<Cst>, p: Pile<N>, cx: Config<N>)
    ensures var whole := Apply(n, if c.Some? then args + [c.value] else []);
      var r := Effect(whole, p, cx);
      if !Callable(n, p.env, cx) then r.Err?
      else if c.None? then r == Called(n, |p.es|, [], p, cx)
      else
        var a := EffectDone(args, p, cx);
        if !a.Ok? then r == a.PropagateFailure<Pile<N>>()
        else
          var b := Effect(c.value, a.value.0, cx);
          r == if b.Ok? then Called(n, |p.es|, a.value.1, b.value, cx) else b
    ensures EffectDone([], p, cx) == Ok((p, []))
  {
    hide Called, Callable, TakeOne, TakeTwo;
    if c.Some? { assert (args + [c.value])[..|args|] == args; }
  }

  /** Closing a call, with or without a last argument. */
  lemma CloseCall<N>(g: seq<Entry>, c: Option<Cst>, env: Env<N>, cx: Config<N>)
    requires |g| > 0 && Last(g).CallE? && (c.None? ==> Last(g).args == [])
    ensures var e := Last(g);
      var d := if c.Some? then DenTop(g, c.value, env, cx) else DenStack(g, env, cx);
      var args := if c.Some? then e.args + [c.value] else [];
      var d' := Den(Abs(Front(g), Some(Apply(e.name, args))), env, cx);
      if !d.Ok? then Agrees(d, d') else !d'.Undef? && Agrees(d', CloseRest(d.value, d.value.es, d.value.os, cx))
  {
    hide Called, Callable, CloseRest, DenStack, Effect, EffectDone;
    var e := Last(g);
    var d0 := DenStack(Front(g), env, cx);
    assert g == Front(g) + [e];
    DenStackPush(Front(g), e, env, cx);
    EffectOfCall(e.name, e.args, c, if d0.Ok? then PileOf(d0.value) else Pile([], env), cx);
    if d0.Ok? && Callable(e.name, d0.value.env, cx) {
      var st0 := d0.value;
      DenStackShape(Front(g), env, cx);
      var a := EffectDone(e.args, PileOf(st0), cx);
      if a.Ok? {
        var (p1, xs) := a.value;
        if c.None? {
          CloseRestCall(st0, DenStack(g, env, cx).value, e.name, xs, cx);
          CalledDefined(e.name, |st0.es|, xs, p1, st0.env, cx);
        } else {
          assert (e.args + [c.value])[..|e.args|] == e.args;
          var last := Effect(c.value, p1, cx);
          if last.Ok? {
            CloseRestCall(st0, DenTop(g, c.value, env, cx).value, e.name, xs, cx);
            CalledDefined(e.name, |st0.es|, xs, last.value, st0.env, cx);
          }
        }
      } else if c.Some? {
        assert (e.args + [c.value])[..|e.args|] == e.args;
      }
    }
  }

  // ---------------------------------------------------------------- modes

  /** The scanner's flags and the abstract state agree on what may come next. */
  predicate ModeOk(a: Abs, f: Flags) {
    && f.top == a.cur.Some? && !f.comma
    && (a.cur.Some? ==> !f.tnumber && !f.tword && (f.topen ==> a.cur.value.Id?))
    && (a.cur.None? && f.tclose ==>
          |a.stack| > 0 && (Last(a.stack).ParenE? || (Last(a.stack).CallE? && Last(a.stack).args == [])))
  }

  lemma ModeStep(a: Abs, f: Flags, tok: string)
    requires ModeOk(a, f) && IsLexeme(tok) && Allows(f, tok)
    ensures var r := AbsStep(a, tok); if r.Some? then ModeOk(r.value, After(tok)) else tok == ")" && a.cur.Some?
  {
    hide Lookup, Reduces, ReduceAll, ReduceBy;
    if a.cur.Some? && tok == ")" {
      var (g, c) := ReduceAll(a.stack, a.cur.value);
    }
  }

  /** One token, on a state that stands for a machine state: both go on alike, or fail alike. The only way into
      undefined behaviour is a comma. */
  lemma StepRefines<N>(a: Abs, f: Flags, tok: string, env: Env<N>, cx: Config<N>)
    requires AbsOk(a) && ModeOk(a, f) && IsLexeme(tok) && Allows(f, tok) && Den(a, env, cx).Ok?
    ensures var r, s := AbsStep(a, tok), Step(Den(a, env, cx).value, tok, cx);
      && (if r.Some? then Agrees(Den(r.value, env, cx), s) else s.Err?)
      && (s.Undef? ==> EndsUndefined(a, tok, env, cx))
  {
    ModeStep(a, f, tok);
    if a.cur.None? {
      if tok == ")" { CloseNothing(a, env, cx); } else { OperandStep(a, tok, env, cx); }
    } else if tok == ")" {
      CloseStep(a, env, cx);
    } else if tok == "(" {
      CallOpens(a, env, cx);
    } else {
      OperatorStep(a, tok, env, cx);
      if Den(AbsStep(a, tok).value, env, cx).Undef? { OperatorUndefined(a, tok, env, cx); }
    }
  }

  /** The comma `tok` ends an argument of the innermost open call while there is no operand at all. */
  ghost predicate EndsUndefined<N>(a: Abs, tok: string, env: Env<N>, cx: Config<N>) {
    && tok == "," && a.cur.Some?
    && var (g, c) := ReduceBy(Comma, a.stack, a.cur.value);
       EndsArgument(g, c) && AbsToks(a) == StackToks(g) + Toks(c) && NoOperand(g, c, env, cx)
  }

  /** A complete argument `c` of the call opened last. */
  ghost predicate EndsArgument(g: seq<Entry>, c: Cst) {
    StackOk(g) && |g| > 0 && Last(g).CallE? && Proper(c) && !IsCommaNode(c)
  }

  /** The number of operands below what is open. */
  function Pending(g: seq<Entry>): int
    decreases |g|
  {
    if |g| == 0 then 0
    else
      var h := Pending(Front(g));
      match Last(g)
      case UnE(_) => h
      case BinE(l, _) => Height(l, h)
      case ParenE => h
      case CallE(_, args) => HeightDone(args, h)
  }

  lemma {:induction false} PendingCounts<N>(g: seq<Entry>, env: Env<N>, cx: Config<N>)
    requires DenStack(g, env, cx).Ok?
    ensures |DenStack(g, env, cx).value.es| == Pending(g)
    decreases |g|
  {
    hide Effect, EffectDone, Height, HeightDone, Callable;
    if |g| > 0 {
      PendingCounts(Front(g), env, cx);
      var p := PileOf(DenStack(Front(g), env, cx).value);
      match Last(g)
      case UnE(_) => case ParenE =>
      case BinE(l, _) => HeightCounts(l, p, cx);
      case CallE(_, args) => HeightDoneCounts(args, p, cx);
    }
  }

  /** Everything is read without an error, and counting gives no operand, neither in `c` nor below it. */
  ghost predicate NoOperand<N>(g: seq<Entry>, c: Cst, env: Env<N>, cx: Config<N>) {
    DenTop(g, c, env, cx).Ok? && Height(c, Pending(g)) == 0
  }

  lemma NoOperandLeft<N>(g: seq<Entry>, c: Cst, env: Env<N>, cx: Config<N>)
    requires DenTop(g, c, env, cx).Ok?
    ensures NoOperand(g, c, env, cx) <==> DenTop(g, c, env, cx).value.es == []
  {
    hide Effect, DenStack, Height, Pending;
    PendingCounts(g, env, cx);
    HeightCounts(c, PileOf(DenStack(g, env, cx).value), cx);
  }

  lemma OperatorUndefined<N>(a: Abs, tok: string, env: Env<N>, cx: Config<N>)
    requires AbsOk(a) && a.cur.Some? && IsBinaryTok(tok) && tok != "(" && tok != ")"
    requires DenTop(a.stack, a.cur.value, env, cx).Ok? && Den(AbsStep(a, tok).value, env, cx).Undef?
    ensures EndsUndefined(a, tok, env, cx)
  {
    hide Lookup, Reduces, DenTop, DenStack, StackOk, Proper, NoOperand;
    BinaryLookupIsSpelling(tok);
    var op := Lookup(tok, BinaryOnly);
    ReduceByKeeps(op, a.stack, a.cur.value);
    ReduceByDefined(op, a.stack, a.cur.value, env, cx);
    var (g, c) := ReduceBy(op, a.stack, a.cur.value);
    PushOpDen(op, g, c, env, cx);
    if DenTop(g, c, env, cx).Ok? { NoOperandLeft(g, c, env, cx); }
  }

  lemma {:induction false} ReduceByDefined<N>(op: Op, g: seq<Entry>, c: Cst, env: Env<N>, cx: Config<N>)
    requires StackOk(g) && DenTop(g, c, env, cx).Ok?
    ensures var (g', c') := ReduceBy(op, g, c); !DenTop(g', c', env, cx).Undef?
    decreases |g|
  {
    hide DenTop, Reduces, Proper, Spelling, Bind;
    if |g| > 0 && IsOpEntry(Last(g)) && Reduces(op, Last(g).op) {
      BindIsCombine(g, c, env, cx);
      var c' := Combine(Last(g), c);
      if DenTop(Front(g), c', env, cx).Ok? {
        ReduceByDefined(op, Front(g), c', env, cx);
      } else {
        FailureStaysBy(op, Front(g), c', env, cx);
      }
    }
  }

  /** Closing a call without arguments, or an empty group. */
  lemma CloseNothing<N>(a: Abs, env: Env<N>, cx: Config<N>)
    requires AbsOk(a) && a.cur.None? && Den(a, env, cx).Ok? && |a.stack| > 0
    requires Last(a.stack).ParenE? || (Last(a.stack).CallE? && Last(a.stack).args == [])
    ensures AbsStep(a, ")").Some? && !Den(AbsStep(a, ")").value, env, cx).Undef?
    ensures Agrees(Den(AbsStep(a, ")").value, env, cx), Step(Den(a, env, cx).value, ")", cx))
  {
    hide Unwind, CloseRest, DenStack, Lookup, Reduces, Proper, Effect;
    DenStackShape(a.stack, env, cx);
    TopOfStack(a.stack, env, cx);
    var st := Den(a, env, cx).value;
    NothingUnwinds(st.es, st.os, if |st.frames| > 0 then Last(st.frames).oslen else 0);
    if Last(a.stack).CallE? {
      CloseCall(a.stack, None, env, cx);
    } else {
      assert a.stack == Front(a.stack) + [ParenE];
      EmptyDen(Front(a.stack), env, cx);
      CloseGroupRest(st, cx);
    }
    CloseIsRest(st, cx);
  }

  lemma NothingUnwinds<N>(es: seq<Expr<N>>, os: seq<string>, minlen: nat)
    requires |os| > 0 && (Last(os) == "(" || Last(os) == "{")
    ensures Unwind(es, os, minlen) == Some((es, os))
  {
  }

  lemma CloseGroupRest<N>(st: State<N>, cx: Config<N>)
    requires |st.os| > 0 && Last(st.os) == "("
    ensures CloseRest(st, st.es, st.os, cx) == Ok(st.(os := Front(st.os), paren := Forbidden))
  {
  }

  lemma CloseIsRest<N>(st: State<N>, cx: Config<N>)
    requires st.id == "" && st.paren == Allowed
    requires Unwind(st.es, st.os, if |st.frames| > 0 then Last(st.frames).oslen else 0) == Some((st.es, st.os))
    ensures Step(st, ")", cx) == CloseRest(st, st.es, st.os, cx)
  {
    hide Unwind, Call;
  }

  lemma EmptyDen<N>(g: seq<Entry>, env: Env<N>, cx: Config<N>)
    ensures var d, d' := DenStack(g + [ParenE], env, cx), DenTop(g, Empty, env, cx);
      if !d.Ok? then Agrees(d, d')
      else |d.value.os| > 0 && d' == Ok(d.value.(os := Front(d.value.os), paren := Forbidden))
  {
    DenStackPush(g, ParenE, env, cx);
    var d := DenStack(g, env, cx);
    if d.Ok? { assert Front(d.value.os + ["("]) == d.value.os; }
  }

  lemma FailureStays<N>(a: Abs, tok: string, env: Env<N>, cx: Config<N>)
    requires AbsOk(a) && !Den(a, env, cx).Ok? && AbsStep(a, tok).Some?
    ensures Agrees(Den(a, env, cx), Den(AbsStep(a, tok).value, env, cx))
  {
    if a.cur.None? {
      OperandFails(a, tok, env, cx);
    } else if tok == ")" {
      CloseFails(a, env, cx);
    } else if tok == "(" {
      CallFails(a, env, cx);
    } else {
      OperatorFails(a, tok, env, cx);
    }
  }

  lemma OperandFails<N>(a: Abs, tok: string, env: Env<N>, cx: Config<N>)
    requires AbsOk(a) && a.cur.None? && !Den(a, env, cx).Ok? && AbsStep(a, tok).Some?
    ensures Agrees(Den(a, env, cx), Den(AbsStep(a, tok).value, env, cx))
  {
    hide Lookup, Reduces, Proper, Effect;
    if tok == ")" && Last(a.stack).CallE? {
      CloseCall(a.stack, None, env, cx);
    } else if tok == ")" {
      assert a.stack == Front(a.stack) + [ParenE];
      EmptyDen(Front(a.stack), env, cx);
    }
  }

  lemma CallFails<N>(a: Abs, env: Env<N>, cx: Config<N>)
    requires AbsOk(a) && a.cur.Some? && !Den(a, env, cx).Ok? && AbsStep(a, "(").Some?
    ensures Agrees(Den(a, env, cx), Den(AbsStep(a, "(").value, env, cx))
  {
    hide Lookup, Reduces, Proper, Effect, StackOk;
    DenStackPush(a.stack, CallE(a.cur.value.name, []), env, cx);
  }

  lemma CloseFails<N>(a: Abs, env: Env<N>, cx: Config<N>)
    requires AbsOk(a) && a.cur.Some? && !Den(a, env, cx).Ok? && AbsStep(a, ")").Some?
    ensures Agrees(Den(a, env, cx), Den(AbsStep(a, ")").value, env, cx))
  {
    hide DenStack, Lookup, Reduces, Proper, Effect, StackOk, StackToks, Toks, CloseTop;
    var c := a.cur.value;
    WordFails(a, env, cx);
    FailureStaysAll(a.stack, c, env, cx);
    ReduceAllKeeps(a.stack, c);
    var (g, c') := ReduceAll(a.stack, c);
    CloseTopRefines(g, c', env, cx);
  }

  lemma OperatorFails<N>(a: Abs, tok: string, env: Env<N>, cx: Config<N>)
    requires AbsOk(a) && a.cur.Some? && !Den(a, env, cx).Ok? && IsBinaryTok(tok) && tok != "(" && tok != ")"
    ensures AbsStep(a, tok).Some? && Agrees(Den(a, env, cx), Den(AbsStep(a, tok).value, env, cx))
  {
    hide DenTop, DenStack, Lookup, Reduces, Proper, Effect, StackOk, ReduceBy, PushOp;
    var op, c := Lookup(tok, BinaryOnly), a.cur.value;
    BinaryTokSteps(tok);
    WordFails(a, env, cx);
    FailureStaysBy(op, a.stack, c, env, cx);
    var (g, c') := ReduceBy(op, a.stack, c);
    PushOpDen(op, g, c', env, cx);
    PushedDen(op, a, env, cx);
  }

  /** A word that is held back fails as the operand it will be. */
  lemma WordFails<N>(a: Abs, env: Env<N>, cx: Config<N>)
    requires a.cur.Some? && !Den(a, env, cx).Ok?
    ensures Agrees(Den(a, env, cx), DenTop(a.stack, a.cur.value, env, cx))
    ensures !DenTop(a.stack, a.cur.value, env, cx).Ok?
  {
    hide DenStack;
  }

  // ---------------------------------------------------------------- the end of the input

  function BinaryCount(os: seq<string>): nat
    decreases |os|
  {
    if |os| == 0 then 0 else BinaryCount(Front(os)) + if IsBinary(Lookup(Last(os), Any)) then 1 else 0
  }

  /** With no more operands than binary operators the last loop cannot succeed. */
  lemma {:induction false} DrainShort<N>(es: seq<Expr<N>>, os: seq<string>)
    requires |os| > 0 && |es| <= BinaryCount(os)
    ensures Drain(es, os).Err?
    decreases |os|
  {
    if Last(os) != "(" && Last(os) != ")" {
      DrainBinds(es, os);
      var b := Bind(Last(os), es);
      if b.Some? { DrainShort(b.value, Front(os)); }
    }
  }

  /** Without a complete operand there is at most one operand for each pending binary operator. */
  lemma {:induction false} OperandsAreFew<N>(g: seq<Entry>, env: Env<N>, cx: Config<N>)
    requires StackOk(g) && DenStack(g, env, cx).Ok?
    ensures var st := DenStack(g, env, cx).value; |st.es| <= BinaryCount(st.os)
    decreases |g|
  {
    if |g| > 0 {
      OperandsAreFew(Front(g), env, cx);
      EntryOperands(Last(g), DenStack(Front(g), env, cx).value, cx);
    }
  }

  lemma EntryOperands<N>(e: Entry, st: State<N>, cx: Config<N>)
    requires EntryOk(e) && DenEntry(e, st, cx).Ok?
    ensures var st1 := DenEntry(e, st, cx).value;
      |st1.es| - |st.es| <= BinaryCount(st1.os) - BinaryCount(st.os)
  {
    hide Effect, EffectDone, Callable, BinaryCount;
    match e
    case UnE(op) => CountPush(st.os, Spelling(op)); LookupSpelling(op);
    case BinE(l, op) => CountPush(st.os, Spelling(op)); LookupSpelling(op);
    case ParenE => CountPush(st.os, "("); BracketsAreNoOperators();
    case CallE(n, args) =>
      CountPush(st.os, n);
      CountPush(st.os + [n], "{");
      WordsAreNoOperators(n);
      BracketsAreNoOperators();
  }

  lemma WordsAreNoOperators(n: string)
    requires IsWord(n)
    ensures Lookup(n, Any) == Unknown
  {
  }

  lemma CountPush(os: seq<string>, o: string)
    ensures BinaryCount(os + [o]) == BinaryCount(os) + if IsBinary(Lookup(o, Any)) then 1 else 0
  {
    assert Front(os + [o]) == os;
  }

  ghost predicate FinishAgrees<N>(a: Abs, r: Res<(seq<Expr<N>>, Env<N>)>, env: Env<N>, cx: Config<N>) {
    if a.cur.None? then if |a.stack| == 0 then r == Ok(([], env)) else r.Err?
    else
      match AbsFinish(a)
      case None => r.Err?
      case Some(c) =>
        match Effect(c, Pile([], env), cx)
        case Ok(p) => r == Ok((p.es, p.env))
        case Err(_) => r.Err?
        case Undef => false
  }

  lemma FinishRefines<N>(a: Abs, env: Env<N>, cx: Config<N>)
    requires AbsOk(a) && Den(a, env, cx).Ok?
    ensures FinishAgrees(a, Remaining(Den(a, env, cx).value), env, cx)
  {
    var st := Den(a, env, cx).value;
    DenStackShape(a.stack, env, cx);
    if a.cur.None? {
      if |a.stack| > 0 {
        OperandsAreFew(a.stack, env, cx);
        DrainShort(st.es, st.os);
      }
    } else {
      ResolveOperand(a, ")", env, cx);
      FinishOperand(a.stack, a.cur.value, env, cx);
    }
  }

  lemma FinishOperand<N>(g: seq<Entry>, c: Cst, env: Env<N>, cx: Config<N>)
    requires StackOk(g) && Proper(c) && Atomic(c) && DenTop(g, c, env, cx).Ok?
    ensures var st := DenTop(g, c, env, cx).value;
      var r := Drain(st.es, st.os);
      FinishAgrees(Abs(g, Some(c)), if r.Ok? then Ok((r.value, st.env)) else Err(0), env, cx) && !r.Undef?
  {
    DrainRefines(g, c, env, cx);
    ReduceAllEnv(g, c, env, cx);
    var (g', c') := ReduceAll(g, c);
  }

  /** Reducing changes no environment. */
  lemma {:induction false} ReduceAllEnv<N>(g: seq<Entry>, c: Cst, env: Env<N>, cx: Config<N>)
    requires StackOk(g) && DenTop(g, c, env, cx).Ok?
    ensures var (g', c') := ReduceAll(g, c);
      var d := DenTop(g', c', env, cx); d.Ok? ==> d.value.env == DenTop(g, c, env, cx).value.env
    decreases |g|
  {
    if |g| > 0 && IsOpEntry(Last(g)) {
      BindIsCombine(g, c, env, cx);
      if DenTop(Front(g), Combine(Last(g), c), env, cx).Ok? {
        ReduceAllEnv(Front(g), Combine(Last(g), c), env, cx);
      } else {
        FailureStaysAll(Front(g), Combine(Last(g), c), env, cx);
      }
    }
  }

  // ---------------------------------------------------------------- whole token streams

  /** Where reading stops early: at the token after those of `b`. */
  ghost predicate StopsAt<N>(b: Abs, all: seq<string>, env: Env<N>, cx: Config<N>) {
    && EndsUndefined(b, ",", env, cx)
    && |AbsToks(b)| < |all| && all[|AbsToks(b)|] == "," && all[..|AbsToks(b)|] == AbsToks(b)
  }

  ghost predicate Tracked<N>(a: Abs, toks: seq<string>, b: Abs, r: Res<State<N>>, env: Env<N>, cx: Config<N>) {
    && (r.Ok? ==> AbsOk(b) && AbsToks(b) == AbsToks(a) + toks && Den(b, env, cx) == Ok(r.value))
    && (r.Undef? ==> StopsAt(b, AbsToks(a) + toks, env, cx))
  }

  lemma TrackOne<N>(a: Abs, f: Flags, toks: seq<string>, env: Env<N>, cx: Config<N>) returns (b: Abs)
    requires AbsOk(a) && ModeOk(a, f) && Moded(f, toks) && Den(a, env, cx).Ok? && |toks| > 0
    ensures var s := Step(Den(a, env, cx).value, toks[0], cx);
      && (s.Ok? ==> Tracked(a, [toks[0]], b, s, env, cx) && ModeOk(b, After(toks[0])))
      && (s.Undef? ==> Tracked(a, toks, b, s, env, cx))
  {
    hide AbsOk, Den, Step, AbsStep, AbsToks, ModeOk, After, EndsUndefined;
    StepRefines(a, f, toks[0], env, cx);
    ModeStep(a, f, toks[0]);
    b := a;
    if Step(Den(a, env, cx).value, toks[0], cx).Ok? {
      b := AbsStep(a, toks[0]).value;
      AbsStepKeeps(a, toks[0]);
    } else {
      PrefixOf(AbsToks(a), toks);
      EndsAtComma(a, toks[0], env, cx);
    }
  }

  lemma EndsAtComma<N>(a: Abs, tok: string, env: Env<N>, cx: Config<N>)
    ensures EndsUndefined(a, tok, env, cx) ==> tok == ","
  {
  }

  lemma PrefixOf<T>(a: seq<T>, b: seq<T>)
    requires |b| > 0
    ensures (a + b)[..|a|] == a && (a + b)[|a|] == b[0]
  {
  }

  /** Every stream read without a failure is the reading of an abstract state, and a stream that is not read to
      the end for lack of an operand has such a prefix. */
  lemma {:induction false} Track<N>(a: Abs, f: Flags, toks: seq<string>, env: Env<N>, cx: Config<N>) returns (b: Abs)
    requires AbsOk(a) && ModeOk(a, f) && Moded(f, toks) && Den(a, env, cx).Ok?
    ensures Tracked(a, toks, b, Feed(Den(a, env, cx).value, toks, cx), env, cx)
    decreases |toks|
  {
    hide AbsOk, Den, AbsStep, Step, IsLexeme, Allows, ModeOk, AbsToks, After, StopsAt;
    b := a;
    if |toks| == 0 {
      assert AbsToks(a) + toks == AbsToks(a);
    } else {
      b := TrackOne(a, f, toks, env, cx);
      if Step(Den(a, env, cx).value, toks[0], cx).Ok? {
        assert AbsToks(a) + [toks[0]] + toks[1..] == AbsToks(a) + toks;
        b := Track(b, After(toks[0]), toks[1..], env, cx);
      }
    }
  }

  /** Reading on along the abstract machine, or failing on the way. */
  lemma {:induction false} FeedRefines<N>(a: Abs, f: Flags, toks: seq<string>, env: Env<N>, cx: Config<N>)
    requires AbsOk(a) && ModeOk(a, f) && Moded(f, toks) && Den(a, env, cx).Ok?
    requires AbsFeed(a, toks).Some?
    ensures AbsOk(AbsFeed(a, toks).value)
    ensures Agrees(Den(AbsFeed(a, toks).value, env, cx), Feed(Den(a, env, cx).value, toks, cx))
    decreases |toks|
  {
    hide AbsOk, Den, AbsStep, Step, IsLexeme, Allows, ModeOk, After;
    if |toks| > 0 {
      var tok := toks[0];
      StepRefines(a, f, tok, env, cx);
      ModeStep(a, f, tok);
      AbsStepKeeps(a, tok);
      var a' := AbsStep(a, tok).value;
      if Den(a', env, cx).Ok? {
        FeedRefines(a', After(tok), toks[1..], env, cx);
      } else {
        FeedFails(a', After(tok), toks[1..], env, cx);
      }
    }
  }

  lemma {:induction false} FeedFails<N>(a: Abs, f: Flags, toks: seq<string>, env: Env<N>, cx: Config<N>)
    requires AbsOk(a) && ModeOk(a, f) && Moded(f, toks) && !Den(a, env, cx).Ok?
    requires AbsFeed(a, toks).Some?
    ensures AbsOk(AbsFeed(a, toks).value) && Agrees(Den(a, env, cx), Den(AbsFeed(a, toks).value, env, cx))
    decreases |toks|
  {
    hide AbsOk, Den, AbsStep, IsLexeme, Allows, ModeOk, After;
    if |toks| > 0 {
      FailureStays(a, toks[0], env, cx);
      AbsStepKeeps(a, toks[0]);
      ModeStep(a, f, toks[0]);
      FeedFails(AbsStep(a, toks[0]).value, After(toks[0]), toks[1..], env, cx);
    }
  }

  const START := Abs([], None)

  /** The token stream is a sentence, and reading it leaves the operands and the environment `p`. */
  ghost predicate Builds<N>(toks: seq<string>, env: Env<N>, cx: Config<N>, p: Pile<N>) {
    exists c :: Proper(c) && Toks(c) == toks && Effect(c, Pile([], env), cx) == Ok(p)
  }

  /** Before position `i` there is a complete argument of an open call and no operand, and a comma is at `i`. */
  ghost predicate PopsAt<N>(toks: seq<string>, i: nat, g: seq<Entry>, c: Cst, env: Env<N>, cx: Config<N>) {
    && i < |toks| && toks[i] == "," && toks[..i] == StackToks(g) + Toks(c)
    && EndsArgument(g, c) && NoOperand(g, c, env, cx)
  }

  /** Some comma ends an argument while no operand is pending anywhere below it. */
  ghost predicate PopsNothing<N>(toks: seq<string>, env: Env<N>, cx: Config<N>) {
    exists i: nat, g, c :: PopsAt(toks, i, g, c, env, cx)
  }

  ghost predicate FeedSound<N>(toks: seq<string>, r: Res<State<N>>, env: Env<N>, cx: Config<N>) {
    && (r.Undef? ==> PopsNothing(toks, env, cx))
    && (r.Ok? ==>
          && !Remaining(r.value).Undef?
          && (Remaining(r.value).Ok? ==>
                var (es, env') := Remaining(r.value).value;
                if |toks| == 0 then es == [] && env' == env else Builds(toks, env, cx, Pile(es, env'))))
  }

  /** Soundness: the machine leaves defined behaviour only at a comma that finds no operand; when it accepts, the
      input is a sentence, and what it leaves is what reading that sentence leaves. */
  lemma MachineSound<N>(toks: seq<string>, env: Env<N>, cx: Config<N>)
    requires Moded(DEFAULT, toks)
    ensures FeedSound(toks, Feed(Init(env), toks, cx), env, cx)
  {
    hide EndsUndefined, NoOperand, EndsArgument, Effect, FinishAgrees;
    hide Init, Den, AbsOk, ModeOk, AbsToks, Remaining, AbsFinish, PopsNothing, Builds, Feed, Moded, StopsAt;
    StartDen(env, cx);
    assert [] + toks == toks;
    var b := Track(START, DEFAULT, toks, env, cx);
    var r := Feed(Init(env), toks, cx);
    if r.Ok? {
      FinishRefines(b, env, cx);
      SoundAtEnd(b, Remaining(r.value), env, cx);
    } else if r.Undef? {
      PopsThere(b, toks, env, cx);
    }
  }

  lemma StartDen<N>(env: Env<N>, cx: Config<N>)
    ensures AbsOk(START) && ModeOk(START, DEFAULT) && AbsToks(START) == [] && Den(START, env, cx) == Ok(Init(env))
  {
  }

  lemma PopsThere<N>(b: Abs, toks: seq<string>, env: Env<N>, cx: Config<N>)
    requires StopsAt(b, toks, env, cx)
    ensures PopsNothing(toks, env, cx)
  {
    hide NoOperand, EndsArgument, StackToks, Toks, ReduceBy;
    var (g, c) := ReduceBy(Comma, b.stack, b.cur.value);
    assert PopsAt(toks, |AbsToks(b)|, g, c, env, cx);
  }

  lemma SoundAtEnd<N>(b: Abs, r: Res<(seq<Expr<N>>, Env<N>)>, env: Env<N>, cx: Config<N>)
    requires AbsOk(b) && FinishAgrees(b, r, env, cx)
    ensures !r.Undef?
    ensures r.Ok? ==>
              var (es, env') := r.value;
              if |AbsToks(b)| == 0 then es == [] && env' == env else Builds(AbsToks(b), env, cx, Pile(es, env'))
  {
    hide Effect, AbsFinish;
    if b.cur.Some? { FinishSound(b); }
  }

  lemma FinishSound(b: Abs)
    requires AbsOk(b) && b.cur.Some?
    ensures |AbsToks(b)| > 0
    ensures AbsFinish(b).Some? ==> Proper(AbsFinish(b).value) && Toks(AbsFinish(b).value) == AbsToks(b)
  {
    ReduceAllKeeps(b.stack, b.cur.value);
    var (g, c) := ReduceAll(b.stack, b.cur.value);
    ToksNonEmpty(b.cur.value);
    if |g| == 0 { assert [] + Toks(c) == Toks(c); }
  }

  lemma {:induction false} ToksNonEmpty(c: Cst)
    ensures |Toks(c)| > 0
    decreases c
  {
    match c
    case Un(_, a) => ToksNonEmpty(a);
    case Bin(_, l, _) => ToksNonEmpty(l);
    case _ =>
  }

  /** Completeness: on the tokens of a proper tree the machine ends as the effect of the tree says. */
  lemma MachineComplete<N>(c: Cst, env: Env<N>, cx: Config<N>)
    requires Proper(c) && Moded(DEFAULT, Toks(c))
    ensures var r, d := Feed(Init(env), Toks(c), cx), Effect(c, Pile([], env), cx);
      match d
      case Ok(p) => r.Ok? && Remaining(r.value) == Ok((p.es, p.env))
      case Err(_) => !r.Undef? && (r.Ok? ==> Remaining(r.value).Err?)
      case Undef => r.Undef?
  {
    hide Den, AbsOk, ModeOk, AbsToks, Remaining, ReduceAll, Feed, Moded, AbsFeed, Effect, Toks, Proper, Init;
    StartDen(env, cx);
    AbsComplete(c);
    FeedRefines(START, DEFAULT, Toks(c), env, cx);
    var a := AbsFeed(START, Toks(c)).value;
    if Den(a, env, cx).Ok? {
      FinishRefines(a, env, cx);
    } else {
      FailureAtEnd(a, env, cx);
    }
  }

  lemma FailureAtEnd<N>(a: Abs, env: Env<N>, cx: Config<N>)
    requires AbsOk(a) && !Den(a, env, cx).Ok? && AbsFinish(a).Some?
    ensures match Den(a, env, cx)
            case Ok(_) => true
            case Err(_) => Effect(AbsFinish(a).value, Pile([], env), cx).Err?
            case Undef => Effect(AbsFinish(a).value, Pile([], env), cx).Undef?
  {
    FailureStaysAll(a.stack, a.cur.value, env, cx);
  }

  /** The converse for the undefined step: a comma that finds no operand is reached. */
  lemma MachinePops<N>(toks: seq<string>, env: Env<N>, cx: Config<N>)
    requires Moded(DEFAULT, toks) && PopsNothing(toks, env, cx)
    ensures Feed(Init(env), toks, cx).Undef?
  {
    hide AbsOk, ModeOk, Init, DenTop, DenStack, Feed, StackOk, Proper, AbsFeed, Toks, StackToks, Moded;
    var i: nat, g, c :| PopsAt(toks, i, g, c, env, cx);
    var pre, post := toks[..i + 1], toks[i + 1..];
    assert toks == pre + post;
    assert pre == StackToks(g) + Toks(c) + [","];
    var e := Last(g);
    var a := Abs(Front(g) + [CallE(e.name, e.args + [c])], None);
    DriveArgument(g, c);
    NoOperandLeft(g, c, env, cx);
    PushOpDen(Comma, g, c, env, cx);
    ModedPrefix(DEFAULT, pre, post);
    StartDen(env, cx);
    FeedRefines(START, DEFAULT, pre, env, cx);
    FeedConcat(Init(env), pre, post, cx);
  }
}
