/** The expression compiler: a shunting-yard machine over three stacks (operands, operators, call frames),
    together with the variables it declares and the macros it records. Numbers are an arbitrary type `N` with
    the three operations number parsing needs, so everything here holds for IEEE doubles in particular. */
module ExprMachine {
  import opened Common
  import opened ExprOps
  import opened ExprLexer

  /** A result, an error code, or a step the source leaves undefined (popping an empty stack, calling through a
      null pointer). */
  datatype Res<+T> = Ok(value: T) | Err(code: int) | Undef {
    predicate IsFailure() { !Ok? }
    function PropagateFailure<U>(): Res<U>
      requires !Ok?
    { if Err? then Err(code) else Undef }
    function Extract(): T
      requires Ok?
    { value }
  }

  /** A variable node of the source points into the variable list, where names are distinct, so the name
      identifies it. */
  datatype Expr<N> =
    | Const(value: N)
    | Var(name: string)
    | Unary(op: Op, arg: Expr<N>)
    | Binary(op: Op, left: Expr<N>, right: Expr<N>)
    | Func(name: string, args: seq<Expr<N>>)

  /** What number parsing needs: zero, `num * 10 + digit`, and `num / 10`. */
  datatype Arith<!N> = Arith(zero: N, shift: (N, int) -> N, tenth: N -> N)

  datatype Config<!N> = Config(funcs: set<string>, ar: Arith<N>)

  datatype Macro<N> = Macro(name: string, body: seq<Expr<N>>)

  datatype Env<N> = Env(vars: seq<string>, macros: seq<Macro<N>>)

  datatype Frame<N> = Frame(oslen: nat, eslen: nat, args: seq<Expr<N>>)

  datatype Paren = Allowed | Expected | Forbidden

  datatype State<N> =
    State(es: seq<Expr<N>>, os: seq<string>, frames: seq<Frame<N>>, env: Env<N>, id: string, paren: Paren)

  datatype Outcome<N> =
    | Accepted(expr: Expr<N>, env: Env<N>, near: nat)
    | Rejected(code: int, near: nat)
    | Undefined

  const ERR_INVALID_FUNC_NAME := -6
  const ERR_BAD_CALL := -7
  const ERR_BAD_PARENS := -8
  const ERR_TOO_FEW_FUNC_ARGS := -9
  const ERR_FIRST_ARG_IS_NOT_VAR := -10
  const ERR_BAD_VARIABLE_NAME := -11
  const ERR_BAD_ASSIGNMENT := -12

  function Last<T>(s: seq<T>): T
    requires |s| > 0
  { s[|s| - 1] }

  function Front<T>(s: seq<T>): seq<T>
    requires |s| > 0
  { s[..|s| - 1] }

  // ---------------------------------------------------------------- numbers

  function ParseDigits<N>(s: string, num: N, frac: nat, digits: nat, ar: Arith<N>): Option<N> {
    if |s| == 0 then
      if digits > 0 then Some(Scale(num, frac, ar)) else None
    else if s[0] == '.' && frac == 0 then ParseDigits(s[1..], num, 1, digits, ar)
    else if IsDigit(s[0]) then
      ParseDigits(s[1..], ar.shift(num, s[0] as int - '0' as int), if frac > 0 then frac + 1 else 0, digits + 1, ar)
    else None
  }

  function Scale<N>(num: N, frac: nat, ar: Arith<N>): N {
    if frac > 1 then Scale(ar.tenth(num), frac - 1, ar) else num
  }

  /** The value of a number token; `None` stands for the NaN of the source. */
  function ParseNumber<N>(s: string, ar: Arith<N>): Option<N> {
    ParseDigits(s, ar.zero, 0, 0, ar)
  }

  lemma NonDigitIsNoNumber<N>(s: string, ar: Arith<N>)
    requires |s| > 0 && !IsDigitOrDot(s[0])
    ensures ParseNumber(s, ar).None?
  {
  }

  // ---------------------------------------------------------------- variables and macros

  function Declare<N>(env: Env<N>, name: string): Env<N> {
    if name in env.vars then env else env.(vars := [name] + env.vars)
  }

  function HasMacro<N>(macros: seq<Macro<N>>, name: string): bool {
    exists i :: 0 <= i < |macros| && macros[i].name == name
  }

  /** The body of the most recently recorded macro of that name. */
  function FindMacro<N>(macros: seq<Macro<N>>, name: string): Option<seq<Expr<N>>> {
    if |macros| == 0 then None
    else if Last(macros).name == name then Some(Last(macros).body)
    else FindMacro(Front(macros), name)
  }

  /** Macro `i` has the name, and no later one has. */
  predicate LastNamed<N>(macros: seq<Macro<N>>, name: string, i: int) {
    0 <= i < |macros| && macros[i].name == name && forall j :: i < j < |macros| ==> macros[j].name != name
  }

  /** The body found is that of the last macro of the name; none is found exactly if no macro has it. */
  lemma {:induction false} LastOfName<N>(macros: seq<Macro<N>>, name: string)
    ensures FindMacro(macros, name).None? <==> forall i :: 0 <= i < |macros| ==> macros[i].name != name
    ensures forall i :: LastNamed(macros, name, i) ==> FindMacro(macros, name) == Some(macros[i].body)
    decreases |macros|
  {
    if |macros| > 0 && Last(macros).name != name {
      var front := Front(macros);
      LastOfName(front, name);
      forall i | LastNamed(macros, name, i)
        ensures FindMacro(macros, name) == Some(macros[i].body)
      {
        assert front[i] == macros[i];
        assert forall j :: i < j < |front| ==> front[j] == macros[j];
      }
      assert forall i :: 0 <= i < |front| ==> front[i] == macros[i];
    }
  }

  function Decimal(n: nat): string {
    if n < 10 then [(n + '0' as int) as char] else Decimal(n / 10) + [(n % 10 + '0' as int) as char]
  }

  function ParamName(k: nat): string {
    "$" + Decimal(k)
  }

  /** The parameters `$j .. $k` are declared one by one. */
  function DeclareParams<N>(env: Env<N>, j: nat, k: nat): Env<N>
    requires j <= k + 1
    decreases k + 1 - j
  {
    if j == k + 1 then env else DeclareParams(Declare(env, ParamName(j)), j + 1, k)
  }

  /** The tree a macro call expands to: assignments of the arguments to `$1`, `$2`, ..., then the body items,
      all chained by commas. The first item of a recorded body is the macro's own name. */
  function Expansion<N>(args: seq<Expr<N>>, j: nat, body: seq<Expr<N>>, zero: N): Expr<N>
    requires j <= |args|
    decreases |args| - j
  {
    if j == |args| then BodyTree(body, 1, zero)
    else Binary(Comma, Binary(Assign, Var(ParamName(j + 1)), args[j]), Expansion(args, j + 1, body, zero))
  }

  function BodyTree<N>(body: seq<Expr<N>>, j: nat, zero: N): Expr<N>
    decreases |body| - j
  {
    if j >= |body| then Const(zero)
    else if j == |body| - 1 then body[j]
    else Binary(Comma, body[j], BodyTree(body, j + 1, zero))
  }

  // ---------------------------------------------------------------- one token

  /** Apply the operator spelled `s` to the top of the operand stack. */
  function Bind<N>(s: string, es: seq<Expr<N>>): Option<seq<Expr<N>>> {
    var op := Lookup(s, Any);
    if op == Unknown then None
    else if IsUnary(op) then
      if |es| < 1 then None else Some(Front(es) + [Unary(op, Last(es))])
    else if |es| < 2 then None
    else if op == Assign && !es[|es| - 2].Var? then None
    else Some(es[..|es| - 2] + [Binary(op, es[|es| - 2], es[|es| - 1])])
  }

  /** A word token is only known to be a variable or a call once the next token is seen. */
  function Resolve<N>(st: State<N>, tok: string, cx: Config<N>): Res<State<N>> {
    if |st.id| == 0 then Ok(st)
    else if tok == "(" then
      if st.id == "$" || HasMacro(st.env.macros, st.id) || st.id in cx.funcs then
        Ok(st.(os := st.os + [st.id], paren := Expected, id := ""))
      else Err(ERR_INVALID_FUNC_NAME)
    else if IsFirstVarChr(st.id[0]) then
      Ok(st.(es := st.es + [Var(st.id)], env := Declare(st.env, st.id), paren := Forbidden, id := ""))
    else Ok(st.(id := ""))
  }

  predicate Opens(t: string) {
    |t| > 0 && (t[0] == '(' || t[0] == '{')
  }

  /** The loop of a closing parenthesis: apply operators down to the matching opening. */
  function Unwind<N>(es: seq<Expr<N>>, os: seq<string>, minlen: nat): Option<(seq<Expr<N>>, seq<string>)>
    decreases |os|
  {
    if |os| > minlen && !Opens(Last(os)) then
      match Bind(Last(os), es)
      case None => None
      case Some(es') => Unwind(es', Front(os), minlen)
    else Some((es, os))
  }

  /** The value a completed call leaves on the operand stack, and the environment after it. */
  function Call<N>(name: string, args: seq<Expr<N>>, env: Env<N>, cx: Config<N>): Res<(Expr<N>, Env<N>)> {
    if name == "$" then
      if |args| < 1 then Err(ERR_TOO_FEW_FUNC_ARGS)
      else if !args[0].Var? then Err(ERR_FIRST_ARG_IS_NOT_VAR)
      else Ok((Const(cx.ar.zero), env.(macros := env.macros + [Macro(args[0].name, args)])))
    else
      match FindMacro(env.macros, name)
      case Some(body) => Ok((Expansion(args, 0, body, cx.ar.zero), DeclareParams(env, 1, |args|)))
      case None => if name in cx.funcs then Ok((Func(name, args), env)) else Undef
  }

  function Close<N>(st: State<N>, cx: Config<N>): Res<State<N>> {
    var minlen := if |st.frames| > 0 then Last(st.frames).oslen else 0;
    match Unwind(st.es, st.os, minlen)
    case None => Err(ERR_UNKNOWN)
    case Some((es, os)) =>
      if |os| == 0 then Err(ERR_BAD_PARENS)
      else if Last(os) != "{" then Ok(st.(es := es, os := Front(os), paren := Forbidden))
      else if |os| < 2 || |st.frames| == 0 then Undef
      else
        var name, fr := os[|os| - 2], Last(st.frames);
        var (es1, args) := if |es| > fr.eslen then (Front(es), fr.args + [Last(es)]) else (es, fr.args);
        var (x, env) :- Call(name, args, st.env, cx);
        Ok(State(es1 + [x], os[..|os| - 2], Front(st.frames), env, st.id, Forbidden))
  }

  /** The loop of an arriving operator: apply what binds tighter, then push it; a comma that meets the opening
      of a call instead ends an argument. */
  function Operator<N>(tok: string, op: Op, es: seq<Expr<N>>, os: seq<string>, frames: seq<Frame<N>>)
    : Res<(seq<Expr<N>>, seq<string>, seq<Frame<N>>)>
    decreases |os|
  {
    if tok == "," && |os| > 0 && Last(os) == "{" then
      if |es| == 0 || |frames| == 0 then Undef
      else Ok((Front(es), os, Front(frames) + [Last(frames).(args := Last(frames).args + [Last(es)])]))
    else
      var o2 := if |os| > 0 then Last(os) else "";
      var type2 := Lookup(o2, Any);
      if !(type2 != Unknown && Reduces(op, type2)) then Ok((es, os + [tok], frames))
      else
        match Bind(o2, es)
        case None => Err(ERR_UNKNOWN)
        case Some(es') => if |os| == 0 then Undef else Operator(tok, op, es', Front(os), frames)
  }

  function Act<N>(st: State<N>, tok: string, cx: Config<N>): Res<State<N>> {
    if tok == "(" then
      match st.paren
      case Expected =>
        Ok(st.(os := st.os + ["{"], frames := st.frames + [Frame(|st.os| + 1, |st.es|, [])], paren := Allowed))
      case Allowed => Ok(st.(os := st.os + ["("], paren := Allowed))
      case Forbidden => Err(ERR_BAD_CALL)
    else if st.paren.Expected? then Err(ERR_BAD_CALL)
    else if tok == ")" then Close(st, cx)
    else if ParseNumber(tok, cx.ar).Some? then
      Ok(st.(es := st.es + [Const(ParseNumber(tok, cx.ar).value)], paren := Forbidden))
    else if Lookup(tok, Any) != Unknown then
      var (es, os, frames) :- Operator(tok, Lookup(tok, Any), st.es, st.os, st.frames);
      Ok(st.(es := es, os := os, frames := frames, paren := Allowed))
    else if |tok| > 0 && !IsDigit(tok[0]) then Ok(st.(id := tok, paren := Allowed))
    else Err(ERR_BAD_VARIABLE_NAME)
  }

  function Step<N>(st: State<N>, tok: string, cx: Config<N>): Res<State<N>> {
    var st1 :- Resolve(st, tok, cx);
    Act(st1, tok, cx)
  }

  // ---------------------------------------------------------------- the whole run

  /** The loop after the last token: apply every operator that is left. */
  function Drain<N>(es: seq<Expr<N>>, os: seq<string>): Res<seq<Expr<N>>>
    decreases |os|
  {
    if |os| == 0 then Ok(es)
    else if Last(os) == "(" || Last(os) == ")" then Err(ERR_BAD_PARENS)
    else
      match Bind(Last(os), es)
      case None => Err(if |Last(os)| > 0 && Last(os)[0] == '=' then ERR_BAD_ASSIGNMENT else ERR_BAD_PARENS)
      case Some(es') => Drain(es', Front(os))
  }

  /** The operands left at the end of the input. The source returns the top one. */
  function Remaining<N>(st: State<N>): Res<(seq<Expr<N>>, Env<N>)> {
    var (es0, env) :=
      if |st.id| > 0 then (st.es + [Var(st.id)], Declare(st.env, st.id)) else (st.es, st.env);
    var es :- Drain(es0, st.os);
    Ok((es, env))
  }

  function Result<N>(es: seq<Expr<N>>, cx: Config<N>): Expr<N> {
    if |es| == 0 then Const(cx.ar.zero) else Last(es)
  }

  function AtLeastOne(near: nat): nat {
    if near == 0 then 1 else near
  }

  function Finish<N>(st: State<N>, near: nat, cx: Config<N>): Outcome<N> {
    match Remaining(st)
    case Ok((es, env)) => Accepted(Result(es, cx), env, AtLeastOne(near))
    case Err(c) => Rejected(c, AtLeastOne(near))
    case Undef => Undefined
  }

  function Run<N>(s: string, f: Flags, st: State<N>, near: nat, cx: Config<N>): Outcome<N>
    decreases |s|
  {
    match Scan(s, f)
    case End => Finish(st, near, cx)
    case Fail(c) => Rejected(c, AtLeastOne(near))
    case Abort(n) => Rejected(ERR_UNKNOWN, AtLeastOne(near + n))
    case Skip(n, f') => Run(s[n..], f', st, near + n, cx)
    case Token(t, n, f') =>
      match Step(st, t, cx)
      case Ok(st') => Run(s[n..], f', st', near + n, cx)
      case Err(c) => Rejected(c, AtLeastOne(near + n))
      case Undef => Undefined
  }

  function Init<N>(env: Env<N>): State<N> {
    State([], [], [], env, "", Allowed)
  }

  /** The variables a caller brings along; macros live for one compilation only. */
  function NoMacros<N>(vars: seq<string>): Env<N> {
    Env(vars, [])
  }

  /** The meaning of the compiler's entry point on the text `s`, with the variables already known. */
  function Compile<N>(s: string, vars: seq<string>, cx: Config<N>): Outcome<N> {
    Run(s, DEFAULT, Init(NoMacros(vars)), 0, cx)
  }

  /** The machine on a ready token stream. */
  function Feed<N>(st: State<N>, toks: seq<string>, cx: Config<N>): Res<State<N>>
    decreases |toks|
  {
    if |toks| == 0 then Ok(st)
    else
      var st' :- Step(st, toks[0], cx);
      Feed(st', toks[1..], cx)
  }

  function FeedOn<N>(r: Res<State<N>>, toks: seq<string>, cx: Config<N>): Res<State<N>> {
    if r.Ok? then Feed(r.value, toks, cx) else r
  }

  lemma {:induction false} FeedConcat<N>(st: State<N>, a: seq<string>, b: seq<string>, cx: Config<N>)
    ensures Feed(st, a + b, cx) == FeedOn(Feed(st, a, cx), b, cx)
    decreases |a|
  {
    if |a| == 0 {
      assert a + b == b;
    } else {
      assert (a + b)[0] == a[0] && (a + b)[1..] == a[1..] + b;
      var r := Step(st, a[0], cx);
      if r.Ok? { FeedConcat(r.value, a[1..], b, cx); }
    }
  }

  ghost predicate RunAgrees<N>(out: Outcome<N>, lexed: Lexed, st: State<N>, total: nat, cx: Config<N>) {
    match Feed(st, lexed.toks, cx)
    case Ok(st') => if lexed.complete then out == Finish(st', total, cx) else out.Rejected?
    case Err(c) => out.Rejected? && out.code == c
    case Undef => out.Undefined?
  }

  lemma FeedOne<N>(st: State<N>, t: string, ts: seq<string>, cx: Config<N>)
    ensures Feed(st, [t] + ts, cx) == FeedOn(Step(st, t, cx), ts, cx)
  {
    assert ([t] + ts)[1..] == ts;
  }

  /** Scanning and parsing are interleaved in the source; when the whole input scans, the run is the machine on
      its token stream, and an accepted run consumes the whole input. When it does not scan, the input is
      rejected, unless the machine went wrong on the tokens before that point. */
  lemma {:induction false} RunIsFeed<N>(s: string, f: Flags, st: State<N>, near: nat, cx: Config<N>)
    ensures RunAgrees(Run(s, f, st, near, cx), Lex(s, f), st, near + |s|, cx)
    decreases |s|
  {
    hide Scan, Step, Finish, Run, Lex, RunAgrees;
    match Scan(s, f)
    case End => RunStops(s, f, st, near, cx);
    case Fail(_) => RunStops(s, f, st, near, cx);
    case Abort(_) => RunStops(s, f, st, near, cx);
    case Skip(n, f') =>
      RunIsFeed(s[n..], f', st, near + n, cx);
      RunSkips(s, f, st, near, cx);
    case Token(t, n, f') => RunIsFeedToken(s, f, st, near, cx, t, n, f');
  }

  lemma RunStops<N>(s: string, f: Flags, st: State<N>, near: nat, cx: Config<N>)
    requires var sc := Scan(s, f); sc.End? || sc.Fail? || sc.Abort?
    ensures RunAgrees(Run(s, f, st, near, cx), Lex(s, f), st, near + |s|, cx)
  {
    hide Scan, Step, Finish;
  }

  lemma RunSkips<N>(s: string, f: Flags, st: State<N>, near: nat, cx: Config<N>)
    requires Scan(s, f).Skip?
    ensures var sc := Scan(s, f);
      Run(s, f, st, near, cx) == Run(s[sc.n..], sc.flags, st, near + sc.n, cx) && Lex(s, f) == Lex(s[sc.n..], sc.flags)
  {
    hide Scan, Step, Finish;
  }

  lemma {:induction false} RunIsFeedToken<N>(s: string, f: Flags, st: State<N>, near: nat, cx: Config<N>,
                                             t: string, n: nat, f': Flags)
    requires Scan(s, f) == Token(t, n, f')
    ensures RunAgrees(Run(s, f, st, near, cx), Lex(s, f), st, near + |s|, cx)
    decreases |s|, 0
  {
    hide Scan, Step, Finish;
    var r := Step(st, t, cx);
    var rest := Lex(s[n..], f');
    if r.Ok? { RunIsFeed(s[n..], f', r.value, near + n, cx); }
    FeedOne(st, t, rest.toks, cx);
  }
}
