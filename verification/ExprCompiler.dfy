/** The compiler in the source's own form: loops that pop and push three stacks in place, proved equal to the
    machine functions the theorems are about. */
module ExprCompiler {
  import opened Common
  import opened ExprOps
  import opened ExprLexer
  import opened ExprMachine

  // ---------------------------------------------------------------- macro expansion

  /** Items chained by commas in front of `tail`. */
  function Nest<N>(items: seq<Expr<N>>, tail: Expr<N>): Expr<N> {
    if |items| == 0 then tail else Binary(Comma, items[0], Nest(items[1..], tail))
  }

  /** The node reached by following the second operand `depth` times, replaced. This is the write through the
      pointer that walks down the tree under construction. */
  function Plug<N>(t: Expr<N>, depth: nat, sub: Expr<N>): Expr<N> {
    if depth == 0 then sub
    else if t.Binary? then t.(right := Plug(t.right, depth - 1, sub))
    else t
  }

  lemma {:induction false} PlugNest<N>(items: seq<Expr<N>>, tail: Expr<N>, sub: Expr<N>)
    ensures Plug(Nest(items, tail), |items|, sub) == Nest(items, sub)
    decreases |items|
  {
    if |items| > 0 { PlugNest(items[1..], tail, sub); }
  }

  lemma {:induction false} NestSnoc<N>(items: seq<Expr<N>>, x: Expr<N>, tail: Expr<N>)
    ensures Nest(items + [x], tail) == Nest(items, Binary(Comma, x, tail))
    decreases |items|
  {
    if |items| > 0 {
      assert (items + [x])[1..] == items[1..] + [x];
      NestSnoc(items[1..], x, tail);
    }
  }

  function Assignment<N>(j: nat, arg: Expr<N>): Expr<N> {
    Binary(Assign, Var(ParamName(j + 1)), arg)
  }

  /** Looks up the macros a compilation has recorded; the last of several with one name counts. */
  method LastMacro<N>(macros: seq<Macro<N>>, name: string) returns (body: Option<seq<Expr<N>>>)
    ensures body == FindMacro(macros, name)
    ensures body.None? <==> forall i :: 0 <= i < |macros| ==> macros[i].name != name
    ensures forall i :: LastNamed(macros, name, i) ==> body == Some(macros[i].body)
  {
    LastOfName(macros, name);
    body := None;
    var i := 0;
    while i < |macros|
      invariant 0 <= i <= |macros|
      invariant body == FindMacro(macros[..i], name)
    {
      assert Front(macros[..i + 1]) == macros[..i];
      if macros[i].name == name { body := Some(macros[i].body); }
      i := i + 1;
    }
    assert macros[..i] == macros;
  }

  /** The two expansion loops: parameter assignments, then the body items but its name. */
  method Expand<N>(args: seq<Expr<N>>, body: seq<Expr<N>>, zero: N) returns (root: Expr<N>)
    ensures root == Expansion(args, 0, body, zero)
  {
    root := Const(zero);
    ghost var items: seq<Expr<N>> := [];
    var depth, j := 0, 0;
    while j < |args|
      invariant 0 <= j <= |args| && depth == |items|
      invariant root == Nest(items, Const(zero))
      invariant Nest(items, Expansion(args, j, body, zero)) == Expansion(args, 0, body, zero)
    {
      var assign := Assignment(j, args[j]);
      PlugNest(items, Const(zero), Binary(Comma, assign, Const(zero)));
      root := Plug(root, depth, Binary(Comma, assign, Const(zero)));
      NestSnoc(items, assign, Const(zero));
      NestSnoc(items, assign, Expansion(args, j + 1, body, zero));
      items := items + [assign];
      depth, j := depth + 1, j + 1;
    }
    j := 1;
    while j < |body|
      invariant 1 <= j
      invariant j < |body| ==> depth == |items| && root == Nest(items, Const(zero))
      invariant j < |body| ==> Nest(items, BodyTree(body, j, zero)) == Expansion(args, 0, body, zero)
      invariant j >= |body| ==> root == Expansion(args, 0, body, zero)
    {
      if j < |body| - 1 {
        PlugNest(items, Const(zero), Binary(Comma, body[j], Const(zero)));
        root := Plug(root, depth, Binary(Comma, body[j], Const(zero)));
        NestSnoc(items, body[j], Const(zero));
        NestSnoc(items, body[j], BodyTree(body, j + 1, zero));
        items := items + [body[j]];
      } else {
        PlugNest(items, Const(zero), body[j]);
        root := Plug(root, depth, body[j]);
      }
      depth, j := depth + 1, j + 1;
    }
  }

  /** Reads a number token digit by digit; `None` is the NaN of the source. */
  method ReadNumber<N>(s: string, ar: Arith<N>) returns (r: Option<N>)
    ensures r == ParseNumber(s, ar)
  {
    var num, frac, digits, i := ar.zero, 0, 0, 0;
    assert s[0..] == s;
    while i < |s|
      invariant 0 <= i <= |s| && frac >= 0 && digits >= 0
      invariant ParseNumber(s, ar) == ParseDigits(s[i..], num, frac, digits, ar)
    {
      assert s[i..][1..] == s[i + 1..];
      if s[i] == '.' && frac == 0 {
        frac := 1;
      } else if IsDigit(s[i]) {
        digits := digits + 1;
        if frac > 0 { frac := frac + 1; }
        num := ar.shift(num, s[i] as int - '0' as int);
      } else {
        return None;
      }
      i := i + 1;
    }
    ghost var value := Scale(num, frac, ar);
    while frac > 1
      invariant frac >= 0 && Scale(num, frac, ar) == value
    {
      num, frac := ar.tenth(num), frac - 1;
    }
    r := if digits > 0 then Some(num) else None;
  }

  // ---------------------------------------------------------------- the stacks

  predicate EndsArgument(tok: string, os: seq<string>) {
    tok == "," && |os| > 0 && Last(os) == "{"
  }

  /** One turn of the operator loop. */
  lemma OperatorTurn<N>(tok: string, op: Op, es: seq<Expr<N>>, os: seq<string>, frames: seq<Frame<N>>)
    ensures var r := Operator(tok, op, es, os, frames);
      var o2 := if |os| > 0 then Last(os) else "";
      var t2, b := Lookup(o2, Any), Bind(o2, es);
      if EndsArgument(tok, os) then
        if |es| == 0 || |frames| == 0 then r == Undef
        else r == Ok((Front(es), os, Front(frames) + [Last(frames).(args := Last(frames).args + [Last(es)])]))
      else if !(t2 != Unknown && Reduces(op, t2)) then r == Ok((es, os + [tok], frames))
      else if b.None? then r == Err(ERR_UNKNOWN)
      else if |os| == 0 then r == Undef
      else r == Operator(tok, op, b.value, Front(os), frames)
  {
    hide Lookup, Bind, Reduces;
  }

  class Compiler<N(0)> {
    const cx: Config<N>
    var es: seq<Expr<N>>
    var os: seq<string>
    var frames: seq<Frame<N>>
    var vars: seq<string>
    var macros: seq<Macro<N>>
    var id: string
    var paren: Paren

    constructor (cx: Config<N>, vars: seq<string>)
      ensures this.cx == cx && Current() == Init(NoMacros(vars))
    {
      this.cx := cx;
      es, os, frames, macros, id, paren := [], [], [], [], "", Allowed;
      this.vars := vars;
    }

    function Current(): State<N>
      reads this
    {
      State(es, os, frames, Env(vars, macros), id, paren)
    }

    /** Finds a variable, or adds it at the head of the list. */
    method DeclareVar(name: string)
      modifies this`vars
      ensures Env(vars, macros) == Declare(Env(old(vars), macros), name)
    {
      var i := 0;
      while i < |vars|
        invariant 0 <= i <= |vars| && name !in vars[..i]
      {
        if vars[i] == name { return; }
        i := i + 1;
      }
      assert vars[..i] == vars;
      vars := [name] + vars;
    }

    method BindTop(s: string) returns (ok: bool)
      modifies this`es
      ensures match Bind(s, old(es))
              case None => !ok
              case Some(v) => ok && es == v
    {
      var op := Lookup(s, Any);
      if op == Unknown { return false; }
      if IsUnary(op) {
        if |es| < 1 { return false; }
        var arg := Last(es);
        es := Front(es);
        es := es + [Unary(op, arg)];
      } else {
        if |es| < 2 { return false; }
        var b := Last(es);
        es := Front(es);
        var a := Last(es);
        es := Front(es);
        if op == Assign && !a.Var? { return false; }
        assert es == old(es)[..|old(es)| - 2];
        es := es + [Binary(op, a, b)];
      }
      return true;
    }

    /** A pending word turns out to be a call or a variable. */
    method ResolveWord(tok: string) returns (r: Res<()>)
      modifies this
      ensures match Resolve(old(Current()), tok, cx)
              case Ok(st) => r == Ok(()) && Current() == st
              case Err(c) => r == Err(c)
              case Undef => r == Undef
    {
      if |id| > 0 {
        if tok == "(" {
          var known := id == "$" || id in cx.funcs;
          var i := 0;
          while i < |macros| && !known
            invariant 0 <= i <= |macros|
            invariant known ==> id == "$" || id in cx.funcs || HasMacro(macros, id)
            invariant !known ==> id != "$" && id !in cx.funcs && forall k :: 0 <= k < i ==> macros[k].name != id
          {
            if macros[i].name == id { known := true; }
            i := i + 1;
          }
          if !known { return Err(ERR_INVALID_FUNC_NAME); }
          os := os + [id];
          paren := Expected;
        } else if IsFirstVarChr(id[0]) {
          DeclareVar(id);
          es := es + [Var(id)];
          paren := Forbidden;
        }
        id := "";
      }
      return Ok(());
    }

    /** The value a completed call leaves. */
    method MakeCall(name: string, args: seq<Expr<N>>) returns (r: Res<Expr<N>>)
      modifies this`vars, this`macros
      ensures match Call(name, args, old(Env(vars, macros)), cx)
              case Ok((x, env)) => r == Ok(x) && Env(vars, macros) == env
              case Err(c) => r == Err(c)
              case Undef => r == Undef
    {
      if name == "$" {
        if |args| < 1 { return Err(ERR_TOO_FEW_FUNC_ARGS); }
        if !args[0].Var? { return Err(ERR_FIRST_ARG_IS_NOT_VAR); }
        macros := macros + [Macro(args[0].name, args)];
        return Ok(Const(cx.ar.zero));
      }
      var body := LastMacro(macros, name);
      if body.Some? {
        var root := Expand(args, body.value, cx.ar.zero);
        var j := 0;
        while j < |args|
          invariant 0 <= j <= |args| && macros == old(macros)
          invariant DeclareParams(Env(vars, macros), j + 1, |args|)
                 == DeclareParams(old(Env(vars, macros)), 1, |args|)
        {
          DeclareVar(ParamName(j + 1));
          j := j + 1;
        }
        return Ok(root);
      }
      if name !in cx.funcs { return Undef; }
      return Ok(Func(name, args));
    }

    /** Applies the operators above the innermost opening. */
    method UnwindAll(minlen: nat) returns (ok: bool)
      modifies this`es, this`os
      ensures match Unwind(old(es), old(os), minlen)
              case None => !ok
              case Some((v, o)) => ok && es == v && os == o
    {
      hide Bind;
      while |os| > minlen && !Opens(Last(os))
        invariant Unwind(es, os, minlen) == Unwind(old(es), old(os), minlen)
        decreases |os|
      {
        var o := Last(os);
        os := Front(os);
        ok := BindTop(o);
        if !ok { return false; }
      }
      return true;
    }

    method CloseParen() returns (r: Res<()>)
      modifies this
      ensures match Close(old(Current()), cx)
              case Ok(st) => r == Ok(()) && Current() == st
              case Err(c) => r == Err(c)
              case Undef => r == Undef
    {
      hide Unwind, Call;
      var minlen := if |frames| > 0 then Last(frames).oslen else 0;
      var ok := UnwindAll(minlen);
      if !ok { return Err(ERR_UNKNOWN); }
      if |os| == 0 { return Err(ERR_BAD_PARENS); }
      var str := Last(os);
      if str != "{" {
        os := Front(os);
        paren := Forbidden;
        return Ok(());
      }
      if |os| < 2 || |frames| == 0 { return Undef; }
      var name, fr := os[|os| - 2], Last(frames);
      os, frames := os[..|os| - 2], Front(frames);
      var args := fr.args;
      if |es| > fr.eslen {
        args := args + [Last(es)];
        es := Front(es);
      }
      var x := MakeCall(name, args);
      if x.Err? { return Err(x.code); }
      if x.Undef? { return Undef; }
      es := es + [x.value];
      paren := Forbidden;
      return Ok(());
    }

    method PushOperator(tok: string, op: Op) returns (r: Res<()>)
      modifies this`es, this`os, this`frames
      ensures match Operator(tok, op, old(es), old(os), old(frames))
              case Ok((es', os', frames')) => r == Ok(()) && es == es' && os == os' && frames == frames'
              case Err(c) => r == Err(c)
              case Undef => r == Undef
    {
      hide Lookup, Bind, Reduces, Operator;
      while true
        invariant Operator(tok, op, es, os, frames) == Operator(tok, op, old(es), old(os), old(frames))
        decreases |os|
      {
        OperatorTurn(tok, op, es, os, frames);
        if EndsArgument(tok, os) {
          if |es| == 0 || |frames| == 0 { return Undef; }
          var e := Last(es);
          es := Front(es);
          var fr := Last(frames);
          frames := Front(frames) + [fr.(args := fr.args + [e])];
          return Ok(());
        }
        var o2 := if |os| > 0 then Last(os) else "";
        var type2 := Lookup(o2, Any);
        if !(type2 != Unknown && Reduces(op, type2)) {
          os := os + [tok];
          return Ok(());
        }
        var ok := BindTop(o2);
        if !ok { return Err(ERR_UNKNOWN); }
        if |os| == 0 { return Undef; }
        os := Front(os);
      }
    }

    /** One turn of the main loop, once the token is known. */
    method HandleToken(tok: string) returns (r: Res<()>)
      modifies this
      ensures match Step(old(Current()), tok, cx)
              case Ok(st) => r == Ok(()) && Current() == st
              case Err(c) => r == Err(c)
              case Undef => r == Undef
    {
      r := ResolveWord(tok);
      if !r.Ok? { return; }
      label Resolved:
      ghost var st := Current();
      if tok == "(" {
        match paren {
          case Expected =>
            os := os + ["{"];
            frames := frames + [Frame(|os|, |es|, [])];
          case Allowed => os := os + ["("];
          case Forbidden => return Err(ERR_BAD_CALL);
        }
        paren := Allowed;
      } else if paren.Expected? {
        return Err(ERR_BAD_CALL);
      } else if tok == ")" {
        r := CloseParen();
      } else {
        var num := ReadNumber(tok, cx.ar);
        if num.Some? {
          es := es + [Const(num.value)];
          paren := Forbidden;
        } else if Lookup(tok, Any) != Unknown {
          r := PushOperator(tok, Lookup(tok, Any));
          if r.Ok? { paren := Allowed; }
        } else if |tok| > 0 && !IsDigit(tok[0]) {
          id := tok;
          paren := Allowed;
        } else {
          return Err(ERR_BAD_VARIABLE_NAME);
        }
      }
    }

    /** After the last token: the pending word and the remaining operators. */
    method DrainAll() returns (r: Res<()>)
      modifies this
      ensures match Remaining(old(Current()))
              case Ok((v, env)) => r == Ok(()) && es == v && Env(vars, macros) == env
              case Err(c) => r == Err(c)
              case Undef => r == Undef
    {
      if |id| > 0 {
        DeclareVar(id);
        es := es + [Var(id)];
      }
      label Start:
      while |os| > 0
        invariant Drain(es, os) == Drain(old@Start(es), old@Start(os))
        invariant vars == old@Start(vars) && macros == old@Start(macros)
        decreases |os|
      {
        var rest := Last(os);
        os := Front(os);
        if rest == "(" || rest == ")" { return Err(ERR_BAD_PARENS); }
        var ok := BindTop(rest);
        if !ok {
          return Err(if |rest| > 0 && rest[0] == '=' then ERR_BAD_ASSIGNMENT else ERR_BAD_PARENS);
        }
      }
      return Ok(());
    }
  }

  /** What the main loop makes of the next token before it looks at the stacks. */
  method NextScanned(s: string, flags: Flags) returns (sc: Scanned)
    ensures sc == Scan(s, flags)
  {
    hide NextToken, Lookup;
    var n, f := ReadToken(s, flags);
    if n == 0 { return End; }
    if n < 0 { return Fail(n); }
    var tok := s[..n];
    if tok[0] == '#' { return Skip(n, f); }
    if f.unary && n == 1 {
      if tok[0] !in ['-', '^', '!'] { return Abort(n); }
      tok := [tok[0], 'u'];
    }
    if tok[0] == '\n' && f.comma {
      f := f.(comma := false);
      tok := ",";
    }
    if IsSpace(tok[0]) { return Skip(n, f); }
    return Token(tok, n, f);
  }

  /** The compiler's entry point. */
  method Create<N(0)>(s: string, vars: seq<string>, cx: Config<N>) returns (out: Outcome<N>)
    ensures out == Compile(s, vars, cx)
  {
    hide Scan, Step, Drain, Lookup;
    var c := new Compiler(cx, vars);
    var rest, flags, near := s, DEFAULT, 0;
    while true
      invariant fresh(c) && c.cx == cx && near >= 0
      invariant Run(rest, flags, c.Current(), near, cx) == Compile(s, vars, cx)
      decreases |rest|
    {
      var sc := NextScanned(rest, flags);
      if sc.End? { break; }
      if sc.Fail? { return Rejected(sc.code, AtLeastOne(near)); }
      near := near + sc.n;
      if sc.Abort? { return Rejected(ERR_UNKNOWN, AtLeastOne(near)); }
      rest, flags := rest[sc.n..], sc.flags;
      if sc.Skip? { continue; }
      var r := c.HandleToken(sc.text);
      if r.Err? { return Rejected(r.code, AtLeastOne(near)); }
      if r.Undef? { return Undefined; }
    }
    var r := c.DrainAll();
    if r.Err? { return Rejected(r.code, AtLeastOne(near)); }
    if r.Undef? { return Undefined; }
    var x := if |c.es| == 0 then Const(cx.ar.zero) else Last(c.es);
    return Accepted(x, Env(c.vars, c.macros), AtLeastOne(near));
  }
}
