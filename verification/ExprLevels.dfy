/** Which operator takes an operand that stands between two, written out level by level, and what that makes of a
    text. Nothing here is said in terms of the operator table the compiler works from. */
module ExprLevels {
  import opened Common
  import opened ExprOps
  import opened ExprLexer
  import opened ExprMachine
  import opened ExprGrammar
  import opened ExprTheorems
  import opened ExprLimits

  // ---------------------------------------------------------------- the levels

  /** The level of a binary operator, 0 for the tightest; 11 for any other text. */
  function Level(t: string): nat {
    if t == "**" || t == "*" || t == "/" || t == "%" then 0
    else if t == "+" || t == "-" then 1
    else if t == "<<" || t == ">>" then 2
    else if t == "<" || t == "<=" || t == ">" || t == ">=" || t == "==" || t == "!=" then 3
    else if t == "&" then 4
    else if t == "|" then 5
    else if t == "^" then 6
    else if t == "&&" then 7
    else if t == "||" then 8
    else if t == "=" then 9
    else if t == "," then 10
    else 11
  }

  predicate IsOperator(t: string) {
    Level(t) < 11
  }

  /** The operation a binary operator of the text stands for. */
  function Named(t: string): Op {
    if t == "**" then Power else if t == "*" then Multiply else if t == "/" then Divide else if t == "%" then Remainder
    else if t == "+" then Plus else if t == "-" then Minus
    else if t == "<<" then Shl else if t == ">>" then Shr
    else if t == "<" then Lt else if t == "<=" then Le else if t == ">" then Gt else if t == ">=" then Ge
    else if t == "==" then Eq else if t == "!=" then Ne
    else if t == "&" then BitAnd else if t == "|" then BitOr else if t == "^" then BitXor
    else if t == "&&" then LogicalAnd else if t == "||" then LogicalOr
    else if t == "=" then Assign else if t == "," then Comma
    else Unknown
  }

  predicate IsSign(u: string) {
    u == "-" || u == "!" || u == "^"
  }

  function NamedSign(u: string): Op {
    if u == "-" then UnaryMinus else if u == "!" then LogicalNot else if u == "^" then BitwiseNot else Unknown
  }

  /** In `x p y q z` the operator `p` takes `y`: it stands on an earlier level, or on the same level and `q` does not
      group to the right. */
  predicate GroupsLeft(p: string, q: string) {
    Level(p) < Level(q) || (Level(p) == Level(q) && q != "**" && q != "=" && q != ",")
  }

  lemma NamedIs(t: string)
    requires IsOperator(t)
    ensures IsBinary(Named(t)) && Spelling(Named(t)) == t && Prec(Named(t)) == Level(t) + 2
    ensures Named(t) in [Power, Assign, Comma] <==> t in ["**", "=", ","]
  {
  }

  lemma NamedBack(op: Op)
    requires IsBinary(op)
    ensures IsOperator(Spelling(op)) && Named(Spelling(op)) == op
  {
  }

  lemma SignIs(u: string)
    requires IsSign(u)
    ensures var op := NamedSign(u); IsUnary(op) && Spelling(op) == u + "u" && TokText(Spelling(op)) == u
  {
  }

  /** The test of the compiler on two operators is the comparison of their levels. */
  lemma ReducesIs(p: string, q: string)
    requires IsOperator(p) && IsOperator(q)
    ensures Reduces(Named(q), Named(p)) <==> GroupsLeft(p, q)
  {
    hide Spelling, Named, Level, Prec;
    NamedIs(p);
    NamedIs(q);
    assert LeftAssociative(Named(q)) <==> q != "**" && q != "=" && q != ",";
  }

  lemma SignsReduce(op: Op, q: string)
    requires IsUnary(op) && IsOperator(q)
    ensures Reduces(Named(q), op) && !Reduces(op, Named(q))
  {
    hide Spelling, Named, Level;
    NamedIs(q);
  }

  // ---------------------------------------------------------------- operands

  /** A number that can be read, or the name of a variable. */
  predicate IsOperand<N>(x: string, cx: Config<N>) {
    IsWord(x) || (IsNumber(x) && ParseNumber(x, cx.ar).Some?)
  }

  /** What an operand stands for. */
  function Meant<N>(x: string, cx: Config<N>): Expr<N>
    requires IsOperand(x, cx)
  {
    if IsWord(x) then Var(x) else Const(ParseNumber(x, cx.ar).value)
  }

  function Leaf(x: string): Cst {
    if IsWord(x) then Id(x) else Lit(x)
  }

  lemma LeafIs<N>(x: string, env: Env<N>, cx: Config<N>)
    requires IsOperand(x, cx)
    ensures var c := Leaf(x);
      && Proper(c) && Plain(c) && !c.Bin? && !c.Un? && Toks(c) == [x] && TokText(x) == x
      && Elab(c, env, cx).Some? && Elab(c, env, cx).value.0 == Meant(x, cx)
  {
  }

  lemma TextOfOperator(t: string)
    requires IsOperator(t)
    ensures TokText(t) == t
  {
  }

  // ---------------------------------------------------------------- two operators

  /** What `x p y q z` must compile to. */
  ghost predicate Grouped<N>(out: Outcome<N>, p: string, q: string, x: Expr<N>, y: Expr<N>, z: Expr<N>) {
    if GroupsLeft(p, q) then
      if q == "=" || (p == "=" && !x.Var?) then out.Rejected?
      else out.Accepted? && out.expr == Binary(Named(q), Binary(Named(p), x, y), z)
    else
      if (p == "=" && !x.Var?) || (q == "=" && !y.Var?) then out.Rejected?
      else out.Accepted? && out.expr == Binary(Named(p), x, Binary(Named(q), y, z))
  }

  /** Two binary operators, whichever they are: the text `x p y q z` groups to the left exactly if `p` is on an earlier
      level than `q`, or on the same level with `q` not one of `**`, `=` and `,`; and it is rejected exactly if that
      leaves an assignment without a variable to its left. */
  lemma TwoOperators<N>(x: string, p: string, y: string, q: string, z: string, vars: seq<string>, cx: Config<N>)
    requires IsOperator(p) && IsOperator(q) && IsOperand(x, cx) && IsOperand(y, cx) && IsOperand(z, cx)
    ensures Grouped(Compile(x + p + y + q + z, vars, cx), p, q, Meant(x, cx), Meant(y, cx), Meant(z, cx))
  {
    hide Named, Level, IsWord, IsNumber, Lookup, Spelling, Compile, Elab, Proper, Plain, Leaf, Text, Reduces;
    hide IsOperand, Meant;
    var a, b, c := Leaf(x), Leaf(y), Leaf(z);
    var left, right := Bin(Named(q), Bin(Named(p), a, b), c), Bin(Named(p), a, Bin(Named(q), b, c));
    TwoTexts(x, p, y, q, z, cx);
    TwoAreProper(x, p, y, q, z, cx);
    if GroupsLeft(p, q) {
      CompileText(left, vars, cx);
      LeftElab(x, p, y, q, z, NoMacros(vars), cx);
    } else {
      CompileText(right, vars, cx);
      RightElab(x, p, y, q, z, NoMacros(vars), cx);
    }
  }

  lemma TwoTexts<N>(x: string, p: string, y: string, q: string, z: string, cx: Config<N>)
    requires IsOperator(p) && IsOperator(q) && IsOperand(x, cx) && IsOperand(y, cx) && IsOperand(z, cx)
    ensures var (a, b, c) := (Leaf(x), Leaf(y), Leaf(z));
      && Text(Bin(Named(q), Bin(Named(p), a, b), c)) == x + p + y + q + z
      && Text(Bin(Named(p), a, Bin(Named(q), b, c))) == x + p + y + q + z
  {
    hide Named, Level, IsWord, IsNumber, Lookup, Spelling, Toks, Elab, Proper, Plain, TokText, Render, Leaf, IsOperand;
    var a, b, c := Leaf(x), Leaf(y), Leaf(z);
    var env := NoMacros<N>([]);
    LeafIs(x, env, cx);
    LeafIs(y, env, cx);
    LeafIs(z, env, cx);
    NamedIs(p);
    NamedIs(q);
    TextOfOperator(p);
    TextOfOperator(q);
    ToksOfBin(Named(p), a, b);
    ToksOfBin(Named(q), b, c);
    ToksOfBin(Named(q), Bin(Named(p), a, b), c);
    ToksOfBin(Named(p), a, Bin(Named(q), b, c));
    FiveTokens(x, p, y, q, z);
    Rendered4(x, p, y, q, [z]);
    Rendered(z, []);
    NothingRendered();
    assert [z] + [] == [z];
  }

  lemma FiveTokens<T>(x: T, p: T, y: T, q: T, z: T)
    ensures [x] + [p] + [y] + [q] + [z] == [x, p, y, q] + [z]
    ensures [x] + [p] + ([y] + [q] + [z]) == [x, p, y, q] + [z]
  {
  }

  lemma TwoAreProper<N>(x: string, p: string, y: string, q: string, z: string, cx: Config<N>)
    requires IsOperator(p) && IsOperator(q) && IsOperand(x, cx) && IsOperand(y, cx) && IsOperand(z, cx)
    ensures var (a, b, c) := (Leaf(x), Leaf(y), Leaf(z));
      var d := if GroupsLeft(p, q) then Bin(Named(q), Bin(Named(p), a, b), c)
               else Bin(Named(p), a, Bin(Named(q), b, c));
      Proper(d) && Plain(d)
  {
    hide Named, Level, IsWord, IsNumber, Lookup, Spelling, Toks, Elab, TokText, Reduces, Leaf, IsOperand;
    var env := NoMacros<N>([]);
    LeafIs(x, env, cx);
    LeafIs(y, env, cx);
    LeafIs(z, env, cx);
    NamedIs(p);
    NamedIs(q);
    ReducesIs(p, q);
  }

  lemma LeftElab<N>(x: string, p: string, y: string, q: string, z: string, env: Env<N>, cx: Config<N>)
    requires IsOperator(p) && IsOperator(q) && IsOperand(x, cx) && IsOperand(y, cx) && IsOperand(z, cx)
    ensures var d := Elab(Bin(Named(q), Bin(Named(p), Leaf(x), Leaf(y)), Leaf(z)), env, cx);
      && (d.None? <==> q == "=" || (p == "=" && !Meant(x, cx).Var?))
      && (d.Some? ==> d.value.0 == Binary(Named(q), Binary(Named(p), Meant(x, cx), Meant(y, cx)), Meant(z, cx)))
  {
    hide Elab, Named, Level, IsWord, IsNumber, Lookup, Spelling, Toks, TokText, Leaf, Proper, Plain, Meant, IsOperand;
    var a, b, c := Leaf(x), Leaf(y), Leaf(z);
    LeafIs(x, env, cx);
    var e1 := Elab(a, env, cx).value.1;
    LeafIs(y, e1, cx);
    AssignIs(p);
    AssignIs(q);
    BinaryOf(Named(p), a, b, env, cx);
    BinaryOf(Named(q), Bin(Named(p), a, b), c, env, cx);
    LeafIs(z, Elab(b, e1, cx).value.1, cx);
  }

  lemma RightElab<N>(x: string, p: string, y: string, q: string, z: string, env: Env<N>, cx: Config<N>)
    requires IsOperator(p) && IsOperator(q) && IsOperand(x, cx) && IsOperand(y, cx) && IsOperand(z, cx)
    ensures var d := Elab(Bin(Named(p), Leaf(x), Bin(Named(q), Leaf(y), Leaf(z))), env, cx);
      && (d.None? <==> (p == "=" && !Meant(x, cx).Var?) || (q == "=" && !Meant(y, cx).Var?))
      && (d.Some? ==> d.value.0 == Binary(Named(p), Meant(x, cx), Binary(Named(q), Meant(y, cx), Meant(z, cx))))
  {
    hide Elab, Named, Level, IsWord, IsNumber, Lookup, Spelling, Toks, TokText, Leaf, Proper, Plain, Meant, IsOperand;
    var a, b, c := Leaf(x), Leaf(y), Leaf(z);
    LeafIs(x, env, cx);
    var e1 := Elab(a, env, cx).value.1;
    LeafIs(y, e1, cx);
    LeafIs(z, Elab(b, e1, cx).value.1, cx);
    AssignIs(p);
    AssignIs(q);
    BinaryOf(Named(q), b, c, e1, cx);
    BinaryOf(Named(p), a, Bin(Named(q), b, c), env, cx);
  }

  lemma AssignIs(t: string)
    requires IsOperator(t)
    ensures Named(t) == Assign <==> t == "="
  {
  }

  // ---------------------------------------------------------------- signs

  /** A unary operator takes the operand behind it before any binary operator does, on either side. */
  lemma SignsBindTightest<N>(u: string, x: string, p: string, y: string, vars: seq<string>, cx: Config<N>)
    requires IsSign(u) && IsOperator(p) && IsOperand(x, cx) && IsOperand(y, cx)
    ensures var out := Compile(u + x + p + y, vars, cx);
      if p == "=" then out.Rejected?
      else out.Accepted? && out.expr == Binary(Named(p), Unary(NamedSign(u), Meant(x, cx)), Meant(y, cx))
    ensures var out := Compile(x + p + u + y, vars, cx);
      if p == "=" && !Meant(x, cx).Var? then out.Rejected?
      else out.Accepted? && out.expr == Binary(Named(p), Meant(x, cx), Unary(NamedSign(u), Meant(y, cx)))
  {
    hide Named, NamedSign, Level, IsWord, IsNumber, Lookup, Spelling, Compile, Elab, Proper, Plain, Leaf, Text, Reduces;
    hide IsOperand, Meant;
    SignTexts(u, x, p, y, cx);
    SignsAreProper(u, x, p, y, cx);
    SignElab(u, x, p, y, NoMacros(vars), cx);
    CompileText(Bin(Named(p), Un(NamedSign(u), Leaf(x)), Leaf(y)), vars, cx);
    CompileText(Bin(Named(p), Leaf(x), Un(NamedSign(u), Leaf(y))), vars, cx);
  }

  lemma SignTexts<N>(u: string, x: string, p: string, y: string, cx: Config<N>)
    requires IsSign(u) && IsOperator(p) && IsOperand(x, cx) && IsOperand(y, cx)
    ensures Text(Bin(Named(p), Un(NamedSign(u), Leaf(x)), Leaf(y))) == u + x + p + y
    ensures Text(Bin(Named(p), Leaf(x), Un(NamedSign(u), Leaf(y)))) == x + p + u + y
  {
    hide Named, NamedSign, Level, IsWord, IsNumber, Lookup, Spelling, Toks, Elab, Proper, Plain, TokText, Render, Leaf;
    hide IsOperand;
    var env := NoMacros<N>([]);
    var op, v := NamedSign(u), Spelling(NamedSign(u));
    LeafIs(x, env, cx);
    LeafIs(y, env, cx);
    NamedIs(p);
    SignIs(u);
    TextOfOperator(p);
    ToksOfUn(op, Leaf(x));
    ToksOfUn(op, Leaf(y));
    ToksOfBin(Named(p), Un(op, Leaf(x)), Leaf(y));
    ToksOfBin(Named(p), Leaf(x), Un(op, Leaf(y)));
    assert [v] + [x] + [p] + [y] == [v, x, p, y] + [] && [x] + [p] + ([v] + [y]) == [x, p, v, y] + [];
    Rendered4(v, x, p, y, []);
    Rendered4(x, p, v, y, []);
    NothingRendered();
  }

  lemma ToksOfUn(op: Op, a: Cst)
    ensures Toks(Un(op, a)) == [Spelling(op)] + Toks(a)
  {
  }

  lemma SignsAreProper<N>(u: string, x: string, p: string, y: string, cx: Config<N>)
    requires IsSign(u) && IsOperator(p) && IsOperand(x, cx) && IsOperand(y, cx)
    ensures var c := Bin(Named(p), Un(NamedSign(u), Leaf(x)), Leaf(y)); Proper(c) && Plain(c)
    ensures var c := Bin(Named(p), Leaf(x), Un(NamedSign(u), Leaf(y))); Proper(c) && Plain(c)
  {
    hide Named, NamedSign, Level, IsWord, IsNumber, Lookup, Spelling, Toks, Elab, TokText, Reduces, Leaf, IsOperand;
    var env := NoMacros<N>([]);
    LeafIs(x, env, cx);
    LeafIs(y, env, cx);
    NamedIs(p);
    SignIs(u);
    SignsReduce(NamedSign(u), p);
  }

  lemma SignElab<N>(u: string, x: string, p: string, y: string, env: Env<N>, cx: Config<N>)
    requires IsSign(u) && IsOperator(p) && IsOperand(x, cx) && IsOperand(y, cx)
    ensures var d := Elab(Bin(Named(p), Un(NamedSign(u), Leaf(x)), Leaf(y)), env, cx);
      && (d.None? <==> p == "=")
      && (d.Some? ==> d.value.0 == Binary(Named(p), Unary(NamedSign(u), Meant(x, cx)), Meant(y, cx)))
    ensures var d := Elab(Bin(Named(p), Leaf(x), Un(NamedSign(u), Leaf(y))), env, cx);
      && (d.None? <==> p == "=" && !Meant(x, cx).Var?)
      && (d.Some? ==> d.value.0 == Binary(Named(p), Meant(x, cx), Unary(NamedSign(u), Meant(y, cx))))
  {
    hide Elab, Named, NamedSign, Level, IsWord, IsNumber, Lookup, Spelling, Toks, TokText, Leaf, Proper, Plain, Meant;
    hide IsOperand;
    var op, a, b := NamedSign(u), Leaf(x), Leaf(y);
    LeafIs(x, env, cx);
    LeafIs(y, Elab(a, env, cx).value.1, cx);
    AssignIs(p);
    UnaryOf(op, a, env, cx);
    UnaryOf(op, b, Elab(a, env, cx).value.1, cx);
    BinaryOf(Named(p), Un(op, a), b, env, cx);
    BinaryOf(Named(p), a, Un(op, b), env, cx);
  }

  lemma UnaryOf<N>(op: Op, arg: Cst, env: Env<N>, cx: Config<N>)
    requires Elab(arg, env, cx).Some?
    ensures var (x, e) := Elab(arg, env, cx).value; Elab(Un(op, arg), env, cx) == Some((Unary(op, x), e))
  {
  }

  // ---------------------------------------------------------------- the layers

  /** The levels with `**` apart, as it groups to the right while the others of its level group to the left. */
  function Rung(t: string): nat {
    if t == "**" then 0 else Level(t) + 1
  }

  /** The textbook grammar with one nonterminal for each rung: an operand of a binary operator is a sentence of its
      rung on the side it groups to, and of the rung below on the other; the operand of a unary operator has no
      binary operator outside of brackets, and an argument of a call has no comma. */
  predicate Layered(c: Cst, k: int) {
    match c
    case Lit(t) => IsNumber(t)
    case Id(n) => IsWord(n)
    case Un(op, a) => IsUnary(op) && Layered(a, -1)
    case Bin(op, l, r) =>
      var t := Spelling(op);
      && IsBinary(op) && Rung(t) <= k
      && (if t == "**" || t == "=" || t == "," then Layered(l, Rung(t) - 1) && Layered(r, Rung(t))
          else Layered(l, Rung(t)) && Layered(r, Rung(t) - 1))
    case Paren(a) => Layered(a, 11)
    case Empty => true
    case Apply(n, args) => IsWord(n) && forall a <- args :: Layered(a, 10)
  }

  /** The root operator of a tree is on rung `k` or below it. */
  predicate RootWithin(c: Cst, k: int) {
    c.Bin? ==> IsBinary(c.op) && Rung(Spelling(c.op)) <= k
  }

  /** The precedence grammar is the layered one. */
  lemma {:induction false} LayeredIs(c: Cst, k: int)
    requires -1 <= k <= 11
    ensures Layered(c, k) <==> Proper(c) && RootWithin(c, k)
    decreases c
  {
    hide Spelling, Rung, Reduces, IsWord, IsNumber;
    match c
    case Lit(_) => case Id(_) => case Empty =>
    case Un(op, a) =>
      LayeredIs(a, -1);
      if IsUnary(op) && Proper(a) { SignOperand(op, a); }
    case Bin(op, l, r) =>
      if IsBinary(op) {
        var t := Spelling(op);
        RungWithin(op);
        LayeredIs(l, Rung(t));
        LayeredIs(l, Rung(t) - 1);
        LayeredIs(r, Rung(t));
        LayeredIs(r, Rung(t) - 1);
        if Proper(l) { LeftOperand(op, l); }
        if Proper(r) { RightOperand(op, r); }
      }
    case Paren(a) =>
      LayeredIs(a, 11);
      if Proper(a) { RootWithinAll(a); }
    case Apply(n, args) =>
      forall a <- args ensures Layered(a, 10) <==> Proper(a) && !IsCommaNode(a) {
        LayeredIs(a, 10);
        if Proper(a) { NoCommaWithin(a); }
      }
  }

  lemma RungWithin(op: Op)
    requires IsBinary(op)
    ensures 0 <= Rung(Spelling(op)) <= 11
    ensures Rung(Spelling(op)) <= 10 <==> op != Comma
  {
  }

  lemma RootWithinAll(c: Cst)
    requires Proper(c)
    ensures RootWithin(c, 11)
  {
    hide Spelling, Rung;
    if c.Bin? { RungWithin(c.op); }
  }

  lemma NoCommaWithin(c: Cst)
    requires Proper(c)
    ensures RootWithin(c, 10) <==> !IsCommaNode(c)
  {
    hide Spelling, Rung;
    if c.Bin? { RungWithin(c.op); }
  }

  lemma SignOperand(op: Op, a: Cst)
    requires IsUnary(op) && Proper(a)
    ensures RightOk(a, op) <==> RootWithin(a, -1)
  {
    hide Spelling, Rung, Named;
    if a.Bin? {
      NamedBack(a.op);
      RungWithin(a.op);
      SignsReduce(op, Spelling(a.op));
    }
  }

  lemma RungIs(p: string, q: string)
    requires IsOperator(p) && IsOperator(q)
    ensures GroupsLeft(p, q) <==> Rung(p) < Rung(q) || (Rung(p) == Rung(q) && q != "**" && q != "=" && q != ",")
    ensures GroupsLeft(p, q) <==> Rung(p) < Rung(q) || (Rung(p) == Rung(q) && p != "**" && p != "=" && p != ",")
  {
  }

  lemma LeftOperand(op: Op, l: Cst)
    requires IsBinary(op) && Proper(l)
    ensures var t := Spelling(op);
      LeftOk(l, op) <==> RootWithin(l, if t == "**" || t == "=" || t == "," then Rung(t) - 1 else Rung(t))
  {
    hide Spelling, Rung, Named, Level, GroupsLeft, Reduces;
    NamedBack(op);
    if l.Bin? {
      NamedBack(l.op);
      ReducesIs(Spelling(l.op), Spelling(op));
      RungIs(Spelling(l.op), Spelling(op));
    } else if l.Un? {
      SignsReduce(l.op, Spelling(op));
    }
  }

  lemma RightOperand(op: Op, r: Cst)
    requires IsBinary(op) && Proper(r)
    ensures var t := Spelling(op);
      RightOk(r, op) <==> RootWithin(r, if t == "**" || t == "=" || t == "," then Rung(t) else Rung(t) - 1)
  {
    hide Spelling, Rung, Named, Level, GroupsLeft, Reduces;
    NamedBack(op);
    if r.Bin? {
      NamedBack(r.op);
      ReducesIs(Spelling(op), Spelling(r.op));
      RungIs(Spelling(op), Spelling(r.op));
    }
  }

  /** The text of a sentence of the layered grammar compiles to the expression its tree stands for, or is rejected when
      there is none; and a text of any length that is accepted, has tokens and no empty group is one. */
  lemma CompileLayered<N>(c: Cst, vars: seq<string>, cx: Config<N>)
    requires Layered(c, 11) && Plain(c)
    ensures var out, d := Compile(Text(c), vars, cx), Elab(c, NoMacros(vars), cx);
      if d.Some? then out == Accepted(d.value.0, d.value.1, |Text(c)|) else out.Rejected?
  {
    hide Layered, Compile, Elab, Text, Proper, Plain;
    LayeredIs(c, 11);
    CompileText(c, vars, cx);
  }

  lemma AcceptedIsLayered<N>(s: string, vars: seq<string>, cx: Config<N>) returns (c: Cst)
    requires NoEmptyGroups(s) && Lex(s, DEFAULT).toks != [] && Compile(s, vars, cx).Accepted?
    ensures Layered(c, 11) && Plain(c) && Toks(c) == Lex(s, DEFAULT).toks
    ensures var out := Compile(s, vars, cx); Elab(c, NoMacros(vars), cx) == Some((out.expr, out.env))
  {
    hide Layered, Compile, NoEmptyGroups, Proper, Plain;
    ExactIff(s, vars, cx);
    var toks, out := Lex(s, DEFAULT).toks, Compile(s, vars, cx);
    assert Derives(toks, NoMacros(vars), cx, out.expr, out.env);
    c :| Proper(c) && Plain(c) && Toks(c) == toks && Elab(c, NoMacros(vars), cx) == Some((out.expr, out.env));
    LayeredIs(c, 11);
    RootWithinAll(c);
  }
}
