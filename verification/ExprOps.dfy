/** Operators of the expression language: the operator table, precedence and associativity.

    `Lookup` scans the operator table in its own order, so the first entry that matches wins. The unary
    operators appear twice in that table: once under the internal spellings "-u", "!u", "^u" that the parser
    keeps on its stack, and once, at the very end, under the one-character spellings the lexer meets. */
module ExprOps {

  datatype Op =
    | Unknown
    | UnaryMinus | LogicalNot | BitwiseNot
    | Power | Divide | Multiply | Remainder
    | Plus | Minus
    | Shl | Shr
    | Lt | Le | Gt | Ge | Eq | Ne
    | BitAnd | BitOr | BitXor
    | LogicalAnd | LogicalOr
    | Assign | Comma

  /** The third argument of the table lookup: -1, 1 and 0 in the source. */
  datatype Want = Any | UnaryOnly | BinaryOnly

  predicate IsUnary(op: Op) {
    op.UnaryMinus? || op.LogicalNot? || op.BitwiseNot?
  }

  predicate IsBinary(op: Op) {
    !IsUnary(op) && !op.Unknown?
  }

  function Prec(op: Op): nat {
    match op
    case Unknown => 0
    case UnaryMinus => 1 case LogicalNot => 1 case BitwiseNot => 1
    case Power => 2 case Divide => 2 case Multiply => 2 case Remainder => 2
    case Plus => 3 case Minus => 3
    case Shl => 4 case Shr => 4
    case Lt => 5 case Le => 5 case Gt => 5 case Ge => 5 case Eq => 5 case Ne => 5
    case BitAnd => 6 case BitOr => 7 case BitXor => 8
    case LogicalAnd => 9 case LogicalOr => 10
    case Assign => 11 case Comma => 12
  }

  predicate LeftAssociative(op: Op) {
    IsBinary(op) && op != Assign && op != Power && op != Comma
  }

  /** True when an arriving operator `a` forces the operator `b` on top of the stack to be applied first. */
  predicate Reduces(a: Op, b: Op) {
    (LeftAssociative(a) && Prec(a) >= Prec(b)) || Prec(a) > Prec(b)
  }

  predicate Fits(op: Op, want: Want) {
    want.Any? || (want.UnaryOnly? <==> IsUnary(op))
  }

  function Lookup(s: string, want: Want): Op {
    if s == "-u" && Fits(UnaryMinus, want) then UnaryMinus
    else if s == "!u" && Fits(LogicalNot, want) then LogicalNot
    else if s == "^u" && Fits(BitwiseNot, want) then BitwiseNot
    else if s == "**" && Fits(Power, want) then Power
    else if s == "*" && Fits(Multiply, want) then Multiply
    else if s == "/" && Fits(Divide, want) then Divide
    else if s == "%" && Fits(Remainder, want) then Remainder
    else if s == "+" && Fits(Plus, want) then Plus
    else if s == "-" && Fits(Minus, want) then Minus
    else if s == "<<" && Fits(Shl, want) then Shl
    else if s == ">>" && Fits(Shr, want) then Shr
    else if s == "<" && Fits(Lt, want) then Lt
    else if s == "<=" && Fits(Le, want) then Le
    else if s == ">" && Fits(Gt, want) then Gt
    else if s == ">=" && Fits(Ge, want) then Ge
    else if s == "==" && Fits(Eq, want) then Eq
    else if s == "!=" && Fits(Ne, want) then Ne
    else if s == "&" && Fits(BitAnd, want) then BitAnd
    else if s == "|" && Fits(BitOr, want) then BitOr
    else if s == "^" && Fits(BitXor, want) then BitXor
    else if s == "&&" && Fits(LogicalAnd, want) then LogicalAnd
    else if s == "||" && Fits(LogicalOr, want) then LogicalOr
    else if s == "=" && Fits(Assign, want) then Assign
    else if s == "," && Fits(Comma, want) then Comma
    else if s == "-" && Fits(UnaryMinus, want) then UnaryMinus
    else if s == "!" && Fits(LogicalNot, want) then LogicalNot
    else if s == "^" && Fits(BitwiseNot, want) then BitwiseNot
    else Unknown
  }

  /** The spelling under which an operator sits on the parser's operator stack. */
  function Spelling(op: Op): string {
    match op
    case Unknown => ""
    case UnaryMinus => "-u" case LogicalNot => "!u" case BitwiseNot => "^u"
    case Power => "**" case Divide => "/" case Multiply => "*" case Remainder => "%"
    case Plus => "+" case Minus => "-"
    case Shl => "<<" case Shr => ">>"
    case Lt => "<" case Le => "<=" case Gt => ">" case Ge => ">=" case Eq => "==" case Ne => "!="
    case BitAnd => "&" case BitOr => "|" case BitXor => "^"
    case LogicalAnd => "&&" case LogicalOr => "||"
    case Assign => "=" case Comma => ","
  }

  predicate Found(op: Op) {
    && Lookup(Spelling(op), Any) == op
    && (IsBinary(op) ==> Lookup(Spelling(op), BinaryOnly) == op)
  }

  lemma TightSpelling(op: Op)
    requires Prec(op) <= 3
    ensures Found(op)
  {
  }

  lemma ComparisonSpelling(op: Op)
    requires 4 <= Prec(op) <= 5
    ensures Found(op)
  {
  }

  lemma BitwiseSpelling(op: Op)
    requires 6 <= Prec(op) <= 8
    ensures Found(op)
  {
  }

  lemma LooseSpelling(op: Op)
    requires Prec(op) >= 9
    ensures Found(op)
  {
  }

  /** Looking an operator up under its stack spelling gives that operator back, although "-" and "^" have two
      entries in the table. */
  lemma LookupSpelling(op: Op)
    ensures Lookup(Spelling(op), Any) == op
    ensures IsBinary(op) ==> Lookup(Spelling(op), BinaryOnly) == op
  {
    hide Lookup, Spelling;
    if Prec(op) <= 3 {
      TightSpelling(op);
    } else if Prec(op) <= 5 {
      ComparisonSpelling(op);
    } else if Prec(op) <= 8 {
      BitwiseSpelling(op);
    } else {
      LooseSpelling(op);
    }
  }

  /** Any spelling found by a binary-only lookup is the operator's stack spelling. */
  lemma BinaryLookupIsSpelling(s: string)
    requires Lookup(s, BinaryOnly) != Unknown
    ensures IsBinary(Lookup(s, BinaryOnly)) && s == Spelling(Lookup(s, BinaryOnly))
    ensures 1 <= |s| <= 2
  {
  }

  /** The ordering facts behind the shape of the parse tree: reduction is monotone along a chain of
      operators that did not reduce one another. `Power` against `Multiply` is the interesting pair: both
      have level 2, and only the asymmetry of `Reduces` keeps `**` tighter. */
  lemma ReducesThrough(a: Op, b: Op, c: Op)
    requires Reduces(a, b) && !Reduces(c, b)
    ensures Reduces(a, c)
  {
  }

  lemma ReducesBelow(a: Op, b: Op, c: Op)
    requires Reduces(b, c) && !Reduces(b, a)
    ensures !Reduces(c, a)
  {
  }
}
