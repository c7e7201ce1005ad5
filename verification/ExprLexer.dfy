/** The lexer of the expression compiler: a hand-written scanner driven by a set of flags that say which kinds
    of token may come next. */
module ExprLexer {
  import opened ExprOps

  // ---------------------------------------------------------------- characters

  predicate IsSpace(c: char) {
    c == ' ' || '\t' <= c <= '\r'
  }

  predicate IsBlank(c: char) {
    IsSpace(c) && c != '\n'
  }

  predicate NotNewline(c: char) {
    c != '\n'
  }

  predicate IsDigit(c: char) {
    '0' <= c <= '9'
  }

  predicate IsDigitOrDot(c: char) {
    c == '.' || IsDigit(c)
  }

  predicate IsFirstVarChr(c: char) {
    (c >= '@' && c != '^' && c != '|') || c == '$'
  }

  predicate IsVarChr(c: char) {
    IsFirstVarChr(c) || c == '#' || IsDigit(c)
  }

  /** The length of the longest prefix whose characters all satisfy `p`. */
  function Span(s: string, p: char -> bool): (n: nat)
    ensures n <= |s|
    ensures forall i :: 0 <= i < n ==> p(s[i])
    ensures n < |s| ==> !p(s[n])
  {
    if |s| > 0 && p(s[0]) then 1 + Span(s[1..], p) else 0
  }

  lemma SpanUnique(s: string, p: char -> bool, n: nat)
    requires n <= |s|
    requires forall i :: 0 <= i < n ==> p(s[i])
    requires n < |s| ==> !p(s[n])
    ensures Span(s, p) == n
  {
    var m := Span(s, p);
    assert !(m < n);
    assert !(n < m);
  }

  // ---------------------------------------------------------------- flags

  /** The flag word of the scanner, one field a bit: an operator, an opening parenthesis, a closing one, a number
      or a word may come next; the last token was a unary operator; the last newline stands for a comma. */
  datatype Flags = Flags(top: bool, topen: bool, tclose: bool, tnumber: bool, tword: bool, unary: bool, comma: bool)

  const DEFAULT := Flags(false, true, false, true, true, false, false)
  const AFTER_OPERATOR := Flags(false, true, false, true, true, false, false)
  const AFTER_UNARY := Flags(false, true, false, true, true, true, false)
  const AFTER_OPEN := Flags(false, true, true, true, true, false, false)
  const AFTER_CLOSE := Flags(true, false, true, false, false, false, false)
  const AFTER_NUMBER := Flags(true, false, true, false, false, false, false)
  const AFTER_WORD := Flags(true, true, true, false, false, false, false)

  const ERR_UNKNOWN := 0
  const ERR_UNEXPECTED_NUMBER := -1
  const ERR_UNEXPECTED_WORD := -2
  const ERR_UNEXPECTED_PARENS := -3
  const ERR_MISS_EXPECTED_OPERAND := -4
  const ERR_UNKNOWN_OPERATOR := -5

  // ---------------------------------------------------------------- one token

  /** The length of the longest binary operator that prefixes `s`, or 0. */
  function LongestOp(s: string): (n: nat)
    ensures n <= |s|
    ensures n > 0 ==> Lookup(s[..n], BinaryOnly) != Unknown
    ensures forall k :: n < k <= |s| ==> Lookup(s[..k], BinaryOnly) == Unknown
  {
    if |s| >= 2 && Lookup(s[..2], BinaryOnly) != Unknown then 2
    else if |s| >= 1 && Lookup(s[..1], BinaryOnly) != Unknown then 1
    else 0
  }

  /** What scanning the next token of `s` under flags `f` returns: the number of characters consumed, or a
      negative error code, and the new flags. */
  function NextToken(s: string, f: Flags): (r: (int, Flags))
    ensures |s| == 0 ==> r == (0, f)
    ensures |s| > 0 ==> r.0 < 0 || 1 <= r.0 <= |s|
  {
    if |s| == 0 then (0, f)
    else if s[0] == '#' then (Span(s, NotNewline), f)
    else if s[0] == '\n' then
      var i := Span(s, IsSpace);
      if f.top then
        if i == |s| || s[i] == ')' then (i, f.(comma := false)) else (i, AFTER_OPERATOR.(comma := true))
      else (i, f)
    else if IsSpace(s[0]) then (Span(s, IsBlank), f)
    else if IsDigit(s[0]) then
      if !f.tnumber then (ERR_UNEXPECTED_NUMBER, f) else (Span(s, IsDigitOrDot), AFTER_NUMBER)
    else if IsFirstVarChr(s[0]) then
      if !f.tword then (ERR_UNEXPECTED_WORD, f) else (Span(s, IsVarChr), AFTER_WORD)
    else if s[0] == '(' || s[0] == ')' then
      if s[0] == '(' && f.topen then (1, AFTER_OPEN)
      else if s[0] == ')' && f.tclose then (1, AFTER_CLOSE)
      else (ERR_UNEXPECTED_PARENS, f)
    else if !f.top then
      if Lookup(s[..1], UnaryOnly) == Unknown then (ERR_MISS_EXPECTED_OPERAND, f) else (1, AFTER_UNARY)
    else if LongestOp(s) == 0 then (ERR_UNKNOWN_OPERATOR, f)
    else (LongestOp(s), AFTER_OPERATOR)
  }

  /** Characters that end the scan for an operator. */
  predicate StopsOperator(c: char) {
    IsVarChr(c) || IsSpace(c) || c == '(' || c == ')'
  }

  lemma OperatorHasNoStop(s: string, k: nat)
    requires 0 < k <= |s| && Lookup(s[..k], BinaryOnly) != Unknown
    ensures forall i :: 0 <= i < k ==> !StopsOperator(s[i])
  {
    var t := s[..k];
    BinaryLookupIsSpelling(t);
    forall i | 0 <= i < k ensures !StopsOperator(s[i]) {
      assert s[i] == t[i];
    }
  }

  /** A two-character operator is the only way a found operator can grow. */
  lemma OperatorGrowth(s: string, i: nat)
    requires 0 < i < |s|
    requires Lookup(s[..i], BinaryOnly) != Unknown && Lookup(s[..i + 1], BinaryOnly) == Unknown
    ensures LongestOp(s) == i
  {
    BinaryLookupIsSpelling(s[..i]);
    if i == 2 { assert s[..2] == s[..i]; }
  }

  /** The scanner as the source runs it: one loop for each kind of token. */
  method ReadToken(s: string, flags: Flags) returns (n: int, f: Flags)
    ensures (n, f) == NextToken(s, flags)
  {
    f := flags;
    if |s| == 0 { return 0, f; }
    var c := s[0];
    var i := 0;
    if c == '#' {
      while i < |s| && s[i] != '\n'
        invariant 0 <= i <= |s|
        invariant forall k :: 0 <= k < i ==> NotNewline(s[k])
      { i := i + 1; }
      SpanUnique(s, NotNewline, i);
      return i, f;
    } else if c == '\n' {
      while i < |s| && IsSpace(s[i])
        invariant 0 <= i <= |s|
        invariant forall k :: 0 <= k < i ==> IsSpace(s[k])
      { i := i + 1; }
      SpanUnique(s, IsSpace, i);
      if f.top {
        if i == |s| || s[i] == ')' {
          f := f.(comma := false);
        } else {
          f := AFTER_OPERATOR.(comma := true);
        }
      }
      return i, f;
    } else if IsSpace(c) {
      while i < |s| && IsSpace(s[i]) && s[i] != '\n'
        invariant 0 <= i <= |s|
        invariant forall k :: 0 <= k < i ==> IsBlank(s[k])
      { i := i + 1; }
      SpanUnique(s, IsBlank, i);
      return i, f;
    } else if IsDigit(c) {
      if !f.tnumber { return ERR_UNEXPECTED_NUMBER, f; }
      f := AFTER_NUMBER;
      while i < |s| && IsDigitOrDot(s[i])
        invariant 0 <= i <= |s|
        invariant forall k :: 0 <= k < i ==> IsDigitOrDot(s[k])
      { i := i + 1; }
      SpanUnique(s, IsDigitOrDot, i);
      return i, f;
    } else if IsFirstVarChr(c) {
      if !f.tword { return ERR_UNEXPECTED_WORD, f; }
      f := AFTER_WORD;
      while i < |s| && IsVarChr(s[i])
        invariant 0 <= i <= |s|
        invariant forall k :: 0 <= k < i ==> IsVarChr(s[k])
      { i := i + 1; }
      SpanUnique(s, IsVarChr, i);
      return i, f;
    } else if c == '(' || c == ')' {
      if c == '(' && f.topen {
        f := AFTER_OPEN;
      } else if c == ')' && f.tclose {
        f := AFTER_CLOSE;
      } else {
        return ERR_UNEXPECTED_PARENS, f;
      }
      return 1, f;
    } else if !f.top {
      if Lookup(s[..1], UnaryOnly) == Unknown { return ERR_MISS_EXPECTED_OPERAND, f; }
      return 1, AFTER_UNARY;
    } else {
      n := ReadOperator(s);
      if n == 0 { return ERR_UNKNOWN_OPERATOR, f; }
      return n, AFTER_OPERATOR;
    }
  }

  /** The operator loop: it keeps growing the token while what it has read is an operator, or while it has not
      yet found one. That this greedy scan yields the longest operator is a fact about the table. */
  method ReadOperator(s: string) returns (n: nat)
    ensures n == LongestOp(s)
  {
    hide Lookup, StopsOperator;
    var i, found := 0, false;
    while i < |s| && !StopsOperator(s[i])
      invariant 0 <= i <= |s|
      invariant !found ==> forall k :: 0 < k <= i ==> Lookup(s[..k], BinaryOnly) == Unknown
      invariant found ==> i > 0 && Lookup(s[..i], BinaryOnly) != Unknown
    {
      if Lookup(s[..i + 1], BinaryOnly) != Unknown {
        found := true;
      } else if found {
        OperatorGrowth(s, i);
        return i;
      }
      i := i + 1;
    }
    if i < |s| {
      forall k | i < k <= |s| ensures Lookup(s[..k], BinaryOnly) == Unknown {
        if Lookup(s[..k], BinaryOnly) != Unknown { OperatorHasNoStop(s, k); }
      }
    }
    n := if found then i else 0;
  }

  // ---------------------------------------------------------------- the token stream

  /** What one turn of the compiler's main loop makes of the scanner's answer before it looks at the parser's
      stacks: the end of the input, a scanner error, the silent abort on a character directly after a unary
      operator that is not one, nothing (blank space, comments), or a token to parse. */
  datatype Scanned =
    | End
    | Fail(code: int)
    | Abort(n: nat)
    | Skip(n: nat, flags: Flags)
    | Token(text: string, n: nat, flags: Flags)

  function Scan(s: string, f: Flags): (r: Scanned)
    ensures r.End? <==> |s| == 0
    ensures r.Skip? || r.Token? || r.Abort? ==> 1 <= r.n <= |s|
  {
    var (n, f1) := NextToken(s, f);
    if n == 0 then End
    else if n < 0 then Fail(n)
    else if s[0] == '#' then Skip(n, f1)
    else if f1.unary && n == 1 && s[0] !in ['-', '^', '!'] then Abort(n)
    else
      var tok := if f1.unary && n == 1 then [s[0], 'u'] else s[..n];
      if tok[0] == '\n' && f1.comma then Token(",", n, f1.(comma := false))
      else if IsSpace(tok[0]) then Skip(n, f1)
      else Token(tok, n, f1)
  }

  /** The tokens of an input up to its end, or up to the point where the scanner stops early. */
  datatype Lexed = Lexed(toks: seq<string>, complete: bool)

  function Lex(s: string, f: Flags): Lexed
    decreases |s|
  {
    match Scan(s, f)
    case End => Lexed([], true)
    case Fail(_) => Lexed([], false)
    case Abort(_) => Lexed([], false)
    case Skip(n, f') => Lex(s[n..], f')
    case Token(t, n, f') => var rest := Lex(s[n..], f'); rest.(toks := [t] + rest.toks)
  }

  predicate IsWord(t: string) {
    |t| > 0 && IsFirstVarChr(t[0]) && forall i :: 0 <= i < |t| ==> IsVarChr(t[i])
  }

  predicate IsNumber(t: string) {
    |t| > 0 && IsDigit(t[0]) && forall i :: 0 <= i < |t| ==> IsDigitOrDot(t[i])
  }

  predicate IsUnaryTok(t: string) {
    t == "-u" || t == "!u" || t == "^u"
  }

  predicate IsBinaryTok(t: string) {
    Lookup(t, BinaryOnly) != Unknown
  }

  predicate IsLexeme(t: string) {
    IsNumber(t) || IsWord(t) || t == "(" || t == ")" || IsUnaryTok(t) || IsBinaryTok(t)
  }

  /** Whether the flags let the token come next, and the flags it leaves behind. */
  predicate Allows(f: Flags, t: string) {
    if IsNumber(t) then f.tnumber
    else if IsWord(t) then f.tword
    else if t == "(" then f.topen
    else if t == ")" then f.tclose
    else if IsUnaryTok(t) then !f.top
    else IsBinaryTok(t) && f.top
  }

  function After(t: string): Flags {
    if IsNumber(t) then AFTER_NUMBER
    else if IsWord(t) then AFTER_WORD
    else if t == "(" then AFTER_OPEN
    else if t == ")" then AFTER_CLOSE
    else if IsUnaryTok(t) then AFTER_UNARY
    else AFTER_OPERATOR
  }

  /** A token stream that the flag automaton accepts from `f`. */
  predicate Moded(f: Flags, toks: seq<string>)
    decreases |toks|
  {
    |toks| > 0 ==> IsLexeme(toks[0]) && Allows(f, toks[0]) && Moded(After(toks[0]), toks[1..])
  }

  function AfterAll(f: Flags, toks: seq<string>): Flags {
    if |toks| == 0 then f else After(toks[|toks| - 1])
  }

  lemma {:induction false} ModedConcat(f: Flags, a: seq<string>, b: seq<string>)
    requires Moded(f, a) && Moded(AfterAll(f, a), b)
    ensures Moded(f, a + b)
    decreases |a|
  {
    hide IsLexeme, Allows, After;
    if |a| == 0 {
      assert a + b == b;
    } else {
      ModedConcat(After(a[0]), a[1..], b);
      assert (a + b)[1..] == a[1..] + b;
    }
  }

  lemma {:induction false} ModedPrefix(f: Flags, a: seq<string>, b: seq<string>)
    requires Moded(f, a + b)
    ensures Moded(f, a) && Moded(AfterAll(f, a), b)
    decreases |a|
  {
    if |a| == 0 {
      assert a + b == b;
    } else {
      assert (a + b)[1..] == a[1..] + b;
      ModedPrefix(After(a[0]), a[1..], b);
    }
  }

  lemma BinaryTokIs(t: string)
    requires IsBinaryTok(t)
    ensures IsLexeme(t) && After(t) == AFTER_OPERATOR && (forall f: Flags :: Allows(f, t) <==> f.top)
    ensures |t| > 0 && !IsVarChr(t[0]) && !IsDigitOrDot(t[0]) && !IsSpace(t[0]) && t[0] != '#' && !IsUnaryTok(t)
  {
    BinaryLookupIsSpelling(t);
  }

  lemma UnaryTokIs(c: char)
    requires c == '-' || c == '!' || c == '^'
    ensures var t := [c, 'u'];
      IsUnaryTok(t) && IsLexeme(t) && After(t) == AFTER_UNARY && forall f: Flags :: Allows(f, t) <==> !f.top
  {
  }

  lemma OperatorTokenIsModed(s: string, f: Flags)
    requires |s| > 0 && !f.comma && s[0] != '#' && !StopsOperator(s[0])
    ensures var r := Scan(s, f);
      !r.Skip? && (r.Token? ==> IsLexeme(r.text) && Allows(f, r.text) && r.flags == After(r.text))
  {
    hide IsLexeme, Allows, After, Lookup;
    var (n, f1) := NextToken(s, f);
    if n > 0 {
      var t := s[..n];
      assert t[0] == s[0];
      if f.top { BinaryTokIs(t); } else if s[0] in ['-', '^', '!'] { UnaryTokIs(s[0]); }
    }
  }

  lemma WordTokenIsModed(s: string, f: Flags)
    requires |s| > 0 && !f.comma && (IsDigit(s[0]) || IsFirstVarChr(s[0]) || s[0] == '(' || s[0] == ')')
    ensures var r := Scan(s, f);
      !r.Skip? && (r.Token? ==> IsLexeme(r.text) && Allows(f, r.text) && r.flags == After(r.text))
  {
    var (n, f1) := NextToken(s, f);
    if n > 0 {
      var t := s[..n];
      assert t[0] == s[0];
      if IsDigit(s[0]) { assert IsNumber(t); }
      else if IsFirstVarChr(s[0]) { assert IsWord(t); }
      else { assert t == [s[0]]; }
    }
  }

  /** Every token the scanner delivers is a lexeme the flags allowed, and skipped text leaves the flags alone. */
  lemma ScanIsModed(s: string, f: Flags)
    requires !f.comma
    ensures var r := Scan(s, f);
      && (r.Skip? ==> r.flags == f)
      && (r.Token? ==> IsLexeme(r.text) && Allows(f, r.text) && r.flags == After(r.text))
  {
    if |s| > 0 && s[0] != '#' && !IsSpace(s[0]) {
      if StopsOperator(s[0]) { WordTokenIsModed(s, f); } else { OperatorTokenIsModed(s, f); }
    } else if |s| > 0 {
      CommaIsModed(f);
    }
  }

  lemma CommaIsModed(f: Flags)
    ensures IsLexeme(",") && After(",") == AFTER_OPERATOR && (f.top ==> Allows(f, ","))
  {
  }

  /** Only streams the flag automaton accepts come out of the lexer. */
  lemma {:induction false} LexIsModed(s: string, f: Flags)
    requires !f.comma
    ensures Moded(f, Lex(s, f).toks)
    decreases |s|
  {
    ScanIsModed(s, f);
    match Scan(s, f)
    case End => case Fail(_) => case Abort(_) =>
    case Skip(n, f') => LexIsModed(s[n..], f');
    case Token(t, n, f') =>
      LexIsModed(s[n..], f');
      var r := Lex(s[n..], f');
      assert ([t] + r.toks)[1..] == r.toks;
  }

  // ---------------------------------------------------------------- printing tokens

  /** The text of a token: a unary operator is stored under its internal spelling. */
  function TokText(t: string): string {
    if IsUnaryTok(t) then t[..1] else t
  }

  function Render(toks: seq<string>): string {
    if |toks| == 0 then "" else TokText(toks[0]) + Render(toks[1..])
  }

  lemma ScanRenderedWord(t: string, rest: string, f: Flags)
    requires !f.comma && (IsNumber(t) || IsWord(t)) && Allows(f, t)
    requires IsNumber(t) && |rest| > 0 ==> !IsDigitOrDot(rest[0])
    requires IsWord(t) && |rest| > 0 ==> !IsVarChr(rest[0])
    ensures Scan(t + rest, f) == Token(t, |t|, After(t))
  {
    var s := t + rest;
    assert s[..|t|] == t;
    if IsNumber(t) {
      SpanUnique(s, IsDigitOrDot, |t|);
    } else {
      SpanUnique(s, IsVarChr, |t|);
    }
  }

  lemma ScanRenderedUnary(t: string, rest: string, f: Flags)
    requires !f.comma && IsUnaryTok(t) && !f.top
    ensures Scan(t[..1] + rest, f) == Token(t, 1, AFTER_UNARY)
  {
    var s := t[..1] + rest;
    assert s[..1] == [s[0]];
  }

  lemma ScanRenderedBinary(t: string, rest: string, f: Flags)
    requires !f.comma && IsBinaryTok(t) && f.top
    requires |rest| > 0 ==> rest[0] !in ['*', '<', '>', '=', '&', '|']
    ensures Scan(t + rest, f) == Token(t, |t|, AFTER_OPERATOR)
  {
    var s := t + rest;
    BinaryLookupIsSpelling(t);
    assert s[..|t|] == t;
    OperatorHasNoStop(t, |t|) by { assert t[..|t|] == t; }
    assert LongestOp(s) == |t| by {
      if |t| == 1 && |s| >= 2 {
        assert s[..2] == [s[0], s[1]] && s[1] == rest[0];
        NoOperatorEndsWith(s[0], s[1]);
      }
    }
    assert !StopsOperator(s[0]) && s[0] != '#';
  }

  lemma NoOperatorEndsWith(a: char, b: char)
    requires b !in ['*', '<', '>', '=', '&', '|']
    ensures Lookup([a, b], BinaryOnly) == Unknown
  {
  }

  /** A printed token followed by anything the flags allow after it is read back as exactly that token: no
      number, word or operator runs into what follows. */
  lemma ScanRendered(t: string, rest: string, f: Flags)
    requires !f.comma && IsLexeme(t) && Allows(f, t)
    requires IsNumber(t) && |rest| > 0 ==> !IsDigitOrDot(rest[0])
    requires IsWord(t) && |rest| > 0 ==> !IsVarChr(rest[0])
    requires IsBinaryTok(t) && |rest| > 0 ==> rest[0] !in ['*', '<', '>', '=', '&', '|']
    ensures Scan(TokText(t) + rest, f) == Token(t, |TokText(t)|, After(t))
  {
    hide Lookup, LongestOp;
    if IsNumber(t) || IsWord(t) {
      ScanRenderedWord(t, rest, f);
    } else if t == "(" || t == ")" {
      assert (t + rest)[..1] == t;
    } else if IsUnaryTok(t) {
      ScanRenderedUnary(t, rest, f);
    } else {
      ScanRenderedBinary(t, rest, f);
    }
  }

  lemma FirstCharOf(t: string)
    requires IsLexeme(t)
    ensures |TokText(t)| > 0
    ensures IsNumber(t) ==> IsDigit(TokText(t)[0])
    ensures IsWord(t) ==> IsFirstVarChr(TokText(t)[0])
    ensures IsUnaryTok(t) ==> TokText(t)[0] in ['-', '!', '^']
    ensures IsBinaryTok(t) ==> !IsVarChr(TokText(t)[0]) && !IsDigitOrDot(TokText(t)[0])
  {
    if IsBinaryTok(t) { BinaryLookupIsSpelling(t); }
  }

  /** The token after a number, word or operator never extends it. */
  lemma NextDoesNotExtend(t: string, u: string)
    requires IsLexeme(t) && IsLexeme(u) && Allows(After(t), u)
    ensures |TokText(u)| > 0
    ensures IsNumber(t) ==> !IsDigitOrDot(TokText(u)[0])
    ensures IsWord(t) ==> !IsVarChr(TokText(u)[0])
    ensures IsBinaryTok(t) ==> TokText(u)[0] !in ['*', '<', '>', '=', '&', '|']
  {
    hide Lookup;
    FirstCharOf(u);
    if IsBinaryTok(t) { BinaryTokIs(t); }
  }

  /** Printing without any blank space loses nothing: every stream the automaton accepts is read back from its
      own text. */
  lemma {:induction false} LexRender(toks: seq<string>, f: Flags)
    requires !f.comma && Moded(f, toks)
    ensures Lex(Render(toks), f) == Lexed(toks, true)
    decreases |toks|
  {
    if |toks| > 0 {
      var t, rest := toks[0], Render(toks[1..]);
      if |toks| > 1 { NextDoesNotExtend(t, toks[1]); }
      ScanRendered(t, rest, f);
      assert Render(toks)[|TokText(t)|..] == rest;
      LexRender(toks[1..], After(t));
      assert toks == [t] + toks[1..];
    }
  }
}
