/** White space and comments between tokens: when they change nothing.

    The scanner takes them run by run. A run of one character directly after a unary operator ends the compilation,
    since the flag that marks the operator outlives it. A newline after an operand stands for a comma, unless the text
    or a group ends there. A comment right behind a word is read as part of the word. Everything else is skipped. */
module ExprBlanks {
  import opened ExprOps
  import opened ExprLexer
  import opened ExprMachine

  /** White space and comments. A comment runs to the end of its line, so one that is not ended by a newline swallows
      what follows; it may only be the last thing in the text. */
  predicate IsGap(g: string, last: bool)
    decreases |g|
  {
    if |g| == 0 then true
    else if g[0] == '#' then
      var n := Span(g, NotNewline);
      (n < |g| || last) && IsGap(g[n..], last)
    else if g[0] == '\n' then IsGap(g[Span(g, IsSpace)..], last)
    else IsSpace(g[0]) && IsGap(g[Span(g, IsBlank)..], last)
  }

  /** The gap is skipped when the scanner's flags are `f`; `closing` says that the text or a group ends behind it. */
  predicate Silent(g: string, f: Flags, closing: bool)
    decreases |g|
  {
    if |g| == 0 then true
    else if g[0] == '#' then Silent(g[Span(g, NotNewline)..], f, closing)
    else
      var n := if g[0] == '\n' then Span(g, IsSpace) else Span(g, IsBlank);
      if n == 0 then false
      else if f.unary && n == 1 then false
      else if g[0] == '\n' && f.top then n == |g| && closing
      else Silent(g[n..], f, closing)
  }

  predicate IsBlanks(g: string) {
    forall i :: 0 <= i < |g| ==> IsBlank(g[i])
  }

  /** What follows a gap: nothing, or a token. */
  predicate StartsToken(r: string) {
    |r| > 0 ==> !IsSpace(r[0]) && r[0] != '#'
  }

  predicate Closing(r: string) {
    |r| == 0 || r[0] == ')'
  }

  /** Flags between tokens: the unary flag goes with an operand expected. */
  predicate Settled(f: Flags) {
    !f.comma && !(f.top && f.unary)
  }

  // ---------------------------------------------------------------- one gap

  /** A run that ends inside the gap, or is followed by a token, is the run of the whole text. */
  lemma SpanInside(g: string, r: string, p: char -> bool)
    requires Span(g, p) < |g| || (|r| > 0 ==> !p(r[0]))
    ensures Span(g + r, p) == Span(g, p)
  {
    SpanUnique(g + r, p, Span(g, p));
  }

  lemma SpanPositive(g: string, p: char -> bool)
    requires |g| > 0 && p(g[0])
    ensures Span(g, p) > 0
  {
  }

  lemma Behind(g: string, r: string, n: nat)
    requires n <= |g|
    ensures (g + r)[n..] == g[n..] + r
  {
  }

  /** The run a gap starts with. */
  function FirstRun(g: string): nat
    requires |g| > 0
  {
    if g[0] == '#' then Span(g, NotNewline) else if g[0] == '\n' then Span(g, IsSpace) else Span(g, IsBlank)
  }

  /** The scanner at the start of a gap. */
  lemma ScanGap(g: string, r: string, f: Flags)
    requires |g| > 0 && IsGap(g, |r| == 0) && StartsToken(r) && Settled(f)
    ensures var n := FirstRun(g);
      && 0 < n
      && Scan(g + r, f) ==
           if f.unary && n == 1 && g[0] != '#' then Abort(n)
           else if g[0] == '\n' && f.top && !(n == |g| && Closing(r)) then Token(",", n, AFTER_OPERATOR)
           else Skip(n, f)
  {
    hide Scan, IsGap;
    GapStart(g, |r| == 0);
    if g[0] == '#' {
      ScanComment(g, r, f);
    } else if g[0] == '\n' {
      ScanNewline(g, r, f);
    } else {
      ScanBlank(g, r, f);
    }
  }

  lemma ScanComment(g: string, r: string, f: Flags)
    requires |g| > 0 && g[0] == '#' && IsGap(g, |r| == 0)
    ensures Span(g, NotNewline) > 0 && Scan(g + r, f) == Skip(Span(g, NotNewline), f)
  {
    hide Lookup, LongestOp;
    SpanInside(g, r, NotNewline);
    SpanPositive(g, NotNewline);
  }

  lemma ScanBlank(g: string, r: string, f: Flags)
    requires |g| > 0 && IsBlank(g[0]) && StartsToken(r)
    ensures var n := Span(g, IsBlank);
      n > 0 && Scan(g + r, f) == if f.unary && n == 1 then Abort(n) else Skip(n, f)
  {
    hide Scan;
    SpanInside(g, r, IsBlank);
    SpanPositive(g, IsBlank);
    BlankToken(g + r, f);
  }

  /** What the scanner makes of blanks. */
  lemma BlankToken(s: string, f: Flags)
    requires |s| > 0 && IsBlank(s[0])
    ensures var n := Span(s, IsBlank); n > 0 ==> Scan(s, f) == if f.unary && n == 1 then Abort(n) else Skip(n, f)
  {
    hide Lookup, LongestOp, Span;
    var n := Span(s, IsBlank);
    assert NextToken(s, f) == (n, f);
    assert n > 0 ==> s[..n][0] == s[0];
  }

  lemma ScanNewline(g: string, r: string, f: Flags)
    requires |g| > 0 && g[0] == '\n' && IsGap(g, |r| == 0) && StartsToken(r) && Settled(f)
    ensures var n := Span(g, IsSpace);
      && n > 0
      && Scan(g + r, f) ==
           if f.unary && n == 1 then Abort(n)
           else if f.top && !(n == |g| && Closing(r)) then Token(",", n, AFTER_OPERATOR)
           else Skip(n, f)
  {
    hide Lookup, LongestOp, IsGap;
    SpanInside(g, r, IsSpace);
    SpanPositive(g, IsSpace);
    var n := Span(g, IsSpace);
    GapGoesOn(g, r, n);
    assert n < |g| ==> (g + r)[n] == g[n];
    assert n == |g| && |r| > 0 ==> (g + r)[n] == r[0];
    assert (g + r)[..n][0] == g[0];
    NewlineToken(g + r, f);
  }

  /** What the scanner makes of a newline and the white space behind it. */
  lemma NewlineToken(s: string, f: Flags)
    requires |s| > 0 && s[0] == '\n' && Settled(f)
    ensures var n := Span(s, IsSpace); n > 0 ==>
      Scan(s, f) ==
        if f.unary && n == 1 then Abort(n)
        else if f.top && !(n == |s| || s[n] == ')') then Token(",", n, AFTER_OPERATOR)
        else Skip(n, f)
  {
    hide Lookup, LongestOp;
    var n := Span(s, IsSpace);
    assert n > 0 ==> s[..n][0] == s[0];
    assert f.(comma := false) == f;
  }

  /** Inside a gap there is no closing parenthesis. */
  lemma GapGoesOn(g: string, r: string, n: nat)
    requires |g| > 0 && g[0] == '\n' && IsGap(g, |r| == 0) && n == Span(g, IsSpace)
    ensures n < |g| ==> g[n] != ')'
  {
    assert n < |g| ==> IsGap(g[n..], |r| == 0) && g[n..][0] == g[n];
  }

  /** What an audible gap makes of the text: the scan ends, or a comma comes first that is not in the text. */
  ghost predicate Spoils(l: Lexed, r: string) {
    !l.complete || (|l.toks| > 0 && l.toks[0] == "," && !(|r| > 0 && r[0] == ','))
  }

  /** A silent gap is skipped; any other spoils the text. */
  lemma {:induction false} LexGap(g: string, r: string, f: Flags)
    requires IsGap(g, |r| == 0) && StartsToken(r) && Settled(f)
    ensures Silent(g, f, Closing(r)) ==> Lex(g + r, f) == Lex(r, f)
    ensures !Silent(g, f, Closing(r)) ==> Spoils(Lex(g + r, f), r)
    decreases |g|
  {
    hide Scan, Lookup;
    if |g| == 0 {
      assert g + r == r;
    } else {
      ScanGap(g, r, f);
      var n := FirstRun(g);
      Behind(g, r, n);
      var sc := Scan(g + r, f);
      if sc.Skip? {
        LexGap(g[n..], r, f);
      } else if sc.Token? && |r| > 0 && r[0] == ',' {
        OperandMissing(g[n..], r, AFTER_OPERATOR);
      }
    }
  }

  /** Where an operand is expected, a comma ends the scan. */
  lemma {:induction false} OperandMissing(g: string, r: string, f: Flags)
    requires IsGap(g, |r| == 0) && |r| > 0 && r[0] == ',' && Settled(f) && !f.top && !f.unary
    ensures !Lex(g + r, f).complete
    decreases |g|
  {
    hide Scan;
    if |g| == 0 {
      assert g + r == r;
      CommaFails(r, f);
    } else {
      ScanGap(g, r, f);
      var n := FirstRun(g);
      Behind(g, r, n);
      OperandMissing(g[n..], r, f);
    }
  }

  lemma CommaFails(r: string, f: Flags)
    requires |r| > 0 && r[0] == ',' && !f.top
    ensures Scan(r, f).Fail?
  {
    assert r[..1] == ",";
  }

  // ---------------------------------------------------------------- whole texts

  /** The tokens with a gap before each and one at the end. */
  function Spaced(toks: seq<string>, gaps: seq<string>): string
    requires |gaps| == |toks| + 1
    decreases |toks|
  {
    if |toks| == 0 then gaps[0] else gaps[0] + (TokText(toks[0]) + Spaced(toks[1..], gaps[1..]))
  }

  ghost predicate AreGaps(gaps: seq<string>) {
    forall i :: 0 <= i < |gaps| ==> IsGap(gaps[i], i == |gaps| - 1)
  }

  /** The flags before gap `i`. */
  function Before(toks: seq<string>, f: Flags, i: nat): Flags
    requires i <= |toks|
  {
    if i == 0 then f else After(toks[i - 1])
  }

  /** Gap `i` changes nothing: a comment is not glued to a word, and the rest is silent. */
  predicate SilentAt(toks: seq<string>, gaps: seq<string>, f: Flags, i: nat)
    requires |gaps| == |toks| + 1 && i <= |toks|
  {
    && (i > 0 && IsWord(toks[i - 1]) && |gaps[i]| > 0 ==> gaps[i][0] != '#')
    && Silent(gaps[i], Before(toks, f, i), i == |toks| || toks[i] == ")")
  }

  predicate AllSilent(toks: seq<string>, gaps: seq<string>, f: Flags)
    requires |gaps| == |toks| + 1
  {
    forall i :: 0 <= i <= |toks| ==> SilentAt(toks, gaps, f, i)
  }

  lemma GapStart(g: string, last: bool)
    requires IsGap(g, last) && |g| > 0
    ensures g[0] == '#' || IsSpace(g[0])
  {
  }

  /** The text after a token: a gap, and then a token or nothing. */
  lemma SpacedStart(toks: seq<string>, gaps: seq<string>)
    requires |gaps| == |toks| + 1 && AreGaps(gaps)
    ensures var s := Spaced(toks, gaps);
      && (gaps[0] != "" ==> |s| > 0 && s[0] == gaps[0][0] && (s[0] == '#' || IsSpace(s[0])))
      && (gaps[0] == "" && |toks| == 0 ==> s == "")
      && (gaps[0] == "" && |toks| > 0 ==> s == TokText(toks[0]) + Spaced(toks[1..], gaps[1..]))
  {
    assert IsGap(gaps[0], 0 == |gaps| - 1);
    if gaps[0] != "" { GapStart(gaps[0], 0 == |gaps| - 1); }
  }

  lemma TokenStarts(t: string, rest: string)
    requires IsLexeme(t)
    ensures StartsToken(TokText(t) + rest) && |TokText(t)| > 0
    ensures Closing(TokText(t) + rest) <==> t == ")"
    ensures TokText(t)[0] == ',' ==> t == ","
  {
    hide Lookup;
    FirstCharOf(t);
    if IsBinaryTok(t) {
      BinaryTokIs(t);
      OperatorStarts(t);
    }
  }

  lemma OperatorStarts(t: string)
    requires IsBinaryTok(t)
    ensures t[0] != ')' && (t[0] == ',' ==> t == ",")
  {
    BinaryLookupIsSpelling(t);
  }

  lemma AfterIsSettled(t: string)
    ensures Settled(After(t)) && (IsLexeme(t) ==> (After(t).unary <==> IsUnaryTok(t)))
  {
    hide Lookup;
    if IsBinaryTok(t) { BinaryTokIs(t); }
  }

  /** A token and what follows it. Only a comment glued to a word can extend it. */
  lemma TokenThenGap(t: string, toks: seq<string>, gaps: seq<string>, f: Flags)
    requires IsLexeme(t) && Allows(f, t) && !f.comma && Moded(After(t), toks)
    requires |gaps| == |toks| + 1 && AreGaps(gaps)
    ensures var rest := Spaced(toks, gaps); var l := Lex(TokText(t) + rest, f);
      if IsWord(t) && |gaps[0]| > 0 && gaps[0][0] == '#' then l.toks == [] || l.toks[0] != t
      else l == Lex(rest, After(t)).(toks := [t] + Lex(rest, After(t)).toks)
  {
    hide Scan, Lookup, Spaced, IsGap, IsLexeme, Allows, After, IsNumber, IsWord, IsUnaryTok;
    var rest := Spaced(toks, gaps);
    SpacedStart(toks, gaps);
    TokenStarts(t, rest);
    NotUnaryAtWord(t, f);
    if IsWord(t) && |gaps[0]| > 0 && gaps[0][0] == '#' {
      GluedComment(t, rest, f);
    } else {
      if gaps[0] == "" && |toks| > 0 { NextDoesNotExtend(t, toks[0]); }
      GapDoesNotExtend(t, rest, gaps[0], toks);
      ScanRendered(t, rest, f);
      Behind(TokText(t), rest, |TokText(t)|);
      assert TokText(t)[|TokText(t)|..] + rest == rest;
    }
  }

  lemma NotUnaryAtWord(t: string, f: Flags)
    ensures IsWord(t) ==> TokText(t) == t
  {
  }

  lemma GapDoesNotExtend(t: string, rest: string, g: string, toks: seq<string>)
    requires |rest| > 0 && g != "" ==> (rest[0] == '#' && !IsWord(t)) || IsSpace(rest[0])
    ensures g != "" && IsNumber(t) && |rest| > 0 ==> !IsDigitOrDot(rest[0])
    ensures g != "" && IsWord(t) && |rest| > 0 ==> !IsVarChr(rest[0])
    ensures g != "" && |rest| > 0 ==> rest[0] !in ['*', '<', '>', '=', '&', '|']
  {
  }

  lemma GluedComment(t: string, rest: string, f: Flags)
    requires IsWord(t) && |rest| > 0 && rest[0] == '#'
    ensures var l := Lex(t + rest, f); l.toks == [] || l.toks[0] != t
  {
    WordGrows(t, rest);
    var s := t + rest;
    assert s[0] == t[0];
    WordScan(s, f);
    var n := Span(s, IsVarChr);
    assert |s[..n]| > |t|;
  }

  lemma WordScan(s: string, f: Flags)
    requires |s| > 0 && IsFirstVarChr(s[0]) && Span(s, IsVarChr) >= 2
    ensures var sc := Scan(s, f); sc.Fail? || (sc.Token? && sc.text == s[..Span(s, IsVarChr)])
  {
  }

  lemma WordGrows(t: string, rest: string)
    requires IsWord(t) && |rest| > 0 && rest[0] == '#'
    ensures Span(t + rest, IsVarChr) > |t|
  {
    var s := t + rest;
    forall i | 0 <= i <= |t| ensures IsVarChr(s[i]) {
      if i < |t| { assert s[i] == t[i]; }
    }
  }

  /** Every stream the flag automaton accepts, with any gaps between its tokens, is read back exactly when no gap is
      audible. */
  lemma {:induction false} LexSpaced(toks: seq<string>, gaps: seq<string>, f: Flags)
    requires Settled(f) && Moded(f, toks) && |gaps| == |toks| + 1 && AreGaps(gaps)
    ensures Lex(Spaced(toks, gaps), f) == Lexed(toks, true)
            <==> Silent(gaps[0], f, |toks| == 0 || toks[0] == ")") && forall i :: 0 < i <= |toks| ==> SilentAt(toks, gaps, f, i)
    decreases |toks|
  {
    hide IsGap, Lex, Silent, IsWord, Allows, IsLexeme, After;
    assert IsGap(gaps[0], 0 == |gaps| - 1);
    if |toks| == 0 {
      assert gaps[0] + "" == gaps[0];
      LexGap(gaps[0], "", f);
      NothingLexed(f);
    } else {
      var t, rest := toks[0], Spaced(toks[1..], gaps[1..]);
      RestSpaced(toks, gaps, f);
      AfterIsSettled(t);
      LexSpaced(toks[1..], gaps[1..], After(t));
      TokenThenGap(t, toks[1..], gaps[1..], f);
      TokenStarts(t, rest);
      LexGap(gaps[0], TokText(t) + rest, f);
      FirstOfMore(t, toks, Lex(rest, After(t)));
      CommaFirst(t);
    }
  }

  lemma NothingLexed(f: Flags)
    ensures Lex("", f) == Lexed([], true)
  {
  }

  lemma CommaFirst(t: string)
    ensures IsLexeme(t) && TokText(t) != "" && TokText(t)[0] != ',' ==> t != ","
  {
  }

  lemma FirstOfMore(t: string, toks: seq<string>, l: Lexed)
    requires |toks| > 0 && toks[0] == t
    ensures Lexed([t] + l.toks, l.complete) == Lexed(toks, true) <==> l == Lexed(toks[1..], true)
  {
    assert ([t] + l.toks)[1..] == l.toks;
    assert [t] + toks[1..] == toks;
  }

  /** The gaps behind the first token. */
  lemma RestSpaced(toks: seq<string>, gaps: seq<string>, f: Flags)
    requires |toks| > 0 && |gaps| == |toks| + 1 && AreGaps(gaps) && Moded(f, toks)
    ensures AreGaps(gaps[1..]) && IsLexeme(toks[0]) && Allows(f, toks[0]) && Moded(After(toks[0]), toks[1..])
    ensures (forall i :: 0 < i <= |toks| ==> SilentAt(toks, gaps, f, i))
            <==> SilentAt(toks, gaps, f, 1)
                 && forall i :: 0 < i <= |toks[1..]| ==> SilentAt(toks[1..], gaps[1..], After(toks[0]), i)
    ensures SilentAt(toks, gaps, f, 1) <==>
              && (IsWord(toks[0]) && |gaps[1]| > 0 ==> gaps[1][0] != '#')
              && Silent(gaps[1..][0], After(toks[0]), |toks[1..]| == 0 || toks[1..][0] == ")")
  {
    hide IsGap, Silent, IsWord, IsLexeme, Allows, After;
    forall i | 0 <= i < |gaps[1..]| ensures IsGap(gaps[1..][i], i == |gaps[1..]| - 1) {
      assert IsGap(gaps[i + 1], i + 1 == |gaps| - 1);
    }
    forall i | 0 < i <= |toks[1..]|
      ensures SilentAt(toks[1..], gaps[1..], After(toks[0]), i) <==> SilentAt(toks, gaps, f, i + 1)
    {
    }
    if forall i :: 0 < i <= |toks| ==> SilentAt(toks, gaps, f, i) {
      forall i | 0 < i <= |toks[1..]| ensures SilentAt(toks[1..], gaps[1..], After(toks[0]), i) {
        assert SilentAt(toks, gaps, f, i + 1);
      }
    }
    if forall i :: 0 < i <= |toks[1..]| ==> SilentAt(toks[1..], gaps[1..], After(toks[0]), i) {
      forall i | 1 < i <= |toks| ensures SilentAt(toks, gaps, f, i) {
        assert SilentAt(toks[1..], gaps[1..], After(toks[0]), i - 1);
      }
    }
  }

  /** The same for a text from its start. */
  lemma LexGaps(toks: seq<string>, gaps: seq<string>)
    requires Moded(DEFAULT, toks) && |gaps| == |toks| + 1 && AreGaps(gaps)
    ensures Lex(Spaced(toks, gaps), DEFAULT) == Lexed(toks, true) <==> AllSilent(toks, gaps, DEFAULT)
  {
    hide IsGap, Lex, Silent, Moded;
    LexSpaced(toks, gaps, DEFAULT);
    assert SilentAt(toks, gaps, DEFAULT, 0) <==> Silent(gaps[0], DEFAULT, |toks| == 0 || toks[0] == ")");
  }

  // ---------------------------------------------------------------- blanks only

  lemma {:induction false} BlanksAreSilent(g: string, f: Flags, closing: bool, last: bool)
    requires IsBlanks(g)
    ensures IsGap(g, last) && (Silent(g, f, closing) <==> !(f.unary && |g| == 1))
  {
    if |g| > 0 {
      SpanUnique(g, IsBlank, |g|);
      assert g[|g|..] == "";
    }
  }

  /** With blanks only, a text is read as its tokens exactly when no single blank stands after a unary operator: two
      are skipped, and so is one anywhere else. */
  lemma LexBlanks(toks: seq<string>, gaps: seq<string>)
    requires Moded(DEFAULT, toks) && |gaps| == |toks| + 1 && forall g <- gaps :: IsBlanks(g)
    ensures Lex(Spaced(toks, gaps), DEFAULT) == Lexed(toks, true)
            <==> forall i :: 0 <= i < |toks| && IsUnaryTok(toks[i]) ==> |gaps[i + 1]| != 1
  {
    hide Lex, Moded, IsGap, Silent, IsBlanks, After;
    forall i | 0 <= i < |gaps| ensures IsGap(gaps[i], i == |gaps| - 1) {
      BlanksAreSilent(gaps[i], DEFAULT, true, i == |gaps| - 1);
    }
    LexGaps(toks, gaps);
    forall i | 0 <= i <= |toks|
      ensures SilentAt(toks, gaps, DEFAULT, i) <==> !(i > 0 && IsUnaryTok(toks[i - 1]) && |gaps[i]| == 1)
    {
      BlankAt(toks, gaps, i);
    }
    if forall i :: 0 <= i < |toks| && IsUnaryTok(toks[i]) ==> |gaps[i + 1]| != 1 {
      forall i | 0 <= i <= |toks| ensures SilentAt(toks, gaps, DEFAULT, i) {
        if i > 0 && IsUnaryTok(toks[i - 1]) { assert |gaps[(i - 1) + 1]| != 1; }
      }
    } else {
      var i :| 0 <= i < |toks| && IsUnaryTok(toks[i]) && |gaps[i + 1]| == 1;
      assert !SilentAt(toks, gaps, DEFAULT, i + 1);
    }
  }

  lemma BlankAt(toks: seq<string>, gaps: seq<string>, i: nat)
    requires Moded(DEFAULT, toks) && |gaps| == |toks| + 1 && (forall g <- gaps :: IsBlanks(g)) && i <= |toks|
    ensures SilentAt(toks, gaps, DEFAULT, i) <==> !(i > 0 && IsUnaryTok(toks[i - 1]) && |gaps[i]| == 1)
  {
    hide Moded, IsGap, Silent, After, IsWord;
    assert gaps[i] in gaps;
    BlanksAreSilent(gaps[i], Before(toks, DEFAULT, i), i == |toks| || toks[i] == ")", true);
    if i > 0 {
      LexemeAt(DEFAULT, toks, i - 1);
      AfterIsSettled(toks[i - 1]);
    }
  }

  lemma {:induction false} LexemeAt(f: Flags, toks: seq<string>, i: nat)
    requires Moded(f, toks) && i < |toks|
    ensures IsLexeme(toks[i])
    decreases i
  {
    if i > 0 { LexemeAt(After(toks[0]), toks[1..], i - 1); }
  }

  // ---------------------------------------------------------------- inputs

  /** A single blank after a unary operator: the compilation stops there. */
  lemma OneBlankAborts<N>(cx: Config<N>)
    ensures Compile("- 1", [], cx) == Rejected(ERR_UNKNOWN, 2)
  {
    hide Scan, Step, Span;
    var s, st := "- 1", Init(NoMacros<N>([]));
    assert s == "-" + " 1" && s[1..] == " 1" && " 1" == " " + "1";
    ScanRenderedUnary("-u", " 1", DEFAULT) by { assert "-u"[..1] == "-"; }
    assert "-u"[..1] == "-";
    SpanUnique(" ", IsBlank, 1);
    ScanBlank(" ", "1", AFTER_UNARY);
    MinusSteps(st, cx);
  }

  lemma MinusSteps<N>(st: State<N>, cx: Config<N>)
    requires st == Init(NoMacros([]))
    ensures Step(st, "-u", cx).Ok?
  {
    hide Lookup;
    NonDigitIsNoNumber("-u", cx.ar);
    MinusIs();
  }

  lemma MinusIs()
    ensures Lookup("-u", Any) == UnaryMinus && Lookup("", Any) == Unknown
  {
  }

  /** Two are skipped. */
  lemma TwoBlanksAreSkipped()
    ensures Lex("-  1", DEFAULT) == Lexed(["-u", "1"], true)
  {
    var toks, gaps := ["-u", "1"], ["", "  ", ""];
    assert toks[1..] == ["1"] && gaps[1..] == ["  ", ""] && gaps[1..][1..] == [""] && toks[1..][1..] == [];
    assert Spaced(toks[1..], gaps[1..]) == "  1";
    assert Spaced(toks, gaps) == "-  1";
    assert Moded(AFTER_UNARY, ["1"]);
    LexBlanks(toks, gaps);
  }

  /** A newline between two operands is a comma. */
  lemma NewlineIsComma(x: string, y: string)
    requires IsNumber(x) && IsNumber(y)
    ensures Lex(x + "\n" + y, DEFAULT) == Lexed([x, ",", y], true)
  {
    hide Scan, IsNumber, Closing;
    NumberThen(x, "\n" + y);
    assert x + "\n" + y == x + ("\n" + y);
    NumberIs(y);
    SpanUnique("\n", IsSpace, 1);
    ScanNewline("\n", y, AFTER_NUMBER);
    assert ("\n" + y)[1..] == y;
    NumberAfterComma(y);
    assert [","] + [y] == [",", y] && [x] + [",", y] == [x, ",", y];
  }

  /** One behind the last operand is nothing, and a comment goes up to its newline. */
  lemma SkippedAtEnd(x: string, c: string)
    requires IsNumber(x) && forall i :: 0 <= i < |c| ==> c[i] != '\n'
    ensures Lex(x + "\n", DEFAULT) == Lexed([x], true)
    ensures Lex(x + ("#" + c), DEFAULT) == Lexed([x], true)
  {
    hide Scan, IsNumber;
    SpanUnique("\n", IsSpace, 1);
    NumberThen(x, "\n");
    assert "\n" + [] == "\n";
    ScanNewline("\n", [], AFTER_NUMBER);
    var k := "#" + c;
    NumberThen(x, k);
    SpanUnique(k, NotNewline, |k|);
    assert k + [] == k;
    ScanComment(k, [], AFTER_NUMBER);
    assert [x] + [] == [x];
  }

  lemma NumberIs(y: string)
    requires IsNumber(y)
    ensures |y| > 0 && StartsToken(y) && !Closing(y) && !IsWord(y)
    ensures After(y) == AFTER_NUMBER && Allows(DEFAULT, y) && Allows(AFTER_OPERATOR, y)
  {
  }

  lemma NumberThen(x: string, rest: string)
    requires IsNumber(x) && (|rest| > 0 ==> !IsDigitOrDot(rest[0]))
    ensures var r := Lex(rest, AFTER_NUMBER); Lex(x + rest, DEFAULT) == Lexed([x] + r.toks, r.complete)
  {
    hide Scan;
    ScanRenderedWord(x, rest, DEFAULT);
    assert (x + rest)[|x|..] == rest;
  }

  lemma NumberAfterComma(y: string)
    requires IsNumber(y)
    ensures Lex(y, AFTER_OPERATOR) == Lexed([y], true)
  {
    hide Scan;
    NumberIs(y);
    assert y + [] == y && y[|y|..] == [];
    ScanRenderedWord(y, [], AFTER_OPERATOR);
    NothingLexed(AFTER_NUMBER);
  }
}
