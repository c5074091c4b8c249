/** The shapes and errors of the ABNF compiler's productions (ABNF.js lines
    120-251 and 322-353): where a concatenation must fail, how alternatives
    are wrapped, the order in which a rule name is resolved, what a group,
    an option and each terminal compile to, which definitions are refused,
    and how a run of double quotes in a spliced string is written. */
module AbnfShapes {
  import opened Wrappers
  import opened Numerals
  import opened AbnfLexer
  import opened AbnfFormat
  import opened AbnfCompiler
  import opened AbnfTemplate
  import opened AbnfFacts

  // What a production reads.

  /** The element read at `i` is `p`, ending at `e`. */
  predicate ElementReads(t: string, i: nat, rules: Rules, p: string, e: nat) {
    i <= |t| && Element(t, i, rules) == Success((p, e))
  }

  /** The concatenation loop from `i` reads the pieces `ps`, ending at `e`. */
  predicate PiecesRead(t: string, i: nat, rules: Rules, first: bool, ps: seq<Piece>, e: nat) {
    i <= |t| && ConcatFrom(t, i, rules, first) == Success((ps, e))
  }

  /** The concatenation read at `i` is `c`, ending at `e`. */
  predicate ConcatReads(t: string, i: nat, rules: Rules, c: string, e: nat) {
    i <= |t| && Concatenation(t, i, rules) == Success((c, e))
  }

  /** The alternatives read at `i` are `alts`, ending at `e`. */
  predicate AlternativesRead(t: string, i: nat, rules: Rules, alts: seq<string>, e: nat) {
    i <= |t| && Alternatives(t, i, rules) == Success((alts, e))
  }

  /** The alternation read at `i` is `p`, ending at `e`. */
  predicate AlternationReads(t: string, i: nat, rules: Rules, p: string, e: nat) {
    i <= |t| && Alternation(t, i, rules) == Success((p, e))
  }

  // Elements.

  /** A character no element starts with: not a rule name, a group, an
      option, a char-val, a num-val or a prose-val. */
  predicate StartsNoElement(c: char) {
    !IsAlpha(c) && c != '(' && c != '[' && c != '"' && c != '%' && c != '<'
  }

  /** Where no element starts, the element is the empty pattern and nothing
      is consumed. */
  lemma NoElementAt(t: string, i: nat, rules: Rules)
    requires i <= |t| && (i == |t| || StartsNoElement(t[i]))
    ensures Element(t, i, rules) == Success(("", i))
  {
  }

  /** The element is the empty pattern with nothing consumed exactly when
      no rule name, no group, no option and no terminal starts at `i`. */
  lemma EmptyElementExactly(t: string, i: nat, rules: Rules)
    requires i <= |t|
    ensures TerminalElement(t, i) == Success(("", i)) <==> NoTerminalAt(t, i)
    ensures Element(t, i, rules) == Success(("", i)) <==>
      RuleNameEnd(t, i).None? && !(i < |t| && t[i] in "([") && NoTerminalAt(t, i)
  {
  }

  /** A rule name is looked up among the core rules first: a core rule
      wins over a rule of the same name in the table. */
  lemma CoreReferenceFirst(t: string, i: nat, j: nat, rules: Rules)
    requires i <= |t| && RuleNameEnd(t, i) == Some(j) && Lower(t[i..j]) in CoreRules
    ensures Element(t, i, rules) == Success((CoreRules[Lower(t[i..j])], j))
  {
  }

  /** Any other rule name is replaced by the pattern of the rule defined
      above it, verbatim. */
  lemma DefinedReferenceInlined(t: string, i: nat, j: nat, rules: Rules)
    requires i <= |t| && RuleNameEnd(t, i) == Some(j)
    requires Lower(t[i..j]) !in CoreRules && Lower(t[i..j]) in rules
    ensures Element(t, i, rules) == Success((rules[Lower(t[i..j])], j))
  {
  }

  /** A name defined neither as a core rule nor above (a forward or a
      recursive reference) is an error. */
  lemma UndefinedReference(t: string, i: nat, j: nat, rules: Rules)
    requires i <= |t| && RuleNameEnd(t, i) == Some(j)
    requires Lower(t[i..j]) !in CoreRules && Lower(t[i..j]) !in rules
    ensures Element(t, i, rules) == Failure(UndefinedRule(Lower(t[i..j])))
  {
  }

  /** A group `( … )` is its alternation with no wrapper. */
  lemma GroupAddsNoWrapper(t: string, i: nat, rules: Rules, p: string, e: nat)
    requires i < |t| && t[i] == '(' && Alternation(t, SkipWsp(t, i + 1), rules) == Success((p, e))
    requires SkipWsp(t, e) < |t| && t[SkipWsp(t, e)] == ')'
    ensures Element(t, i, rules) == Success((p, SkipWsp(t, e) + 1))
  {
  }

  /** An option `[ … ]` is its alternation made optional: `(?:p)?`. */
  lemma OptionWraps(t: string, i: nat, rules: Rules, p: string, e: nat)
    requires i < |t| && t[i] == '[' && Alternation(t, SkipWsp(t, i + 1), rules) == Success((p, e))
    requires SkipWsp(t, e) < |t| && t[SkipWsp(t, e)] == ']'
    ensures Element(t, i, rules) == Success(("(?:" + p + ")?", SkipWsp(t, e) + 1))
  {
  }

  /** A group or an option left open is an error naming the missing delimiter. */
  lemma UnclosedGroup(t: string, i: nat, rules: Rules, p: string, e: nat)
    requires i < |t| && (t[i] == '(' || t[i] == '[')
    requires Alternation(t, SkipWsp(t, i + 1), rules) == Success((p, e))
    requires SkipWsp(t, e) == |t| || t[SkipWsp(t, e)] != (if t[i] == '(' then ')' else ']')
    ensures Element(t, i, rules) == Failure(ExpectedClose(if t[i] == '(' then ')' else ']'))
  {
  }

  /** A quoted string compiles to the case-insensitive pattern of the text
      between its quotes. */
  lemma CharValElement(t: string, i: nat, j: nat, rules: Rules)
    requires i <= |t| && CharValEnd(t, i) == Some(j)
    ensures Element(t, i, rules) == Success((LiteralPattern(t[i + 1..j - 1]), j))
  {
  }

  /** A prose value compiles like a quoted string: the text between `<` and
      `>`, escaped and case-insensitive. */
  lemma ProseElement(t: string, i: nat, j: nat, rules: Rules)
    requires i <= |t| && ProseValEnd(t, i) == Some(j)
    ensures Element(t, i, rules) == Success((LiteralPattern(t[i + 1..j - 1]), j))
  {
  }

  /** A value range `%xA-B` compiles to the class between the two code
      points, or fails when they are not increasing. */
  lemma RangeElement(t: string, i: nat, tok: NumToken, j: nat, rules: Rules)
    requires i <= |t| && NumRangeToken(t, i) == Some((tok, j))
    ensures RangePattern(tok).Success? ==> Element(t, i, rules) == Success((RangePattern(tok).value, j))
    ensures RangePattern(tok).Failure? ==> Element(t, i, rules) == Failure(RangeNotIncreasing)
  {
  }

  /** A dotted value `%xA.B.C`, not a range, compiles to the escapes of its
      code points in order. */
  lemma SequenceElement(t: string, i: nat, tok: NumToken, j: nat, rules: Rules)
    requires i <= |t| && NumRangeToken(t, i).None? && NumSeqToken(t, i) == Some((tok, j))
    ensures Element(t, i, rules) == Success((SequencePattern(tok.base, tok.groups), j))
  {
  }

  /** The code points of a dotted value are written one after the other:
      the pattern of two runs of groups is the two patterns joined. */
  lemma {:induction false} SequencePatternAppend(base: char, xs: seq<string>, ys: seq<string>)
    ensures SequencePattern(base, xs + ys) == SequencePattern(base, xs) + SequencePattern(base, ys)
    decreases |xs|
  {
    if xs == [] {
      assert xs + ys == ys;
    } else {
      assert (xs + ys)[0] == xs[0] && (xs + ys)[1..] == xs[1..] + ys;
      SequencePatternAppend(base, xs[1..], ys);
    }
  }

  /** One group is written as the escape of its code point. */
  lemma SequencePatternSingle(base: char, g: string)
    ensures SequencePattern(base, [g]) == FormatCodePoint(NumValue(base, g))
  {
  }

  // Concatenations.

  /** A repeat prefix with no element after it is an error. */
  lemma RepeatWithoutElement(t: string, i: nat, rules: Rules, first: bool, q: string, j: nat)
    requires i <= |t| && RepeatAt(t, i) == Success((q, j)) && q != ""
    requires j == |t| || StartsNoElement(t[j])
    ensures ConcatFrom(t, i, rules, first) == Failure(ExpectedElement)
  {
    NoElementAt(t, j, rules);
  }

  /** A concatenation must start with an element. */
  lemma MissingFirstElement(t: string, i: nat, rules: Rules)
    requires i <= |t| && (i == |t| || (StartsNoElement(t[i]) && !IsDigit(t[i]) && t[i] != '*'))
    ensures Concatenation(t, i, rules) == Failure(ExpectedElement)
  {
    assert RepeatAt(t, i) == Success(("", i));
    NoElementAt(t, i, rules);
    assert ConcatFrom(t, i, rules, true) == Failure(ExpectedElement);
  }

  /** A piece followed by white space and a character no element starts
      with ends the concatenation: the empty element after the blanks
      contributes nothing. */
  lemma LastPiece(t: string, i: nat, rules: Rules, p: string, e: nat)
    requires i <= |t| && ScanRepeat(t, i).None? && Element(t, i, rules) == Success((p, e)) && p != ""
    requires e < |t| && SkipWsp(t, e) > e
    requires SkipWsp(t, e) == |t| || (StartsNoElement(t[SkipWsp(t, e)]) && !IsDigit(t[SkipWsp(t, e)]) && t[SkipWsp(t, e)] != '*')
    ensures ConcatFrom(t, i, rules, true) == Success(([Piece(p, "")], SkipWsp(t, e)))
  {
    EmptyTail(t, SkipWsp(t, e), rules);
    assert RepeatAt(t, i) == Success(("", i));
    assert [Piece(p, "")] + [] == [Piece(p, "")];
  }

  /** After white space, no repeat and no element end the loop. */
  lemma EmptyTail(t: string, w: nat, rules: Rules)
    requires w <= |t| && (w == |t| || (StartsNoElement(t[w]) && !IsDigit(t[w]) && t[w] != '*'))
    ensures PiecesRead(t, w, rules, false, [], w)
  {
    assert RepeatAt(t, w) == Success(("", w));
    NoElementAt(t, w, rules);
  }

  /** One more piece: a repeat prefix, a non-empty element, white space,
      then the rest of the concatenation read from after the white space. */
  lemma ConcatStep(t: string, i: nat, rules: Rules, first: bool, q: string, j: nat, p: string, e: nat,
                   w: nat, tail: seq<Piece>, end: nat)
    requires i <= |t| && RepeatAt(t, i) == Success((q, j)) && ElementReads(t, j, rules, p, e) && p != ""
    requires e < |t| && w == SkipWsp(t, e) && w > e
    requires PiecesRead(t, w, rules, false, tail, end)
    ensures PiecesRead(t, i, rules, first, [Piece(p, q)] + tail, end)
  {
  }

  /** The last piece: white space follows it, and nothing after that. */
  lemma ConcatLastStep(t: string, i: nat, rules: Rules, first: bool, q: string, j: nat, p: string, e: nat, w: nat)
    requires i <= |t| && RepeatAt(t, i) == Success((q, j)) && ElementReads(t, j, rules, p, e) && p != ""
    requires e < |t| && w == SkipWsp(t, e) && w > e
    requires PiecesRead(t, w, rules, false, [], w)
    ensures PiecesRead(t, i, rules, first, [Piece(p, q)], w)
  {
    ConcatStep(t, i, rules, first, q, j, p, e, w, [], w);
    NothingAppended([Piece(p, q)]);
  }

  lemma NothingAppended(ps: seq<Piece>)
    ensures ps + [] == ps
  {
  }

  /** A non-empty element with no white space after it is the last piece,
      and the loop stops right after it. */
  lemma ConcatSingle(t: string, i: nat, rules: Rules, first: bool, q: string, j: nat, p: string, e: nat)
    requires i <= |t| && RepeatAt(t, i) == Success((q, j)) && ElementReads(t, j, rules, p, e) && p != ""
    requires e == |t| || SkipWsp(t, e) == e
    ensures PiecesRead(t, i, rules, first, [Piece(p, q)], e)
  {
  }

  /** The white space after a piece is consumed even when nothing follows
      it: the failure of the rest is the failure of the whole. */
  lemma ConcatTailFails(t: string, i: nat, rules: Rules, first: bool, q: string, j: nat, p: string, e: nat,
                        err: AbnfError)
    requires i <= |t| && RepeatAt(t, i) == Success((q, j)) && Element(t, j, rules) == Success((p, e)) && p != ""
    requires e < |t| && SkipWsp(t, e) > e
    requires ConcatFrom(t, SkipWsp(t, e), rules, false) == Failure(err)
    ensures ConcatFrom(t, i, rules, first) == Failure(err)
  {
  }

  /** A concatenation is its pieces, each written out in order. */
  lemma ConcatRendersPieces(t: string, i: nat, rules: Rules, ps: seq<Piece>, e: nat)
    requires PiecesRead(t, i, rules, true, ps, e)
    ensures ConcatReads(t, i, rules, RenderPieces(ps), e)
  {
  }

  // Alternations.

  /** A `/` after a concatenation (past white space) starts the next
      alternative, read after the white space that follows the slash. */
  lemma AlternativesStep(t: string, i: nat, rules: Rules, c: string, ce: nat, rest: seq<string>, end: nat)
    requires ConcatReads(t, i, rules, c, ce)
    requires SkipWsp(t, ce) < |t| && t[SkipWsp(t, ce)] == '/'
    requires AlternativesRead(t, SkipWsp(t, SkipWsp(t, ce) + 1), rules, rest, end)
    ensures AlternativesRead(t, i, rules, [c] + rest, end)
  {
  }

  /** Without a `/` after it, a concatenation is the last alternative, and
      the white space after it is consumed. */
  lemma AlternativesLast(t: string, i: nat, rules: Rules, c: string, ce: nat)
    requires ConcatReads(t, i, rules, c, ce)
    requires SkipWsp(t, ce) == |t| || t[SkipWsp(t, ce)] != '/'
    ensures AlternativesRead(t, i, rules, [c], SkipWsp(t, ce))
  {
  }

  /** One alternative is returned as it is. */
  lemma OneAlternative(t: string, i: nat, rules: Rules, c: string, e: nat)
    requires AlternativesRead(t, i, rules, [c], e)
    ensures AlternationReads(t, i, rules, c, e)
  {
  }

  /** Two or more alternatives are joined by `|` inside `(?:…)`. */
  lemma SeveralAlternatives(t: string, i: nat, rules: Rules, alts: seq<string>, e: nat)
    requires AlternativesRead(t, i, rules, alts, e) && |alts| >= 2
    ensures AlternationReads(t, i, rules, "(?:" + Join(alts, "|") + ")", e)
  {
  }

  // Definitions.

  /** A definition of a core rule's name is refused. */
  lemma CoreRuleRedefinition(t: string, i: nat, j: nat, rules: Rules)
    requires i <= |t| && RuleNameEnd(t, i) == Some(j) && Lower(t[i..j]) in CoreRules
    ensures RuleList(t, i, rules) == Failure(CoreRuleRedefined(Lower(t[i..j])))
  {
  }

  /** A rule name must be followed by `=` or `=/`. */
  lemma MissingDefinedAs(t: string, i: nat, j: nat, rules: Rules)
    requires i <= |t| && RuleNameEnd(t, i) == Some(j) && Lower(t[i..j]) !in CoreRules
    requires SkipWsp(t, j) == |t| || t[SkipWsp(t, j)] != '='
    ensures RuleList(t, i, rules) == Failure(ExpectedDefinedAs)
  {
  }

  /** `=/` adds to a rule that must already be defined. */
  lemma IncrementOfUndefined(t: string, i: nat, j: nat, k: nat, rules: Rules)
    requires i <= |t| && RuleNameEnd(t, i) == Some(j) && Lower(t[i..j]) !in CoreRules
    requires DefinedAs(t, SkipWsp(t, j)) == Some((true, k)) && Lower(t[i..j]) !in rules
    ensures RuleList(t, i, rules) == Failure(UndefinedIncrement(Lower(t[i..j])))
  {
  }

  /** A definition followed by anything but a line end (after optional
      blanks and a comment) is an error: no input is left unread. */
  lemma UnreadInput(t: string, i: nat, j: nat, k: nat, incremental: bool, p: string, e: nat, rules: Rules)
    requires i <= |t| && RuleNameEnd(t, i) == Some(j) && Lower(t[i..j]) !in CoreRules
    requires DefinedAs(t, SkipWsp(t, j)) == Some((incremental, k)) && (!incremental || Lower(t[i..j]) in rules)
    requires Alternation(t, SkipWsp(t, k), rules) == Success((p, e))
    requires SkipWsp(t, e) < |t| && CNl(t, SkipWsp(t, e)).None?
    ensures RuleList(t, i, rules) == Failure(ExpectedNewLine)
  {
  }

  /** A definition followed by a line end is stored, and the loop goes on
      with the next line and the grown table. */
  lemma DefinitionStored(t: string, i: nat, j: nat, k: nat, incremental: bool, p: string, e: nat, n: nat, rules: Rules)
    requires i <= |t| && RuleNameEnd(t, i) == Some(j) && Lower(t[i..j]) !in CoreRules
    requires DefinedAs(t, SkipWsp(t, j)) == Some((incremental, k)) && (!incremental || Lower(t[i..j]) in rules)
    requires Alternation(t, SkipWsp(t, k), rules) == Success((p, e))
    requires SkipWsp(t, e) < |t| && CNl(t, SkipWsp(t, e)) == Some(n)
    ensures RuleList(t, i, rules) == RuleList(t, n, Define(rules, Lower(t[i..j]), incremental, p))
  {
  }

  // Runs of double quotes in spliced strings.

  function Quotes(n: nat): (s: string)
    ensures |s| == n && forall k | 0 <= k < n :: s[k] == '"'
  {
    seq(n, _ => '"')
  }

  /** A string of two or more double quotes becomes `n(DQUOTE)`. */
  lemma QuoteRunAlone(n: nat)
    requires n >= 2
    ensures StringToAbnf(Quotes(n)) == Decimal(n) + "(DQUOTE)"
  {
    var body := " " + Decimal(n) + "(DQUOTE) ";
    QuoteRunReplaced(n);
    QuoteRunPairs(n, body);
    QuoteRunTrim(n, body);
  }

  /** Text, a run of `n` double quotes, text: the run becomes a DQUOTE
      reference standing between two literals, `"a" DQUOTE "b"` for one
      quote and `"a" n(DQUOTE) "b"` for more. */
  lemma QuoteRunBetween(a: string, n: nat, b: string)
    requires a != "" && b != "" && QuoteFree(a) && QuoteFree(b) && n >= 1
    ensures StringToAbnf(a + Quotes(n) + b)
      == "\"" + a + "\" " + (if n == 1 then "DQUOTE" else Decimal(n) + "(DQUOTE)") + " \"" + b + "\""
  {
    var m := if n == 1 then "DQUOTE" else Decimal(n) + "(DQUOTE)";
    var q := "\"" + a + "\" " + m + " \"" + b + "\"";
    RunBetweenReplaced(a, n, b);
    assert QuoteRunText(n) == "\" " + m + " \"";
    RunBetweenPairs(a, m, b, n);
    TrimQuoted(q);
  }

  /** Only the run of quotes is rewritten; the text around it is kept. */
  lemma RunBetweenReplaced(a: string, n: nat, b: string)
    requires b != "" && QuoteFree(a) && QuoteFree(b) && n >= 1
    ensures ReplaceQuoteRuns(a + Quotes(n) + b) == a + QuoteRunText(n) + b
  {
    assert a + Quotes(n) + b == a + (Quotes(n) + b);
    ReplaceAfterQuoteFree(a, Quotes(n) + b);
    RunThenText(n, b);
  }

  lemma {:induction false} ReplaceAfterQuoteFree(a: string, x: string)
    requires QuoteFree(a)
    ensures ReplaceQuoteRuns(a + x) == a + ReplaceQuoteRuns(x)
    decreases |a|
  {
    if a != [] {
      assert (a + x)[0] == a[0] && (a + x)[1..] == a[1..] + x;
      assert QuoteFree(a[1..]);
      ReplaceAfterQuoteFree(a[1..], x);
      assert [a[0]] + (a[1..] + ReplaceQuoteRuns(x)) == a + ReplaceQuoteRuns(x);
    } else {
      assert a + x == x;
    }
  }

  /** A run of exactly `n` quotes, then quote-free text. */
  lemma RunThenText(n: nat, b: string)
    requires b != "" && QuoteFree(b) && n >= 1
    ensures ReplaceQuoteRuns(Quotes(n) + b) == QuoteRunText(n) + b
  {
    var s := Quotes(n) + b;
    assert s[n] == b[0];
    assert s[QuoteRun(s)] != '"' ==> QuoteRun(s) >= n;
    assert QuoteRun(s) == n;
    assert s[n..] == b;
    ReplaceQuoteFree(b);
  }

  /** No two quotes are adjacent, so no empty literal is dropped. */
  lemma RunBetweenPairs(a: string, m: string, b: string, n: nat)
    requires a != "" && b != "" && QuoteFree(a) && QuoteFree(b)
    requires m == if n == 1 then "DQUOTE" else Decimal(n) + "(DQUOTE)"
    ensures RemoveEmptyPairs("\"" + (a + ("\" " + m + " \"") + b) + "\"")
      == "\"" + a + "\" " + m + " \"" + b + "\""
  {
    var mid := " " + m + " ";
    MiddleQuoteFree(m, n);
    Regroup(a, m, b);
    PairsKept(a, mid, b);
  }

  lemma PairsKept(a: string, mid: string, b: string)
    requires a != "" && mid != "" && b != "" && QuoteFree(a) && QuoteFree(mid) && QuoteFree(b)
    ensures var x := "\"" + a + ("\"" + mid + ("\"" + b + "\""));
      RemoveEmptyPairs(x) == x
  {
    var bq := "\"" + b + "\"";
    QuotedPairsKept(b);
    QuoteThenFree(mid, bq);
    QuoteThenFree(a, "\"" + mid + bq);
  }

  /** The same text, grouped around its quotes. */
  lemma Regroup(a: string, m: string, b: string)
    ensures var x := "\"" + a + ("\"" + (" " + m + " ") + ("\"" + b + "\""));
      && "\"" + (a + ("\" " + m + " \"") + b) + "\"" == x
      && "\"" + a + "\" " + m + " \"" + b + "\"" == x
  {
  }

  lemma MiddleQuoteFree(m: string, n: nat)
    requires m == if n == 1 then "DQUOTE" else Decimal(n) + "(DQUOTE)"
    ensures QuoteFree(" " + m + " ")
  {
    if n != 1 {
      DecimalQuoteFree(n);
    }
  }

  /** A quote and non-empty quote-free text are kept as they are. */
  lemma QuoteThenFree(c: string, tail: string)
    requires c != "" && QuoteFree(c)
    ensures RemoveEmptyPairs("\"" + c + tail) == "\"" + c + RemoveEmptyPairs(tail)
  {
    var s := "\"" + c + tail;
    assert s[1] == c[0] && s[1..] == c + tail;
    RemovePairsQuoteFree(c, tail);
  }

  lemma QuoteRunReplaced(n: nat)
    requires n >= 2
    ensures ReplaceQuoteRuns(Quotes(n)) == "\" " + Decimal(n) + "(DQUOTE) \""
  {
    var s := Quotes(n);
    assert QuoteRun(s) == n;
    assert s[n..] == [];
  }

  lemma DecimalQuoteFree(n: nat)
    ensures QuoteFree(Decimal(n)) && Decimal(n) != [] && !IsJsWhitespace(Decimal(n)[0])
  {
    assert forall k | 0 <= k < |Decimal(n)| :: IsDigitOf(Decimal(n)[k], 10);
  }

  /** The two empty literals around the run are dropped. */
  lemma QuoteRunPairs(n: nat, body: string)
    requires body == " " + Decimal(n) + "(DQUOTE) "
    ensures RemoveEmptyPairs("\"" + ("\" " + Decimal(n) + "(DQUOTE) \"") + "\"") == body
  {
    var q := "\"" + ("\" " + Decimal(n) + "(DQUOTE) \"") + "\"";
    assert q == "\"\"" + (body + "\"\"");
    assert q[0] == '"' && q[1] == '"' && q[2..] == body + "\"\"";
    DecimalQuoteFree(n);
    assert QuoteFree(body) by {
      assert forall k | 1 <= k < |body| - 9 :: body[k] == Decimal(n)[k - 1];
    }
    RemovePairsQuoteFree(body, "\"\"");
    assert "\"\""[2..] == "";
    assert RemoveEmptyPairs("\"\"") == "";
    assert body + "" == body;
  }

  /** Only the blank at each end is trimmed. */
  lemma QuoteRunTrim(n: nat, body: string)
    requires body == " " + Decimal(n) + "(DQUOTE) "
    ensures Trim(body) == Decimal(n) + "(DQUOTE)"
  {
    var inner := Decimal(n) + "(DQUOTE)";
    InnerEnds(n, inner);
    assert body == " " + (inner + " ");
    TrimStartBlank(inner + " ");
    TrimEndBlank(inner);
  }

  lemma InnerEnds(n: nat, inner: string)
    requires inner == Decimal(n) + "(DQUOTE)"
    ensures inner != [] && !IsJsWhitespace(inner[0]) && !IsJsWhitespace(inner[|inner| - 1])
    ensures (inner + " ")[0] == inner[0]
  {
    DecimalQuoteFree(n);
    assert inner[0] == Decimal(n)[0];
  }

  lemma TrimStartBlank(x: string)
    requires x != [] && !IsJsWhitespace(x[0])
    ensures TrimStart(" " + x) == x
  {
    assert (" " + x)[1..] == x;
  }

  lemma TrimEndBlank(x: string)
    requires x != [] && !IsJsWhitespace(x[|x| - 1])
    ensures TrimEnd(x + " ") == x
  {
    assert (x + " ")[..|x|] == x;
  }
}
