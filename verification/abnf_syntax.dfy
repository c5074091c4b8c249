/** The ABNF compiler read against an independent account of what it
    compiles. A rule body is given as a syntax tree (section 4 of RFC 5234:
    alternation, concatenation, repetition, element); `Print` writes it as
    grammar text with single blanks, and `Translate` says, production by
    production, which pattern the tree stands for. The main lemma,
    `AlternationRoundTrip`, shows that the compiler's recursive descent
    over the printed text returns exactly that pattern and consumes the
    whole text. */
module AbnfSyntax {
  import opened Wrappers
  import opened Numerals
  import opened Matcher
  import opened AbnfLexer
  import opened AbnfFormat
  import opened AbnfCompiler
  import opened AbnfShapes

  datatype Elem =
    | RuleRef(name: string)
    | Group(body: Alt)
    | Optional(body: Alt)
    | CharVal(text: string)
    | NumRange(base: char, lo: string, hi: string)
    | NumSeq(base: char, groups: seq<string>)
    | ProseVal(text: string)

  datatype Repetition = Repetition(repeat: Option<Repeat>, element: Elem)

  datatype Concat = Concat(items: seq<Repetition>)

  datatype Alt = Alt(alts: seq<Concat>)

  // Printing.

  function PrintCount(n: Option<nat>): string {
    if n.Some? then Decimal(n.value) else ""
  }

  /** A repeat prefix: `n`, or `min*max` with either side left out. */
  function PrintRepeat(rep: Option<Repeat>): string {
    match rep
    case None => ""
    case Some(Exact(n)) => Decimal(n)
    case Some(Between(lo, hi)) => PrintCount(lo) + "*" + PrintCount(hi)
  }

  function PrintElem(e: Elem): string
    decreases e, 0, 0
  {
    match e
    case RuleRef(name) => name
    case Group(a) => "(" + PrintAlt(a) + ")"
    case Optional(a) => "[" + PrintAlt(a) + "]"
    case CharVal(s) => "\"" + s + "\""
    case NumRange(b, lo, hi) => "%" + [b] + lo + "-" + hi
    case NumSeq(b, gs) => "%" + [b] + Join(gs, ".")
    case ProseVal(s) => "<" + s + ">"
  }

  function PrintRepetition(r: Repetition): string
    decreases r, 0, 0
  {
    PrintRepeat(r.repeat) + PrintElem(r.element)
  }

  /** The repetitions from the `k`th, separated by one blank. */
  function PrintItems(c: Concat, k: nat): string
    decreases c, 0, |c.items| - k
  {
    if k >= |c.items| then ""
    else if k + 1 == |c.items| then PrintRepetition(c.items[k])
    else PrintRepetition(c.items[k]) + " " + PrintItems(c, k + 1)
  }

  function PrintConcat(c: Concat): string
    decreases c, 1, 0
  {
    PrintItems(c, 0)
  }

  /** The concatenations from the `k`th, separated by ` / `. */
  function PrintAlts(a: Alt, k: nat): string
    decreases a, 0, |a.alts| - k
  {
    if k >= |a.alts| then ""
    else if k + 1 == |a.alts| then PrintConcat(a.alts[k])
    else PrintConcat(a.alts[k]) + " / " + PrintAlts(a, k + 1)
  }

  function PrintAlt(a: Alt): string
    decreases a, 1, 0
  {
    PrintAlts(a, 0)
  }

  // Well-formed trees: what the grammar allows, references resolved
  // against `rules`, and no empty literal (an empty pattern is what the
  // compiler reads as "no element here").

  predicate WfElem(e: Elem, rules: Rules)
    decreases e, 0, 0
  {
    match e
    case RuleRef(n) =>
      IsRuleName(n) && Reference(Lower(n), rules).Success? && Reference(Lower(n), rules).value != ""
    case Group(a) => WfAlt(a, rules)
    case Optional(a) => WfAlt(a, rules)
    case CharVal(s) => s != "" && forall k | 0 <= k < |s| :: IsCharValChar(s[k])
    case NumRange(b, lo, hi) =>
      && IsBaseLetter(b) && AllOf(lo, DigitClass(b)) && AllOf(hi, DigitClass(b))
      && !NotLess(NumValue(b, lo), NumValue(b, hi))
    case NumSeq(b, gs) => IsBaseLetter(b) && gs != [] && forall g | g in gs :: AllOf(g, DigitClass(b))
    case ProseVal(s) => s != "" && forall k | 0 <= k < |s| :: IsProseChar(s[k])
  }

  predicate WfRepetition(r: Repetition, rules: Rules)
    decreases r, 0, 0
  {
    FormatRepeat(r.repeat).Success? && WfElem(r.element, rules)
  }

  predicate WfConcat(c: Concat, rules: Rules)
    decreases c, 0, 0
  {
    |c.items| >= 1 && forall k | 0 <= k < |c.items| :: WfRepetition(c.items[k], rules)
  }

  predicate WfAlt(a: Alt, rules: Rules)
    decreases a, 0, 0
  {
    |a.alts| >= 1 && forall k | 0 <= k < |a.alts| :: WfConcat(a.alts[k], rules)
  }

  // Translation: the pattern each production stands for.

  /** A reference is the referenced rule's pattern inlined; a group is its
      alternation; an option is its alternation made optional; a char-val
      or prose-val is a case-insensitive literal; a range is a character
      class; a dotted value is its characters in order. */
  function TranslateElem(e: Elem, rules: Rules): (p: string)
    requires WfElem(e, rules)
    ensures p != ""
    decreases e, 0, 0
  {
    match e
    case RuleRef(n) => Reference(Lower(n), rules).value
    case Group(a) => TranslateAlt(a, rules)
    case Optional(a) => "(?:" + TranslateAlt(a, rules) + ")?"
    case CharVal(s) => LiteralPatternCons(s); LiteralPattern(s)
    case NumRange(b, lo, hi) => "[" + FormatCodePoint(NumValue(b, lo)) + "-" + FormatCodePoint(NumValue(b, hi)) + "]"
    case NumSeq(b, gs) =>
      assert SequencePattern(b, gs) == FormatCodePoint(NumValue(b, gs[0])) + SequencePattern(b, gs[1..]);
      SequencePattern(b, gs)
    case ProseVal(s) => LiteralPatternCons(s); LiteralPattern(s)
  }

  /** The pieces of the repetitions from the `k`th: each element's pattern
      with the quantifier of its repeat prefix. */
  function PiecesOf(c: Concat, k: nat, rules: Rules): (ps: seq<Piece>)
    requires WfConcat(c, rules)
    ensures |ps| == if k < |c.items| then |c.items| - k else 0
    ensures forall j | 0 <= j < |ps| :: ps[j].element != ""
    decreases c, 0, |c.items| - k
  {
    if k >= |c.items| then []
    else
      var r := c.items[k];
      assert WfRepetition(r, rules);
      [Piece(TranslateElem(r.element, rules), FormatRepeat(r.repeat).value)] + PiecesOf(c, k + 1, rules)
  }

  function TranslateConcat(c: Concat, rules: Rules): (p: string)
    requires WfConcat(c, rules)
    ensures p != ""
    decreases c, 1, 0
  {
    var ps := PiecesOf(c, 0, rules);
    assert RenderPieces(ps) == RenderPiece(ps[0]) + RenderPieces(ps[1..]);
    RenderPieces(ps)
  }

  function TranslateAlts(a: Alt, k: nat, rules: Rules): (ps: seq<string>)
    requires WfAlt(a, rules)
    ensures |ps| == if k < |a.alts| then |a.alts| - k else 0
    decreases a, 0, |a.alts| - k
  {
    if k >= |a.alts| then [] else [TranslateConcat(a.alts[k], rules)] + TranslateAlts(a, k + 1, rules)
  }

  /** One alternative stands as it is; several are joined by `|` inside a
      non-capturing group. */
  function TranslateAlt(a: Alt, rules: Rules): (p: string)
    requires WfAlt(a, rules)
    ensures p != ""
    decreases a, 1, 0
  {
    var cs := TranslateAlts(a, 0, rules);
    if |cs| == 1 then cs[0] else "(?:" + Join(cs, "|") + ")"
  }

  // Where the printed text stands in a larger text.

  /** What may follow an element: a blank, a closing bracket or the end. */
  predicate EndsElem(t: string, e: nat) {
    e == |t| || (e < |t| && (t[e] == ' ' || t[e] == ')' || t[e] == ']'))
  }

  /** What may follow an alternation: a closing bracket or the end. */
  predicate EndsAlt(t: string, e: nat) {
    e == |t| || (e < |t| && (t[e] == ')' || t[e] == ']'))
  }

  /** What may follow a concatenation: the end of its alternation, or the
      blank and slash before the next alternative. */
  predicate EndsConcat(t: string, e: nat) {
    EndsAlt(t, e) || (e + 1 < |t| && t[e] == ' ' && t[e + 1] == '/')
  }

  /** Where the concatenation loop stops: at the end of the alternation, or
      after the blank before a slash. */
  function ConcatEnd(t: string, e: nat): nat {
    if EndsAlt(t, e) then e else e + 1
  }

  /** A character a repetition can start with: a repeat digit, a star, or
      the first character of an element. */
  predicate StartsRepetition(c: char) {
    IsDigit(c) || c == '*' || !StartsNoElement(c)
  }

  /** No blank, comment or line break starts at `j`. */
  predicate Quiet(t: string, j: nat) {
    j == |t| || (j < |t| && t[j] != ' ' && t[j] != '\t' && t[j] != ';' && t[j] != '\n')
  }

  lemma QuietSkip(t: string, j: nat)
    requires j <= |t| && Quiet(t, j)
    ensures SkipWsp(t, j) == j
  {
    assert CommentEnd(t, j) == j;
  }

  /** One blank before a quiet position is skipped, and nothing more. */
  lemma BlankSkip(t: string, j: nat)
    requires j < |t| && t[j] == ' ' && Quiet(t, j + 1)
    ensures SkipWsp(t, j) == j + 1
  {
    QuietSkip(t, j + 1);
  }

  /** The character `k` places into a text found at `i`. */
  lemma AtIndex(t: string, i: nat, s: string, k: nat)
    requires IsAt(t, i, s) && k < |s|
    ensures t[i + k] == s[k]
  {
    assert t[i..i + |s|][k] == s[k];
  }

  /** `a + b + c` at `i`, part by part. */
  lemma AtThree(t: string, i: nat, a: string, b: string, c: string)
    requires IsAt(t, i, a + b + c)
    ensures IsAt(t, i, a) && IsAt(t, i + |a|, b) && IsAt(t, i + |a| + |b|, c)
  {
    IsAtAppend(t, i, a + b, c);
    IsAtAppend(t, i, a, b);
  }

  /** No digit class holds the characters that end a digit group. */
  lemma OutsideDigitClass(b: char, c: char)
    requires c == '-' || c == '.' || c == ' ' || c == ')' || c == ']'
    ensures !In(DigitClass(b), c)
  {
  }

  // The first character of each printed production.

  lemma ElemFirst(e: Elem, rules: Rules)
    requires WfElem(e, rules)
    ensures |PrintElem(e)| >= 1 && !StartsNoElement(PrintElem(e)[0])
  {
  }

  lemma RepetitionFirst(r: Repetition, rules: Rules)
    requires WfRepetition(r, rules)
    ensures |PrintRepetition(r)| >= 1 && StartsRepetition(PrintRepetition(r)[0])
  {
    ElemFirst(r.element, rules);
    var p := PrintRepetition(r);
    match r.repeat
    case None =>
      assert p == PrintElem(r.element);
    case Some(Exact(n)) =>
      assert p[0] == Decimal(n)[0];
    case Some(Between(lo, hi)) =>
      if lo.Some? {
        assert p[0] == Decimal(lo.value)[0];
      } else {
        assert p[0] == '*';
      }
  }

  lemma ItemsFirst(c: Concat, k: nat, rules: Rules)
    requires WfConcat(c, rules) && k < |c.items|
    ensures |PrintItems(c, k)| >= 1 && StartsRepetition(PrintItems(c, k)[0])
  {
    RepetitionFirst(c.items[k], rules);
    assert PrintItems(c, k)[0] == PrintRepetition(c.items[k])[0];
  }

  lemma AltsFirst(a: Alt, k: nat, rules: Rules)
    requires WfAlt(a, rules) && k < |a.alts|
    ensures |PrintAlts(a, k)| >= 1 && StartsRepetition(PrintAlts(a, k)[0])
  {
    ItemsFirst(a.alts[k], 0, rules);
    assert PrintConcat(a.alts[k]) == PrintItems(a.alts[k], 0);
    assert PrintAlts(a, k)[0] == PrintConcat(a.alts[k])[0];
  }

  /** A repetition, and so an alternation, starts at a quiet position. */
  lemma StartIsQuiet(t: string, j: nat, s: string)
    requires IsAt(t, j, s) && |s| >= 1 && StartsRepetition(s[0])
    ensures Quiet(t, j)
  {
    AtIndex(t, j, s, 0);
  }

  // Reading the terminals back.

  /** A text `open + s + close` at `i`, with `s` made of `cls` characters, is
      a delimited token around `s`. */
  lemma DelimitedAt(t: string, i: nat, open: char, s: string, close: char, cls: Class)
    requires IsAt(t, i, [open] + s + [close]) && forall k | 0 <= k < |s| :: In(cls, s[k])
    ensures Delimited(t, i, i + |s| + 2, open, close, cls) && t[i + 1..i + |s| + 1] == s
  {
    AtThree(t, i, [open], s, [close]);
    AtIndex(t, i, [open] + s + [close], 0);
    AtIndex(t, i, [open] + s + [close], |s| + 1);
    forall k | i < k < i + |s| + 1
      ensures In(cls, t[k])
    {
      AtIndex(t, i + 1, s, k - i - 1);
    }
  }

  lemma RuleRefRead(n: string, t: string, i: nat, rules: Rules)
    requires IsRuleName(n) && Reference(Lower(n), rules).Success?
    requires IsAt(t, i, n) && EndsElem(t, i + |n|)
    ensures ElementReads(t, i, rules, Reference(Lower(n), rules).value, i + |n|)
  {
    forall k | i + 1 <= k < i + |n|
      ensures IsRuleNameChar(t[k])
    {
      AtIndex(t, i, n, k - i);
    }
    RunIsSpan(t, i + 1, i + |n|, RuleNameChars);
    AtIndex(t, i, n, 0);
  }

  lemma CharValRead(s: string, t: string, i: nat, j: nat, rules: Rules)
    requires forall k | 0 <= k < |s| :: IsCharValChar(s[k])
    requires IsAt(t, i, "\"" + s + "\"") && j == i + |s| + 2
    ensures ElementReads(t, i, rules, LiteralPattern(s), j)
  {
    DelimitedAt(t, i, '"', s, '"', CharValChars);
    assert CharValEnd(t, i) == Some(j);
  }

  lemma ProseRead(s: string, t: string, i: nat, j: nat, rules: Rules)
    requires forall k | 0 <= k < |s| :: IsProseChar(s[k])
    requires IsAt(t, i, "<" + s + ">") && j == i + |s| + 2
    ensures ElementReads(t, i, rules, LiteralPattern(s), j)
  {
    DelimitedAt(t, i, '<', s, '>', ProseChars);
    assert ProseValEnd(t, i) == Some(j);
    assert CharValEnd(t, i).None?;
    assert NumRangeToken(t, i).None?;
    assert NumSeqToken(t, i).None?;
  }

  /** Where no rule name and no bracket starts, the element is a terminal. */
  lemma TerminalAt(t: string, i: nat, rules: Rules)
    requires i < |t| && !IsAlpha(t[i]) && t[i] != '(' && t[i] != '['
    ensures Element(t, i, rules) == TerminalElement(t, i)
  {
  }

  lemma NumRangeRead(e: Elem, t: string, i: nat, j: nat, rules: Rules)
    requires e.NumRange? && WfElem(e, rules)
    requires IsAt(t, i, "%" + [e.base] + e.lo + "-" + e.hi) && j == i + 3 + |e.lo| + |e.hi| && EndsElem(t, j)
    ensures ElementReads(t, i, rules, TranslateElem(e, rules), j)
  {
    var tok := NumToken(e.base, [e.lo, e.hi]);
    NumRangeFound(e.base, e.lo, e.hi, t, i);
    RangeElement(t, i, tok, j, rules);
    assert RangePattern(tok) == Success(TranslateElem(e, rules));
  }

  /** The range token at `i` is `%b lo - hi`. */
  lemma NumRangeFound(b: char, lo: string, hi: string, t: string, i: nat)
    requires IsBaseLetter(b) && AllOf(lo, DigitClass(b)) && AllOf(hi, DigitClass(b))
    requires IsAt(t, i, "%" + [b] + lo + "-" + hi) && EndsElem(t, i + 3 + |lo| + |hi|)
    ensures t[i] == '%' && NumRangeToken(t, i) == Some((NumToken(b, [lo, hi]), i + 3 + |lo| + |hi|))
  {
    var d1, d2 := i + 2 + |lo|, i + 3 + |lo| + |hi|;
    NumRangeLayout(t, i, b, lo, hi);
    OutsideDigitClass(b, '-');
    if d2 < |t| {
      OutsideDigitClass(b, t[d2]);
    }
    assert RangeTokenAt(t, i, d1, d2);
  }

  /** Where the parts of `%b lo - hi` lie. */
  lemma NumRangeLayout(t: string, i: nat, b: char, lo: string, hi: string)
    requires IsAt(t, i, "%" + [b] + lo + "-" + hi)
    requires AllOf(lo, DigitClass(b)) && AllOf(hi, DigitClass(b))
    ensures t[i] == '%' && t[i + 1] == b && t[i + 2 + |lo|] == '-'
    ensures t[i + 2..i + 2 + |lo|] == lo && t[i + 3 + |lo|..i + 3 + |lo| + |hi|] == hi
    ensures forall k | i + 2 <= k < i + 2 + |lo| :: In(DigitClass(b), t[k])
    ensures forall k | i + 3 + |lo| <= k < i + 3 + |lo| + |hi| :: In(DigitClass(b), t[k])
  {
    IsAtAppend(t, i, "%" + [b] + lo + "-", hi);
    IsAtAppend(t, i, "%" + [b] + lo, "-");
    IsAtAppend(t, i, "%" + [b], lo);
    IsAtAppend(t, i, "%", [b]);
    AtIndex(t, i, "%", 0);
    AtIndex(t, i + 1, [b], 0);
    AtIndex(t, i + 2 + |lo|, "-", 0);
    forall k | i + 2 <= k < i + 2 + |lo|
      ensures In(DigitClass(b), t[k])
    {
      AtIndex(t, i + 2, lo, k - i - 2);
    }
    forall k | i + 3 + |lo| <= k < i + 3 + |lo| + |hi|
      ensures In(DigitClass(b), t[k])
    {
      AtIndex(t, i + 3 + |lo|, hi, k - i - 3 - |lo|);
    }
  }

  /** The dotted groups after the first one read back as they were
      written, up to a character that continues no group. */
  lemma {:induction false} DotGroupsRead(t: string, d: nat, gs: seq<string>, cls: Class, e: nat)
    requires d <= e <= |t| && !In(cls, '.')
    requires forall g | g in gs :: AllOf(g, cls)
    requires gs == [] ==> e == d
    requires gs != [] ==> IsAt(t, d, "." + Join(gs, ".")) && e == d + 1 + |Join(gs, ".")|
    requires e == |t| || (t[e] != '.' && !In(cls, t[e]))
    ensures DotGroups(t, d, cls) == (gs, e)
    decreases |gs|
  {
    if gs != [] {
      var f := d + 1 + |gs[0]|;
      DotLayout(t, d, gs, cls, e);
      DotGroupsUnfold(t, d, f, cls);
      DotTail(gs, cls);
      DotGroupsRead(t, f, gs[1..], cls, e);
    }
  }

  /** One dotted group, then the groups after it. */
  lemma DotGroupsUnfold(t: string, d: nat, f: nat, cls: Class)
    requires d < |t| && t[d] == '.' && d + 1 < f && Run(t, d + 1, f, cls)
    ensures DotGroups(t, d, cls) == ([t[d + 1..f]] + DotGroups(t, f, cls).0, DotGroups(t, f, cls).1)
  {
    RunIsSpan(t, d + 1, f, cls);
  }

  /** Where the first of the dotted groups lies, and what follows it. */
  lemma DotLayout(t: string, d: nat, gs: seq<string>, cls: Class, e: nat)
    requires gs != [] && !In(cls, '.') && forall g | g in gs :: AllOf(g, cls)
    requires IsAt(t, d, "." + Join(gs, ".")) && e == d + 1 + |Join(gs, ".")|
    requires e == |t| || (t[e] != '.' && !In(cls, t[e]))
    ensures var f := d + 1 + |gs[0]|;
      && d < |t| && t[d] == '.' && d + 1 < f && Run(t, d + 1, f, cls) && t[d + 1..f] == gs[0]
      && (gs[1..] != [] ==> IsAt(t, f, "." + Join(gs[1..], ".")) && e == f + 1 + |Join(gs[1..], ".")|)
      && (gs[1..] == [] ==> e == f)
  {
    var rest := if |gs| == 1 then "" else "." + Join(gs[1..], ".");
    JoinHead(gs);
    assert gs[0] in gs;
    DotHead(t, d, gs[0], rest, cls, e);
  }

  /** The groups after the first are groups of the same class. */
  lemma DotTail(gs: seq<string>, cls: Class)
    requires gs != [] && forall g | g in gs :: AllOf(g, cls)
    ensures forall h | h in gs[1..] :: AllOf(h, cls)
    ensures gs == [gs[0]] + gs[1..]
  {
    assert forall h | h in gs[1..] :: h in gs;
  }

  /** The first of the joined groups, then the separator and the rest. */
  lemma JoinHead(gs: seq<string>)
    requires gs != []
    ensures "." + Join(gs, ".") == "." + gs[0] + (if |gs| == 1 then "" else "." + Join(gs[1..], "."))
  {
  }

  /** A dot, a run of `cls` characters and what follows them. */
  lemma DotHead(t: string, d: nat, g: string, rest: string, cls: Class, e: nat)
    requires AllOf(g, cls) && !In(cls, '.') && (rest == "" || rest[0] == '.')
    requires IsAt(t, d, "." + g + rest) && e == d + 1 + |g| + |rest|
    requires e == |t| || (t[e] != '.' && !In(cls, t[e]))
    ensures var f := d + 1 + |g|;
      && d < |t| && t[d] == '.' && d + 1 < f && Run(t, d + 1, f, cls) && t[d + 1..f] == g
      && IsAt(t, f, rest)
  {
    var f := d + 1 + |g|;
    AtThree(t, d, ".", g, rest);
    AtIndex(t, d, ".", 0);
    forall k | d + 1 <= k < f
      ensures In(cls, t[k])
    {
      AtIndex(t, d + 1, g, k - d - 1);
    }
    if rest != "" {
      AtIndex(t, f, rest, 0);
    }
  }

  lemma NumSeqRead(b: char, gs: seq<string>, t: string, i: nat, e: nat, rules: Rules)
    requires IsBaseLetter(b) && gs != [] && forall g | g in gs :: AllOf(g, DigitClass(b))
    requires e == i + 2 + |Join(gs, ".")|
    requires IsAt(t, i, "%" + [b] + Join(gs, ".")) && EndsElem(t, e)
    ensures ElementReads(t, i, rules, SequencePattern(b, gs), e)
  {
    NumSeqFound(b, gs, t, i, e);
    PercentTerminal(t, i, rules);
    SeqTerminal(t, i, NumToken(b, gs), e);
  }

  /** At `%` the element is a terminal, and not a char-val. */
  lemma PercentTerminal(t: string, i: nat, rules: Rules)
    requires i < |t| && t[i] == '%'
    ensures Element(t, i, rules) == TerminalElement(t, i) && CharValEnd(t, i).None?
  {
    TerminalAt(t, i, rules);
  }

  /** A terminal that is neither a char-val nor a range but a dotted token. */
  lemma SeqTerminal(t: string, i: nat, tok: NumToken, e: nat)
    requires i <= |t| && CharValEnd(t, i).None? && NumRangeToken(t, i).None?
    requires NumSeqToken(t, i) == Some((tok, e))
    ensures TerminalElement(t, i) == Success((SequencePattern(tok.base, tok.groups), e))
  {
  }

  /** The dotted token at `i` is `%b` and the groups, and no range starts there. */
  lemma NumSeqFound(b: char, gs: seq<string>, t: string, i: nat, e: nat)
    requires IsBaseLetter(b) && gs != [] && forall g | g in gs :: AllOf(g, DigitClass(b))
    requires e == i + 2 + |Join(gs, ".")|
    requires IsAt(t, i, "%" + [b] + Join(gs, ".")) && EndsElem(t, e)
    ensures t[i] == '%' && NumRangeToken(t, i).None?
    ensures NumSeqToken(t, i) == Some((NumToken(b, gs), e))
  {
    var d1 := i + 2 + |gs[0]|;
    NumSeqRest(b, gs, t, i, d1, e);
    NumSeqUnfold(t, i, d1, b, gs, e);
    NoRangeBeforeDot(t, i, d1);
  }

  /** After `%b`, the first group is a longest run, the dotted groups after
      it read back as written, and no `-` follows the first group. */
  lemma NumSeqRest(b: char, gs: seq<string>, t: string, i: nat, d1: nat, e: nat)
    requires IsBaseLetter(b) && gs != [] && forall g | g in gs :: AllOf(g, DigitClass(b))
    requires d1 == i + 2 + |gs[0]| && e == i + 2 + |Join(gs, ".")|
    requires IsAt(t, i, "%" + [b] + Join(gs, ".")) && EndsElem(t, e)
    ensures i + 2 < d1 <= |t| && t[i] == '%' && t[i + 1] == b && t[i + 2..d1] == gs[0]
    ensures Run(t, i + 2, d1, DigitClass(b)) && (d1 == |t| || t[d1] != '-')
    ensures DotGroups(t, d1, DigitClass(b)) == (gs[1..], e)
  {
    var cls := DigitClass(b);
    var rest := if |gs| == 1 then "" else "." + Join(gs[1..], ".");
    NumSeqLayout(b, gs, t, i, rest);
    OutsideDigitClass(b, '.');
    if e < |t| {
      OutsideDigitClass(b, t[e]);
    }
    assert gs[0] in gs;
    var tail := gs[1..];
    assert forall h | h in tail :: h in gs;
    if |gs| > 1 {
      assert rest == "." + Join(tail, ".");
      AtIndex(t, d1, rest, 0);
      assert e == d1 + 1 + |Join(tail, ".")|;
    } else {
      assert tail == [] && e == d1;
    }
    DotGroupsRead(t, d1, tail, cls, e);
  }

  /** `%b`, a longest non-empty digit run, then the dotted groups. */
  lemma NumSeqUnfold(t: string, i: nat, d1: nat, b: char, gs: seq<string>, e: nat)
    requires i + 2 < d1 <= |t| && t[i] == '%' && t[i + 1] == b && IsBaseLetter(b)
    requires gs != [] && t[i + 2..d1] == gs[0]
    requires Run(t, i + 2, d1, DigitClass(b)) && DotGroups(t, d1, DigitClass(b)) == (gs[1..], e)
    ensures NumSeqToken(t, i) == Some((NumToken(b, gs), e))
  {
    RunIsSpan(t, i + 2, d1, DigitClass(b));
    assert [t[i + 2..d1]] + gs[1..] == gs;
  }

  /** Where the parts of `%b g0 rest` lie. */
  lemma NumSeqLayout(b: char, gs: seq<string>, t: string, i: nat, rest: string)
    requires gs != [] && forall g | g in gs :: AllOf(g, DigitClass(b))
    requires rest == if |gs| == 1 then "" else "." + Join(gs[1..], ".")
    requires IsAt(t, i, "%" + [b] + Join(gs, "."))
    ensures t[i] == '%' && t[i + 1] == b && t[i + 2..i + 2 + |gs[0]|] == gs[0]
    ensures IsAt(t, i + 2 + |gs[0]|, rest) && |Join(gs, ".")| == |gs[0]| + |rest|
    ensures forall k | i + 2 <= k < i + 2 + |gs[0]| :: In(DigitClass(b), t[k])
  {
    JoinFirst(b, gs);
    assert gs[0] in gs;
    NumHead(b, gs[0], t, i, rest);
  }

  /** The first of the joined groups, then the separator and the rest. */
  lemma JoinFirst(b: char, gs: seq<string>)
    requires gs != []
    ensures var rest := if |gs| == 1 then "" else "." + Join(gs[1..], ".");
      && Join(gs, ".") == gs[0] + rest
      && "%" + [b] + Join(gs, ".") == "%" + [b] + gs[0] + rest
  {
    var rest := if |gs| == 1 then "" else "." + Join(gs[1..], ".");
    assert Join(gs, ".") == gs[0] + rest;
    AppendAssoc("%" + [b], gs[0], rest);
  }

  lemma AppendAssoc(a: string, b: string, c: string)
    ensures a + (b + c) == a + b + c
  {
  }

  /** `%`, the base letter, a group of its digits, then `rest`. */
  lemma NumHead(b: char, g: string, t: string, i: nat, rest: string)
    requires AllOf(g, DigitClass(b)) && IsAt(t, i, "%" + [b] + g + rest)
    ensures t[i] == '%' && t[i + 1] == b && t[i + 2..i + 2 + |g|] == g
    ensures IsAt(t, i + 2 + |g|, rest)
    ensures forall k | i + 2 <= k < i + 2 + |g| :: In(DigitClass(b), t[k])
  {
    IsAtAppend(t, i, "%" + [b] + g, rest);
    AtThree(t, i, "%", [b], g);
    AtIndex(t, i, "%", 0);
    AtIndex(t, i + 1, [b], 0);
    forall k | i + 2 <= k < i + 2 + |g|
      ensures In(DigitClass(b), t[k])
    {
      AtIndex(t, i + 2, g, k - i - 2);
    }
  }

  /** A longest digit run after `%` and a base letter that is not followed
      by `-` starts no range. */
  lemma NoRangeBeforeDot(t: string, i: nat, d1: nat)
    requires i + 1 < |t| && IsBaseLetter(t[i + 1]) && Run(t, i + 2, d1, DigitClass(t[i + 1]))
    requires d1 == |t| || t[d1] != '-'
    ensures NumRangeToken(t, i).None?
  {
    RunIsSpan(t, i + 2, d1, DigitClass(t[i + 1]));
  }

  // Reading a repeat prefix back.

  /** A printed count is digits, and reads back as the count. */
  lemma CountRead(n: Option<nat>)
    ensures DigitsValue(PrintCount(n)) == n
    ensures forall k | 0 <= k < |PrintCount(n)| :: IsDigit(PrintCount(n)[k])
  {
    if n.Some? {
      ToDigitsValue(n.value, 10);
    }
  }

  /** Digits `s` found at `a` and not followed by a digit are a longest run. */
  lemma DigitRunAt(t: string, a: nat, s: string, b: nat)
    requires IsAt(t, a, s) && b == a + |s| && forall k | 0 <= k < |s| :: IsDigit(s[k])
    requires b == |t| || !IsDigit(t[b])
    ensures Run(t, a, b, Digits) && t[a..b] == s
  {
    forall k | a <= k < b
      ensures IsDigit(t[k])
    {
      AtIndex(t, a, s, k - a);
    }
  }

  /** A printed repeat prefix, not followed by a digit or a star, is
      scanned as that prefix. */
  lemma ScanRead(rep: Repeat, t: string, i: nat, j: nat)
    requires IsAt(t, i, PrintRepeat(Some(rep))) && j == i + |PrintRepeat(Some(rep))|
    requires j == |t| || (!IsDigit(t[j]) && t[j] != '*')
    ensures ScanRepeat(t, i) == Some((rep, j))
  {
    match rep
    case Exact(n) => ExactScanRead(n, t, i, j);
    case Between(lo, hi) => BetweenScanRead(lo, hi, t, i, j);
  }

  lemma ExactScanRead(n: nat, t: string, i: nat, j: nat)
    requires IsAt(t, i, Decimal(n)) && j == i + |Decimal(n)|
    requires j == |t| || (!IsDigit(t[j]) && t[j] != '*')
    ensures ScanRepeat(t, i) == Some((Exact(n), j))
  {
    CountRead(Some(n));
    DigitRunAt(t, i, Decimal(n), j);
    assert Run(t, i, j, Digits) && i < j;
  }

  lemma BetweenScanRead(lo: Option<nat>, hi: Option<nat>, t: string, i: nat, j: nat)
    requires IsAt(t, i, PrintCount(lo) + "*" + PrintCount(hi))
    requires j == i + |PrintCount(lo)| + 1 + |PrintCount(hi)|
    requires j == |t| || (!IsDigit(t[j]) && t[j] != '*')
    ensures ScanRepeat(t, i) == Some((Between(lo, hi), j))
  {
    var d := BetweenLayout(lo, hi, t, i, j);
    CountRead(lo);
    CountRead(hi);
  }

  /** `a`, a one-character separator, then `b` at `i`, part by part. */
  lemma SeparatorAt(t: string, i: nat, a: string, sep: string, b: string)
    requires |sep| == 1 && IsAt(t, i, a + sep + b)
    ensures IsAt(t, i, a) && i + |a| < |t| && t[i + |a|] == sep[0] && IsAt(t, i + |a| + 1, b)
  {
    AtThree(t, i, a, sep, b);
    AtIndex(t, i + |a|, sep, 0);
  }

  /** Where the star of a printed range lies, with the two counts around it. */
  lemma BetweenLayout(lo: Option<nat>, hi: Option<nat>, t: string, i: nat, j: nat) returns (d: nat)
    requires IsAt(t, i, PrintCount(lo) + "*" + PrintCount(hi))
    requires j == i + |PrintCount(lo)| + 1 + |PrintCount(hi)|
    requires j == |t| || (!IsDigit(t[j]) && t[j] != '*')
    ensures RangeRepeatAt(t, i, d, j) && t[i..d] == PrintCount(lo) && t[d + 1..j] == PrintCount(hi)
  {
    var a, b := PrintCount(lo), PrintCount(hi);
    d := i + |a|;
    SeparatorAt(t, i, a, "*", b);
    CountRead(lo);
    CountRead(hi);
    DigitRunAt(t, i, a, d);
    DigitRunAt(t, d + 1, b, j);
  }

  /** A printed repeat prefix that `formatRepeat` accepts compiles to its
      quantifier, and the element is read right after it. */
  lemma RepeatRead(rep: Option<Repeat>, t: string, i: nat, j: nat)
    requires FormatRepeat(rep).Success?
    requires IsAt(t, i, PrintRepeat(rep)) && j == i + |PrintRepeat(rep)|
    requires j == |t| || (!IsDigit(t[j]) && t[j] != '*')
    ensures RepeatAt(t, i) == Success((FormatRepeat(rep).value, j))
  {
    if rep.Some? {
      ScanRead(rep.value, t, i, j);
    }
  }

  // Reading the productions back.

  /** `open + body + close` at `i`, part by part. */
  lemma BracketLayout(t: string, i: nat, open: string, body: string, close: string)
    requires |open| == 1 && |close| == 1 && IsAt(t, i, open + body + close)
    ensures t[i] == open[0] && IsAt(t, i + 1, body) && t[i + 1 + |body|] == close[0]
  {
    AtThree(t, i, open, body, close);
    AtIndex(t, i, open, 0);
    AtIndex(t, i + 1 + |body|, close, 0);
  }

  /** A group: `(`, an alternation read from right after it, `)`. */
  lemma GroupUnfold(t: string, i: nat, rules: Rules, p: string, j: nat)
    requires i < |t| && t[i] == '(' && Quiet(t, i + 1) && 0 < j
    requires AlternationReads(t, i + 1, rules, p, j - 1)
    requires j - 1 < |t| && t[j - 1] == ')'
    ensures ElementReads(t, i, rules, p, j)
  {
    QuietSkip(t, i + 1);
    QuietSkip(t, j - 1);
  }

  /** An option: `[`, an alternation read from right after it, `]`. */
  lemma OptionUnfold(t: string, i: nat, rules: Rules, p: string, j: nat)
    requires i < |t| && t[i] == '[' && Quiet(t, i + 1) && 0 < j
    requires AlternationReads(t, i + 1, rules, p, j - 1)
    requires j - 1 < |t| && t[j - 1] == ']'
    ensures ElementReads(t, i, rules, "(?:" + p + ")?", j)
  {
    QuietSkip(t, i + 1);
    QuietSkip(t, j - 1);
  }

  /** A printed element, followed by what may follow an element, compiles
      to the pattern it stands for and is consumed exactly. */
  lemma ElemRead(e: Elem, t: string, i: nat, j: nat, rules: Rules)
    requires WfElem(e, rules) && IsAt(t, i, PrintElem(e)) && j == i + |PrintElem(e)| && EndsElem(t, j)
    ensures ElementReads(t, i, rules, TranslateElem(e, rules), j)
    decreases e, 1, 0, 0
  {
    if e.Group? || e.Optional? {
      BracketRead(e, t, i, j, rules);
    } else {
      TerminalRead(e, t, i, j, rules);
    }
  }

  /** A group or an option is read as its alternation, made optional for
      an option. */
  lemma BracketRead(e: Elem, t: string, i: nat, j: nat, rules: Rules)
    requires e.Group? || e.Optional?
    requires WfElem(e, rules) && IsAt(t, i, PrintElem(e)) && j == i + |PrintElem(e)|
    ensures ElementReads(t, i, rules, TranslateElem(e, rules), j)
    decreases e, 0, 0, 1
  {
    if e.Group? {
      GroupRead(e, t, i, j, rules);
    } else {
      OptionRead(e, t, i, j, rules);
    }
  }

  lemma GroupRead(e: Elem, t: string, i: nat, j: nat, rules: Rules)
    requires e.Group? && WfElem(e, rules) && IsAt(t, i, PrintElem(e)) && j == i + |PrintElem(e)|
    ensures ElementReads(t, i, rules, TranslateElem(e, rules), j)
    decreases e, 0, 0, 0
  {
    GroupLayout(e, t, i, j, rules);
    AltRead(e.body, t, i + 1, j - 1, rules);
    GroupClose(e, t, i, j, rules);
  }

  /** The group's alternation read, the closing parenthesis finishes the element. */
  lemma GroupClose(e: Elem, t: string, i: nat, j: nat, rules: Rules)
    requires e.Group? && WfElem(e, rules) && TranslateElem(e, rules) == TranslateAlt(e.body, rules)
    requires i < |t| && t[i] == '(' && Quiet(t, i + 1) && 0 < j
    requires AlternationReads(t, i + 1, rules, TranslateAlt(e.body, rules), j - 1)
    requires j - 1 < |t| && t[j - 1] == ')'
    ensures ElementReads(t, i, rules, TranslateElem(e, rules), j)
  {
    GroupUnfold(t, i, rules, TranslateAlt(e.body, rules), j);
  }

  lemma GroupLayout(e: Elem, t: string, i: nat, j: nat, rules: Rules)
    requires e.Group? && WfElem(e, rules) && IsAt(t, i, PrintElem(e)) && j == i + |PrintElem(e)|
    ensures WfAlt(e.body, rules)
    ensures i < |t| && t[i] == '(' && Quiet(t, i + 1)
    ensures IsAt(t, i + 1, PrintAlt(e.body)) && j - 1 == i + 1 + |PrintAlt(e.body)|
    ensures j - 1 < |t| && t[j - 1] == ')' && EndsAlt(t, j - 1)
    ensures TranslateElem(e, rules) == TranslateAlt(e.body, rules)
  {
    BracketAltLayout(e, t, i, j, rules);
  }

  lemma OptionRead(e: Elem, t: string, i: nat, j: nat, rules: Rules)
    requires e.Optional? && WfElem(e, rules) && IsAt(t, i, PrintElem(e)) && j == i + |PrintElem(e)|
    ensures ElementReads(t, i, rules, TranslateElem(e, rules), j)
    decreases e, 0, 0, 0
  {
    OptionLayout(e, t, i, j, rules);
    AltRead(e.body, t, i + 1, j - 1, rules);
    OptionClose(e, t, i, j, rules);
  }

  /** The option's alternation read, the closing bracket finishes the element. */
  lemma OptionClose(e: Elem, t: string, i: nat, j: nat, rules: Rules)
    requires e.Optional? && WfElem(e, rules) && TranslateElem(e, rules) == "(?:" + TranslateAlt(e.body, rules) + ")?"
    requires i < |t| && t[i] == '[' && Quiet(t, i + 1) && 0 < j
    requires AlternationReads(t, i + 1, rules, TranslateAlt(e.body, rules), j - 1)
    requires j - 1 < |t| && t[j - 1] == ']'
    ensures ElementReads(t, i, rules, TranslateElem(e, rules), j)
  {
    OptionUnfold(t, i, rules, TranslateAlt(e.body, rules), j);
  }

  lemma OptionLayout(e: Elem, t: string, i: nat, j: nat, rules: Rules)
    requires e.Optional? && WfElem(e, rules) && IsAt(t, i, PrintElem(e)) && j == i + |PrintElem(e)|
    ensures WfAlt(e.body, rules)
    ensures i < |t| && t[i] == '[' && Quiet(t, i + 1)
    ensures IsAt(t, i + 1, PrintAlt(e.body)) && j - 1 == i + 1 + |PrintAlt(e.body)|
    ensures j - 1 < |t| && t[j - 1] == ']' && EndsAlt(t, j - 1)
    ensures TranslateElem(e, rules) == "(?:" + TranslateAlt(e.body, rules) + ")?"
  {
    BracketAltLayout(e, t, i, j, rules);
  }

  /** A group or an option: the bracket, the alternation from right after
      it, the closing bracket. */
  lemma BracketAltLayout(e: Elem, t: string, i: nat, j: nat, rules: Rules)
    requires (e.Group? || e.Optional?) && WfElem(e, rules)
    requires IsAt(t, i, PrintElem(e)) && j == i + |PrintElem(e)|
    ensures WfAlt(e.body, rules)
    ensures i < |t| && t[i] == (if e.Group? then '(' else '[') && Quiet(t, i + 1)
    ensures IsAt(t, i + 1, PrintAlt(e.body)) && j - 1 == i + 1 + |PrintAlt(e.body)|
    ensures j - 1 < |t| && t[j - 1] == (if e.Group? then ')' else ']') && EndsAlt(t, j - 1)
    ensures TranslateElem(e, rules) == if e.Group? then TranslateAlt(e.body, rules) else "(?:" + TranslateAlt(e.body, rules) + ")?"
  {
    var a := e.body;
    var open, close := if e.Group? then "(" else "[", if e.Group? then ")" else "]";
    assert PrintElem(e) == open + PrintAlt(a) + close;
    BracketLayout(t, i, open, PrintAlt(a), close);
    AltsFirst(a, 0, rules);
    StartIsQuiet(t, i + 1, PrintAlt(a));
  }

  /** A rule name or a terminal is read as the pattern it stands for. */
  lemma TerminalRead(e: Elem, t: string, i: nat, j: nat, rules: Rules)
    requires !e.Group? && !e.Optional?
    requires WfElem(e, rules) && IsAt(t, i, PrintElem(e)) && j == i + |PrintElem(e)| && EndsElem(t, j)
    ensures ElementReads(t, i, rules, TranslateElem(e, rules), j)
  {
    if e.RuleRef? || e.CharVal? || e.ProseVal? {
      TextRead(e, t, i, j, rules);
    } else if e.NumRange? {
      RangeRead(e, t, i, j, rules);
    } else {
      DottedRead(e, t, i, j, rules);
    }
  }

  /** A rule name, a char-val or a prose-val. */
  lemma TextRead(e: Elem, t: string, i: nat, j: nat, rules: Rules)
    requires e.RuleRef? || e.CharVal? || e.ProseVal?
    requires WfElem(e, rules) && IsAt(t, i, PrintElem(e)) && j == i + |PrintElem(e)| && EndsElem(t, j)
    ensures ElementReads(t, i, rules, TranslateElem(e, rules), j)
  {
    TerminalParts(e, rules);
    if e.RuleRef? {
      RuleRefRead(e.name, t, i, rules);
    } else if e.CharVal? {
      CharValRead(e.text, t, i, j, rules);
    } else {
      ProseRead(e.text, t, i, j, rules);
    }
  }

  /** A num-val range. */
  lemma RangeRead(e: Elem, t: string, i: nat, j: nat, rules: Rules)
    requires e.NumRange?
    requires WfElem(e, rules) && IsAt(t, i, PrintElem(e)) && j == i + |PrintElem(e)| && EndsElem(t, j)
    ensures ElementReads(t, i, rules, TranslateElem(e, rules), j)
  {
    TerminalParts(e, rules);
    assert j == i + 3 + |e.lo| + |e.hi|;
    NumRangeRead(e, t, i, j, rules);
  }

  /** A dotted num-val. */
  lemma DottedRead(e: Elem, t: string, i: nat, j: nat, rules: Rules)
    requires e.NumSeq?
    requires WfElem(e, rules) && IsAt(t, i, PrintElem(e)) && j == i + |PrintElem(e)| && EndsElem(t, j)
    ensures ElementReads(t, i, rules, TranslateElem(e, rules), j)
  {
    TerminalParts(e, rules);
    NumSeqRead(e.base, e.groups, t, i, j, rules);
  }

  /** The text and the pattern of a rule name or a terminal. */
  lemma TerminalParts(e: Elem, rules: Rules)
    requires !e.Group? && !e.Optional? && WfElem(e, rules)
    ensures e.RuleRef? ==> PrintElem(e) == e.name && TranslateElem(e, rules) == Reference(Lower(e.name), rules).value
    ensures e.CharVal? ==> PrintElem(e) == "\"" + e.text + "\"" && TranslateElem(e, rules) == LiteralPattern(e.text)
    ensures e.ProseVal? ==> PrintElem(e) == "<" + e.text + ">" && TranslateElem(e, rules) == LiteralPattern(e.text)
    ensures e.NumRange? ==> PrintElem(e) == "%" + [e.base] + e.lo + "-" + e.hi
    ensures e.NumSeq? ==> PrintElem(e) == "%" + [e.base] + Join(e.groups, ".") && TranslateElem(e, rules) == SequencePattern(e.base, e.groups)
  {
  }

  /** A printed repetition: its prefix compiles to its quantifier `q`,
      ending at `j`, and its element is read there as its pattern `p`. */
  lemma RepetitionRead(r: Repetition, t: string, i: nat, q: string, j: nat, p: string, end: nat, rules: Rules)
    requires WfRepetition(r, rules)
    requires q == FormatRepeat(r.repeat).value && j == i + |PrintRepeat(r.repeat)|
    requires p == TranslateElem(r.element, rules)
    requires IsAt(t, i, PrintRepetition(r)) && end == i + |PrintRepetition(r)| && EndsElem(t, end)
    ensures i <= j <= end <= |t|
    ensures RepeatAt(t, i) == Success((q, j))
    ensures ElementReads(t, j, rules, p, end) && p != ""
    decreases r, 0, 0, 0
  {
    RepetitionLayout(r, t, i, j, end, rules);
    RepeatRead(r.repeat, t, i, j);
    ElemRead(r.element, t, j, end, rules);
  }

  /** A printed repetition at `i`: its prefix, then its element from `j`,
      which starts with neither a digit nor a star. */
  lemma RepetitionLayout(r: Repetition, t: string, i: nat, j: nat, end: nat, rules: Rules)
    requires WfElem(r.element, rules)
    requires IsAt(t, i, PrintRepetition(r)) && j == i + |PrintRepeat(r.repeat)| && end == i + |PrintRepetition(r)|
    ensures IsAt(t, i, PrintRepeat(r.repeat)) && IsAt(t, j, PrintElem(r.element)) && end == j + |PrintElem(r.element)|
    ensures j < |t| && !IsDigit(t[j]) && t[j] != '*'
  {
    IsAtAppend(t, i, PrintRepeat(r.repeat), PrintElem(r.element));
    ElemFirst(r.element, rules);
    AtIndex(t, j, PrintElem(r.element), 0);
  }

  /** The repetitions from the `k`th, printed and followed by what may
      follow a concatenation, are read as their pieces; the loop stops at
      the end of the alternation or after the blank before a slash. */
  lemma ConcatRead(c: Concat, k: nat, t: string, i: nat, end: nat, rules: Rules, first: bool)
    requires WfConcat(c, rules) && k < |c.items|
    requires IsAt(t, i, PrintItems(c, k)) && end == i + |PrintItems(c, k)| && EndsConcat(t, end)
    ensures PiecesRead(t, i, rules, first, PiecesOf(c, k, rules), ConcatEnd(t, end))
    decreases c, 0, |c.items| - k, 1
  {
    if k + 1 == |c.items| {
      LastItemRead(c, k, t, i, end, rules, first);
    } else {
      NextItemRead(c, k, t, i, end, rules, first);
    }
  }

  lemma LastItemRead(c: Concat, k: nat, t: string, i: nat, end: nat, rules: Rules, first: bool)
    requires WfConcat(c, rules) && k + 1 == |c.items|
    requires IsAt(t, i, PrintItems(c, k)) && end == i + |PrintItems(c, k)| && EndsConcat(t, end)
    ensures PiecesRead(t, i, rules, first, PiecesOf(c, k, rules), ConcatEnd(t, end))
    decreases c, 0, |c.items| - k, 0
  {
    var r := c.items[k];
    assert WfRepetition(r, rules);
    assert PrintItems(c, k) == PrintRepetition(r);
    var q, j, p := FormatRepeat(r.repeat).value, i + |PrintRepeat(r.repeat)|, TranslateElem(r.element, rules);
    RepetitionRead(r, t, i, q, j, p, end, rules);
    ConcatLastRead(t, i, rules, first, q, j, p, end);
    assert PiecesOf(c, k + 1, rules) == [];
    assert PiecesOf(c, k, rules) == [Piece(p, q)];
  }

  lemma NextItemRead(c: Concat, k: nat, t: string, i: nat, end: nat, rules: Rules, first: bool)
    requires WfConcat(c, rules) && k + 1 < |c.items|
    requires IsAt(t, i, PrintItems(c, k)) && end == i + |PrintItems(c, k)| && EndsConcat(t, end)
    ensures PiecesRead(t, i, rules, first, PiecesOf(c, k, rules), ConcatEnd(t, end))
    decreases c, 0, |c.items| - k, 0
  {
    var r := c.items[k];
    var m := NextItemLayout(c, k, t, i, end, rules);
    var q, j, p := FormatRepeat(r.repeat).value, i + |PrintRepeat(r.repeat)|, TranslateElem(r.element, rules);
    RepetitionRead(r, t, i, q, j, p, m, rules);
    ConcatRead(c, k + 1, t, m + 1, end, rules, false);
    ConcatStep(t, i, rules, first, q, j, p, m, m + 1, PiecesOf(c, k + 1, rules), ConcatEnd(t, end));
  }

  /** Where the `k`th repetition ends, and the blank after it. */
  lemma NextItemLayout(c: Concat, k: nat, t: string, i: nat, end: nat, rules: Rules) returns (m: nat)
    requires WfConcat(c, rules) && k + 1 < |c.items|
    requires IsAt(t, i, PrintItems(c, k)) && end == i + |PrintItems(c, k)|
    ensures WfRepetition(c.items[k], rules)
    ensures IsAt(t, i, PrintRepetition(c.items[k])) && m == i + |PrintRepetition(c.items[k])| && EndsElem(t, m)
    ensures m < |t| && t[m] == ' ' && SkipWsp(t, m) == m + 1
    ensures IsAt(t, m + 1, PrintItems(c, k + 1)) && end == m + 1 + |PrintItems(c, k + 1)|
    ensures PiecesOf(c, k, rules) == [Piece(TranslateElem(c.items[k].element, rules), FormatRepeat(c.items[k].repeat).value)] + PiecesOf(c, k + 1, rules)
  {
    var r := c.items[k];
    assert WfRepetition(r, rules);
    m := i + |PrintRepetition(r)|;
    assert PrintItems(c, k) == PrintRepetition(r) + " " + PrintItems(c, k + 1);
    SeparatorAt(t, i, PrintRepetition(r), " ", PrintItems(c, k + 1));
    ItemsFirst(c, k + 1, rules);
    StartIsQuiet(t, m + 1, PrintItems(c, k + 1));
    BlankSkip(t, m);
  }

  /** The last piece: at the end of the alternation the loop stops after
      it; before ` /` it skips the blank and finds no element at the slash. */
  lemma ConcatLastRead(t: string, i: nat, rules: Rules, first: bool, q: string, j: nat, p: string, end: nat)
    requires i <= |t|
    requires RepeatAt(t, i) == Success((q, j))
    requires ElementReads(t, j, rules, p, end)
    requires p != ""
    requires EndsConcat(t, end)
    ensures PiecesRead(t, i, rules, first, [Piece(p, q)], ConcatEnd(t, end))
  {
    if EndsAlt(t, end) {
      if end < |t| {
        QuietSkip(t, end);
      }
      ConcatSingle(t, i, rules, first, q, j, p, end);
    } else {
      LastBeforeSlash(t, i, rules, first, q, j, p, end);
    }
  }

  /** At ` /` the loop skips the blank and reads nothing at the slash. */
  lemma LastBeforeSlash(t: string, i: nat, rules: Rules, first: bool, q: string, j: nat, p: string, end: nat)
    requires i <= |t| && RepeatAt(t, i) == Success((q, j)) && ElementReads(t, j, rules, p, end) && p != ""
    requires end + 1 < |t| && t[end] == ' ' && t[end + 1] == '/'
    ensures PiecesRead(t, i, rules, first, [Piece(p, q)], end + 1)
  {
    SlashAfterBlank(t, end, rules);
    ConcatLastStep(t, i, rules, first, q, j, p, end, end + 1);
  }

  /** After ` /` the blank is skipped and nothing more is read. */
  lemma SlashAfterBlank(t: string, end: nat, rules: Rules)
    requires end + 1 < |t| && t[end] == ' ' && t[end + 1] == '/'
    ensures SkipWsp(t, end) == end + 1 && PiecesRead(t, end + 1, rules, false, [], end + 1)
  {
    BlankSkip(t, end);
    EmptyTail(t, end + 1, rules);
  }

  /** The concatenations from the `k`th, printed with ` / ` between them
      and followed by the end of the alternation, are read as their
      patterns, up to that end. */
  lemma AltsRead(a: Alt, k: nat, t: string, i: nat, end: nat, rules: Rules)
    requires WfAlt(a, rules) && k < |a.alts|
    requires IsAt(t, i, PrintAlts(a, k)) && end == i + |PrintAlts(a, k)| && EndsAlt(t, end)
    ensures AlternativesRead(t, i, rules, TranslateAlts(a, k, rules), end)
    decreases a, 0, |a.alts| - k, 1
  {
    if k + 1 == |a.alts| {
      LastAltRead(a, k, t, i, end, rules);
    } else {
      NextAltRead(a, k, t, i, end, rules);
    }
  }

  lemma LastAltRead(a: Alt, k: nat, t: string, i: nat, end: nat, rules: Rules)
    requires WfAlt(a, rules) && k + 1 == |a.alts|
    requires IsAt(t, i, PrintAlts(a, k)) && end == i + |PrintAlts(a, k)| && EndsAlt(t, end)
    ensures AlternativesRead(t, i, rules, TranslateAlts(a, k, rules), end)
    decreases a, 0, |a.alts| - k, 0
  {
    var c := a.alts[k];
    AltParts(a, k, rules);
    ConcatRead(c, 0, t, i, end, rules, true);
    LastAltStep(t, i, rules, PiecesOf(c, 0, rules), end);
  }

  lemma NextAltRead(a: Alt, k: nat, t: string, i: nat, end: nat, rules: Rules)
    requires WfAlt(a, rules) && k + 1 < |a.alts|
    requires IsAt(t, i, PrintAlts(a, k)) && end == i + |PrintAlts(a, k)| && EndsAlt(t, end)
    ensures AlternativesRead(t, i, rules, TranslateAlts(a, k, rules), end)
    decreases a, 0, |a.alts| - k, 0
  {
    var m := NextAltLayout(a, k, t, i, end, rules);
    ConcatRead(a.alts[k], 0, t, i, m, rules, true);
    AltsRead(a, k + 1, t, m + 3, end, rules);
    NextAltStep(t, i, rules, PiecesOf(a.alts[k], 0, rules), m, TranslateAlts(a, k + 1, rules), end);
  }

  /** Where the `k`th alternative ends, and the ` / ` after it. */
  lemma NextAltLayout(a: Alt, k: nat, t: string, i: nat, end: nat, rules: Rules) returns (m: nat)
    requires WfAlt(a, rules) && k + 1 < |a.alts|
    requires IsAt(t, i, PrintAlts(a, k)) && end == i + |PrintAlts(a, k)| && EndsAlt(t, end)
    ensures WfConcat(a.alts[k], rules) && 0 < |a.alts[k].items|
    ensures IsAt(t, i, PrintItems(a.alts[k], 0)) && m == i + |PrintItems(a.alts[k], 0)| && EndsConcat(t, m) && ConcatEnd(t, m) == m + 1
    ensures m + 3 <= |t| && t[m] == ' ' && t[m + 1] == '/' && t[m + 2] == ' ' && Quiet(t, m + 3)
    ensures IsAt(t, m + 3, PrintAlts(a, k + 1)) && end == m + 3 + |PrintAlts(a, k + 1)|
    ensures TranslateAlts(a, k, rules) == [RenderPieces(PiecesOf(a.alts[k], 0, rules))] + TranslateAlts(a, k + 1, rules)
  {
    var c := a.alts[k];
    AltParts(a, k, rules);
    var x, y := PrintItems(c, 0), PrintAlts(a, k + 1);
    m := i + |x|;
    SlashLayout(t, i, x, y);
    AltsFirst(a, k + 1, rules);
    StartIsQuiet(t, m + 3, y);
  }

  /** The `k`th alternative: its text, and its pattern in front of the
      patterns of the ones after it. */
  lemma AltParts(a: Alt, k: nat, rules: Rules)
    requires WfAlt(a, rules) && k < |a.alts|
    ensures WfConcat(a.alts[k], rules)
    ensures TranslateAlts(a, k, rules) == [RenderPieces(PiecesOf(a.alts[k], 0, rules))] + TranslateAlts(a, k + 1, rules)
    ensures k + 1 == |a.alts| ==> PrintAlts(a, k) == PrintItems(a.alts[k], 0) && TranslateAlts(a, k, rules) == [RenderPieces(PiecesOf(a.alts[k], 0, rules))]
    ensures k + 1 < |a.alts| ==> PrintAlts(a, k) == PrintItems(a.alts[k], 0) + " / " + PrintAlts(a, k + 1)
  {
    if k + 1 == |a.alts| {
      assert TranslateAlts(a, k + 1, rules) == [];
    }
  }

  /** The last alternative: the loop stops at the end of the alternation. */
  lemma LastAltStep(t: string, i: nat, rules: Rules, ps: seq<Piece>, end: nat)
    requires EndsAlt(t, end) && PiecesRead(t, i, rules, true, ps, ConcatEnd(t, end))
    ensures AlternativesRead(t, i, rules, [RenderPieces(ps)], end)
  {
    ConcatRendersPieces(t, i, rules, ps, end);
    if end < |t| {
      QuietSkip(t, end);
    }
    AlternativesLast(t, i, rules, RenderPieces(ps), end);
  }

  /** An alternative before ` / `: the loop goes on after the slash and
      its blank. */
  lemma NextAltStep(t: string, i: nat, rules: Rules, ps: seq<Piece>, m: nat, rest: seq<string>, end: nat)
    requires m + 3 <= |t| && t[m] == ' ' && t[m + 1] == '/' && t[m + 2] == ' ' && Quiet(t, m + 3)
    requires PiecesRead(t, i, rules, true, ps, m + 1)
    requires AlternativesRead(t, m + 3, rules, rest, end)
    ensures AlternativesRead(t, i, rules, [RenderPieces(ps)] + rest, end)
  {
    ConcatRendersPieces(t, i, rules, ps, m + 1);
    QuietSkip(t, m + 1);
    BlankSkip(t, m + 2);
    assert SkipWsp(t, SkipWsp(t, m + 1) + 1) == m + 3;
    AlternativesStep(t, i, rules, RenderPieces(ps), m + 1, rest, end);
  }

  /** `x / y` at `i`, part by part. */
  lemma SlashLayout(t: string, i: nat, x: string, y: string)
    requires IsAt(t, i, x + " / " + y)
    ensures var m := i + |x|;
      && IsAt(t, i, x) && m + 3 <= |t| && t[m] == ' ' && t[m + 1] == '/' && t[m + 2] == ' ' && IsAt(t, m + 3, y)
  {
    AtThree(t, i, x, " / ", y);
    AtIndex(t, i + |x|, " / ", 0);
    AtIndex(t, i + |x|, " / ", 1);
    AtIndex(t, i + |x|, " / ", 2);
  }

  /** A printed alternation followed by the end of its text or a closing
      bracket compiles to the pattern it stands for, up to that end. */
  lemma AltRead(a: Alt, t: string, i: nat, end: nat, rules: Rules)
    requires WfAlt(a, rules) && IsAt(t, i, PrintAlt(a)) && end == i + |PrintAlt(a)| && EndsAlt(t, end)
    ensures AlternationReads(t, i, rules, TranslateAlt(a, rules), end)
    decreases a, 1, 0, 0
  {
    AltsRead(a, 0, t, i, end, rules);
    var cs := TranslateAlts(a, 0, rules);
    if |cs| == 1 {
      OneAlternative(t, i, rules, cs[0], end);
    } else {
      SeveralAlternatives(t, i, rules, cs, end);
    }
  }

  /** The compiler reads every well-formed alternation back from its
      printed text: the whole text is consumed and the result is the
      pattern the tree stands for. */
  lemma AlternationRoundTrip(a: Alt, rules: Rules)
    requires WfAlt(a, rules)
    ensures Alternation(PrintAlt(a), 0, rules) == Success((TranslateAlt(a, rules), |PrintAlt(a)|))
  {
    var t := PrintAlt(a);
    assert t[0..|t|] == t;
    AltRead(a, t, 0, |t|, rules);
  }
}
