/** The ABNF-to-pattern compiler (ABNF.js lines 120-251 and 307-364): a
    recursive descent over the grammar text that turns each rule into the
    source of a regular expression. Rule references are resolved while
    parsing, by inlining the pattern of a core rule or of a rule already
    defined, so a rule can only refer to rules above it. */
module AbnfCompiler {
  import opened Wrappers
  import opened Numerals
  import opened AbnfLexer
  import opened AbnfFormat

  /** Lower-case rule name to pattern source. */
  type Rules = map<string, string>

  /** CORE_RULES: the pattern source of each core rule of RFC 5234
      Appendix B.1, keyed by its lower-case name. LWSP is `[ \t\n]*`: line
      ends are a bare line feed here, not CRLF. */
  const CoreRules: map<string, string> := map[
    "alpha" := "[A-Za-z]",
    "bit" := "[01]",
    "char" := "[\\x01-\\x7f]",
    "cr" := "\\r",
    "crlf" := "\\r\\n",
    "ctl" := "[\\x00-\\x1f\\x7f]",
    "digit" := "[0-9]",
    "dquote" := "\"",
    "hexdig" := "[0-9A-Fa-f]",
    "htab" := "\\t",
    "lf" := "\\n",
    "lwsp" := "[ \\t\\n]*",
    "octet" := "[\\x00-\\xff]",
    "sp" := "[ ]",
    "vchar" := "[\\x21-\\x7e]",
    "wsp" := "[ \\t]"
  ]

  /** Each key of the core table is a lower-case rule name, so a reference
      in any letter case reaches it once lowered; each pattern is
      non-empty, so a core reference always counts as an element. */
  lemma CoreRuleNames()
    ensures forall name | name in CoreRules :: IsRuleName(name) && Lower(name) == name
    ensures forall name | name in CoreRules :: CoreRules[name] != ""
  {
    forall name | name in CoreRules ensures IsRuleName(name) && Lower(name) == name {
      assert forall k | 0 <= k < |name| :: 'a' <= name[k] <= 'z';
      LowerFixed(name);
    }
  }

  /** Lowering leaves text without upper-case letters unchanged. */
  lemma LowerFixed(s: string)
    requires forall k | 0 <= k < |s| :: !('A' <= s[k] <= 'Z')
    ensures Lower(s) == s
  {
  }

  /** The errors a compilation can throw. */
  datatype AbnfError =
    | UndefinedRule(name: string)         // a reference to a rule not (yet) defined
    | ExpectedClose(delimiter: char)      // a group or option left open
    | RangeNotIncreasing                  // `%xA-B` with A >= B
    | RepeatRange                         // `N*M` with N > M
    | ExpectedElement                     // a repeat without element, or no first element
    | ExpectedNewLine                     // a definition not followed by a line end
    | CoreRuleRedefined(name: string)
    | ExpectedDefinedAs                   // no `=` or `=/` after the rule name
    | UndefinedIncrement(name: string)    // `=/` on a rule not defined

  /** A rule reference: the core rule first, else the rule defined so far. */
  function Reference(name: string, rules: Rules): (r: Result<string, AbnfError>)
    ensures r.Success? <==> name in CoreRules || name in rules
    ensures name in CoreRules ==> r == Success(CoreRules[name])
    ensures name !in CoreRules && name in rules ==> r == Success(rules[name])
    ensures r.Failure? ==> r.error == UndefinedRule(name)
  {
    if name in CoreRules then Success(CoreRules[name])
    else if name in rules then Success(rules[name])
    else Failure(UndefinedRule(name))
  }

  /** JavaScript's `startVal >= endVal`: false when either side is NaN. */
  predicate NotLess(a: JsInt, b: JsInt) {
    a.Int? && b.Int? && a.n >= b.n
  }

  /** A range `%xA-B`: a character class from A to B. */
  function RangePattern(tok: NumToken): (r: Result<string, AbnfError>)
    requires |tok.groups| == 2
    ensures r.Failure? <==> NotLess(NumValue(tok.base, tok.groups[0]), NumValue(tok.base, tok.groups[1]))
    ensures r.Success? ==> r.value == "[" + FormatCodePoint(NumValue(tok.base, tok.groups[0])) + "-"
                                          + FormatCodePoint(NumValue(tok.base, tok.groups[1])) + "]"
  {
    var lo := NumValue(tok.base, tok.groups[0]);
    var hi := NumValue(tok.base, tok.groups[1]);
    if NotLess(lo, hi) then Failure(RangeNotIncreasing)
    else Success("[" + FormatCodePoint(lo) + "-" + FormatCodePoint(hi) + "]")
  }

  /** Reads the bounds back from a character class `[a-b]` of two escapes. */
  function ReadRange(p: string): Option<(nat, nat)> {
    if |p| >= 2 && p[0] == '[' && p[|p| - 1] == ']' then
      var body := p[1..|p| - 1];
      match IndexOf(body, '-')
      case None => None
      case Some(k) =>
        match (ReadCodePoint(body[..k]), ReadCodePoint(body[k + 1..]))
        case (Some(a), Some(b)) => Some((a, b))
        case _ => None
    else None
  }

  /** The class a range compiles to runs from the first value to the
      second, which is the larger; a NaN bound leaves no readable class. */
  lemma RangePatternReadsBack(tok: NumToken)
    requires |tok.groups| == 2 && RangePattern(tok).Success?
    ensures var lo, hi := NumValue(tok.base, tok.groups[0]), NumValue(tok.base, tok.groups[1]);
      && ReadRange(RangePattern(tok).value) == (if lo.Int? && hi.Int? then Some((lo.n, hi.n)) else None)
      && (lo.Int? && hi.Int? ==> lo.n < hi.n)
  {
    var lo, hi := NumValue(tok.base, tok.groups[0]), NumValue(tok.base, tok.groups[1]);
    var a, b := FormatCodePoint(lo), FormatCodePoint(hi);
    CodePointHasNoDash(lo);
    CodePointRead(lo);
    CodePointRead(hi);
    ClassBody(a, b);
    FirstAfter(a, '-', b);
  }

  /** Where the two escapes of `[a-b]` lie. */
  lemma ClassBody(a: string, b: string)
    ensures var p := "[" + a + "-" + b + "]";
      && p[1..|p| - 1] == a + ['-'] + b
      && (a + ['-'] + b)[..|a|] == a && (a + ['-'] + b)[|a| + 1..] == b
  {
  }

  /** A dotted value `%xA.B.C`: the code points in order. */
  function SequencePattern(base: char, groups: seq<string>): string {
    if groups == [] then "" else FormatCodePoint(NumValue(base, groups[0])) + SequencePattern(base, groups[1..])
  }

  /** None of the four terminal forms starts at `i`. */
  predicate NoTerminalAt(t: string, i: nat)
    requires i <= |t|
  {
    CharValEnd(t, i).None? && NumRangeToken(t, i).None? && NumSeqToken(t, i).None? && ProseValEnd(t, i).None?
  }

  /** The terminal elements: char-val, num-val range, num-val, prose-val,
      tried in that order; `""` at the position given when none is there. */
  function TerminalElement(t: string, i: nat): (r: Result<(string, nat), AbnfError>)
    requires i <= |t|
    ensures r.Success? ==> i <= r.value.1 <= |t|
    ensures r.Failure? ==> r.error == RangeNotIncreasing
    ensures r.Failure? ==> CharValEnd(t, i).None? && NumRangeToken(t, i).Some?
    ensures r.Success? && r.value.1 == i ==> r.value.0 == ""
  {
    match CharValEnd(t, i)
    case Some(j) => Success((LiteralPattern(t[i + 1..j - 1]), j))
    case None =>
      match NumRangeToken(t, i)
      case Some((tok, j)) =>
        var p :- RangePattern(tok);
        Success((p, j))
      case None =>
        match NumSeqToken(t, i)
        case Some((tok, j)) => Success((SequencePattern(tok.base, tok.groups), j))
        case None =>
          match ProseValEnd(t, i)
          case Some(j) => Success((LiteralPattern(t[i + 1..j - 1]), j))
          case None => Success(("", i))
  }

  /** `elementToRegExpString`: a rule reference, a group, an option or a
      terminal; `""` when no element starts at `i`. */
  function Element(t: string, i: nat, rules: Rules): (r: Result<(string, nat), AbnfError>)
    requires i <= |t|
    ensures r.Success? ==> i <= r.value.1 <= |t|
    ensures r.Success? && r.value.1 == i ==> r.value.0 == ""
    ensures RuleNameEnd(t, i).Some? && r.Failure? ==> r.error == UndefinedRule(Lower(t[i..RuleNameEnd(t, i).value]))
    decreases |t| - i, 0
  {
    match RuleNameEnd(t, i)
    case Some(j) =>
      var p :- Reference(Lower(t[i..j]), rules);
      Success((p, j))
    case None =>
      if i < |t| && t[i] == '(' then
        var a :- Alternation(t, SkipWsp(t, i + 1), rules);
        var k := SkipWsp(t, a.1);
        if k < |t| && t[k] == ')' then Success((a.0, k + 1)) else Failure(ExpectedClose(')'))
      else if i < |t| && t[i] == '[' then
        var a :- Alternation(t, SkipWsp(t, i + 1), rules);
        var k := SkipWsp(t, a.1);
        if k < |t| && t[k] == ']' then Success(("(?:" + a.0 + ")?", k + 1)) else Failure(ExpectedClose(']'))
      else TerminalElement(t, i)
  }

  /** `formatRepeat(context.match(REPEAT_RE))`: the quantifier and the
      position after the repeat prefix. It fails exactly on a range whose
      minimum exceeds its maximum; otherwise the quantifier denotes the
      bounds of the prefix read (once when there is none). */
  function RepeatAt(t: string, i: nat): (r: Result<(string, nat), AbnfError>)
    requires i <= |t|
    ensures r.Success? ==> i <= r.value.1 <= |t|
    ensures r.Success? ==> (r.value.0 == "" <==> ScanRepeat(t, i).None?)
    ensures r.Success? && r.value.0 == "" ==> r.value.1 == i
    ensures r.Failure? ==> r.error == RepeatRange
    ensures r.Failure? <==> ScanRepeat(t, i).Some? && Inverted(ScanRepeat(t, i).value.0)
    ensures r.Success? && ScanRepeat(t, i).Some? ==>
      && r.value.1 == ScanRepeat(t, i).value.1
      && ReadQuantifier(r.value.0) == Some(RepeatBounds(Some(ScanRepeat(t, i).value.0)))
    ensures r.Success? && ScanRepeat(t, i).None? ==> ReadQuantifier(r.value.0) == Some(RepeatBounds(None))
  {
    match ScanRepeat(t, i)
    case None => Success(("", i))
    case Some((rep, j)) =>
      match FormatRepeat(Some(rep))
      case Success(q) =>
        FormatRepeatMeansBounds(Some(rep));
        Success((q, j))
      case Failure(_) => Failure(RepeatRange)
  }

  /** One repeated element of a concatenation: its pattern and quantifier. */
  datatype Piece = Piece(element: string, quantifier: string)

  /** A piece as written into the pattern: wrapped in `(?:…)` only when it
      has a quantifier. */
  function RenderPiece(p: Piece): string {
    if p.quantifier == "" then p.element else "(?:" + p.element + ")" + p.quantifier
  }

  function RenderPieces(ps: seq<Piece>): string {
    if ps == [] then "" else RenderPiece(ps[0]) + RenderPieces(ps[1..])
  }

  /** The loop of `concatenationToRegExpString` from `i`; `first` when no
      element has been read yet. An element that yields `""` ends the loop
      after the first one, unless a repeat preceded it. */
  function ConcatFrom(t: string, i: nat, rules: Rules, first: bool): (r: Result<(seq<Piece>, nat), AbnfError>)
    requires i <= |t|
    ensures r.Success? ==> i <= r.value.1 <= |t|
    ensures r.Success? && first ==> |r.value.0| >= 1
    ensures r.Success? ==> forall k | 0 <= k < |r.value.0| :: r.value.0[k].element != ""
    decreases |t| - i, 1
  {
    var q :- RepeatAt(t, i);
    var e :- Element(t, q.1, rules);
    if e.0 == "" then
      if q.0 == "" && !first then Success(([], e.1)) else Failure(ExpectedElement)
    else
      var piece := Piece(e.0, q.0);
      if e.1 == |t| then Success(([piece], e.1))
      else
        var w := SkipWsp(t, e.1);
        if w == e.1 then Success(([piece], e.1))
        else
          var rest :- ConcatFrom(t, w, rules, false);
          var ps := [piece] + rest.0;
          assert forall k | 0 <= k < |ps| :: ps[k].element != "" by {
            forall k | 0 < k < |ps| ensures ps[k].element != "" {
              assert ps[k] == rest.0[k - 1];
            }
          }
          Success((ps, rest.1))
  }

  /** `concatenationToRegExpString`. */
  function Concatenation(t: string, i: nat, rules: Rules): (r: Result<(string, nat), AbnfError>)
    requires i <= |t|
    ensures r.Success? ==> i <= r.value.1 <= |t| && r.value.0 != ""
    decreases |t| - i, 2
  {
    var ps :- ConcatFrom(t, i, rules, true);
    Success((RenderPieces(ps.0), ps.1))
  }

  /** The loop of `alternationToRegExpString`: the concatenations separated by `/`. */
  function Alternatives(t: string, i: nat, rules: Rules): (r: Result<(seq<string>, nat), AbnfError>)
    requires i <= |t|
    ensures r.Success? ==> i <= r.value.1 <= |t| && |r.value.0| >= 1
    ensures r.Success? ==> forall k | 0 <= k < |r.value.0| :: r.value.0[k] != ""
    decreases |t| - i, 3
  {
    var c :- Concatenation(t, i, rules);
    MoreAlternatives(t, c.0, c.1, rules)
  }

  /** After the concatenation `c` ending at `ce`: a `/` past white space
      starts the next alternative, otherwise `c` is the last one. */
  function MoreAlternatives(t: string, c: string, ce: nat, rules: Rules): (r: Result<(seq<string>, nat), AbnfError>)
    requires ce <= |t| && c != ""
    ensures r.Success? ==> ce <= r.value.1 <= |t| && |r.value.0| >= 1
    ensures r.Success? ==> forall k | 0 <= k < |r.value.0| :: r.value.0[k] != ""
    decreases |t| - ce, 2
  {
    var k := SkipWsp(t, ce);
    if k < |t| && t[k] == '/' then
      var rest :- Alternatives(t, SkipWsp(t, k + 1), rules);
      Success(([c] + rest.0, rest.1))
    else Success(([c], k))
  }

  /** `alternationToRegExpString`: one alternative as it is, several joined
      by `|` inside `(?:…)`. */
  function Alternation(t: string, i: nat, rules: Rules): (r: Result<(string, nat), AbnfError>)
    requires i <= |t|
    ensures r.Success? ==> i <= r.value.1 <= |t| && r.value.0 != ""
    decreases |t| - i, 4
  {
    var alts :- Alternatives(t, i, rules);
    if |alts.0| == 1 then Success((alts.0[0], alts.1))
    else Success(("(?:" + Join(alts.0, "|") + ")", alts.1))
  }

  /** Storing a definition: `=` sets the rule, `=/` appends `|` and the new
      alternatives to what the rule held. */
  function Define(rules: Rules, name: string, incremental: bool, pattern: string): (r: Rules)
    requires incremental ==> name in rules
    ensures r.Keys == rules.Keys + {name}
    ensures r[name] == if incremental then rules[name] + "|" + pattern else pattern
    ensures forall other | other in rules && other != name :: r[other] == rules[other]
  {
    if incremental then rules[name := rules[name] + "|" + pattern] else rules[name := pattern]
  }

  /** Every rule of `earlier` is still in `later`. */
  predicate KeepsKeys(earlier: Rules, later: Rules) {
    earlier.Keys <= later.Keys
  }

  /** The rule-list loop of `ABNF` from position `i`: blank or comment lines
      are skipped; each definition is read and stored; a definition must be
      followed by a line end or the end of the text. */
  function RuleList(t: string, i: nat, rules: Rules): (r: Result<Rules, AbnfError>)
    requires i <= |t|
    ensures r.Success? ==> KeepsKeys(rules, r.value)
    decreases |t| - i
  {
    match RuleNameEnd(t, i)
    case None =>
      var j := SkipWsp(t, i);
      if j == |t| then Success(rules)
      else
        (match CNl(t, j)
         case Some(k) => RuleList(t, k, rules)
         case None => Failure(ExpectedNewLine))
    case Some(j) =>
      var name := Lower(t[i..j]);
      if name in CoreRules then Failure(CoreRuleRedefined(name))
      else
        match DefinedAs(t, SkipWsp(t, j))
        case None => Failure(ExpectedDefinedAs)
        case Some((incremental, k)) =>
          if incremental && name !in rules then Failure(UndefinedIncrement(name))
          else
            var a :- Alternation(t, SkipWsp(t, k), rules);
            var m := SkipWsp(t, a.1);
            var rules' := Define(rules, name, incremental, a.0);
            if m == |t| then Success(rules')
            else
              match CNl(t, m)
              case Some(n) => RuleList(t, n, rules')
              case None => Failure(ExpectedNewLine)
  }

  const PlaceholderPrefix: string := "placeholder-rule-"

  predicate IsPlaceholderName(name: string) {
    PlaceholderPrefix <= name
  }

  /** Every rule of the table is a placeholder. */
  predicate AllPlaceholders(rules: Rules) {
    forall name | name in rules :: IsPlaceholderName(name)
  }

  /** The published table: every rule except the placeholders. */
  function StripPlaceholders(rules: Rules): (r: Rules)
    ensures forall name :: name in r <==> name in rules && !IsPlaceholderName(name)
    ensures forall name | name in r :: r[name] == rules[name]
  {
    map name | name in rules && !IsPlaceholderName(name) :: rules[name]
  }

  /** Compiling grammar text against an initial table (the placeholder
      rules): the rule list from the start, placeholders removed. No
      placeholder is published, and no other rule of the initial table is
      lost. */
  function Compile(t: string, initial: Rules): (r: Result<Rules, AbnfError>)
    ensures r.Success? ==> forall name | name in r.value :: !IsPlaceholderName(name)
    ensures r.Success? ==> forall name | name in initial && !IsPlaceholderName(name) :: name in r.value
    ensures r.Failure? <==> RuleList(t, 0, initial).Failure?
  {
    var rules :- RuleList(t, 0, initial);
    Success(StripPlaceholders(rules))
  }
}
