/** What the ABNF compiler promises beyond each function's own contract
    (ABNF.js): the rule table only grows and never takes a core-rule name,
    the white-space scanner is `matchMany(C_WSP_RE)`, a concatenation is
    written piece by piece in order, a quote-free string becomes one quoted
    literal, each distinct spliced RegExp gets one placeholder rule numbered
    from 0, and a sample rule compiles to the expected pattern. */
module AbnfFacts {
  import opened Wrappers
  import opened Numerals
  import opened Matcher
  import opened AbnfLexer
  import opened AbnfFormat
  import opened AbnfCompiler
  import opened AbnfTemplate

  // The rule table.

  /** `later` keeps every rule of `earlier`, and every rule it adds has a
      name that is not a core rule's. */
  ghost predicate KeepsRules(earlier: Rules, later: Rules) {
    && (forall name | name in earlier :: name in later)
    && (forall name | name in later && name !in earlier :: name !in CoreRules)
  }

  lemma KeepsRulesTransitive(a: Rules, b: Rules, c: Rules)
    requires KeepsRules(a, b) && KeepsRules(b, c)
    ensures KeepsRules(a, c)
  {
  }

  /** The rule-list loop keeps every rule it was given, and never adds a
      rule under a core rule's name. */
  lemma {:induction false} RuleListKeys(t: string, i: nat, rules: Rules)
    requires i <= |t|
    ensures RuleList(t, i, rules).Success? ==> KeepsRules(rules, RuleList(t, i, rules).value)
    decreases |t| - i, 2
  {
    match RuleNameEnd(t, i)
    case None =>
      var j := SkipWsp(t, i);
      if j < |t| {
        match CNl(t, j)
        case Some(k) => RuleListKeys(t, k, rules);
        case None =>
      }
    case Some(j) =>
      DefinitionKeys(t, i, j, rules);
  }

  /** One definition, from its rule name at `i` to `j`, and the loop after it. */
  lemma {:induction false} DefinitionKeys(t: string, i: nat, j: nat, rules: Rules)
    requires i <= |t| && RuleNameEnd(t, i) == Some(j)
    ensures RuleList(t, i, rules).Success? ==> KeepsRules(rules, RuleList(t, i, rules).value)
    decreases |t| - i, 1
  {
    var name := Lower(t[i..j]);
    if name !in CoreRules {
      match DefinedAs(t, SkipWsp(t, j))
      case None =>
      case Some((incremental, k)) =>
        if !incremental || name in rules {
          match Alternation(t, SkipWsp(t, k), rules)
          case Failure(_) =>
          case Success((p, e)) => StoredKeys(t, i, j, k, incremental, p, e, rules);
        }
    }
  }

  /** The definition's alternation has been read as `p`, ending at `e`. */
  lemma {:induction false} StoredKeys(t: string, i: nat, j: nat, k: nat, incremental: bool, p: string, e: nat, rules: Rules)
    requires i <= |t| && RuleNameEnd(t, i) == Some(j) && Lower(t[i..j]) !in CoreRules
    requires DefinedAs(t, SkipWsp(t, j)) == Some((incremental, k))
    requires !incremental || Lower(t[i..j]) in rules
    requires Alternation(t, SkipWsp(t, k), rules) == Success((p, e))
    ensures RuleList(t, i, rules).Success? ==> KeepsRules(rules, RuleList(t, i, rules).value)
    decreases |t| - i, 0
  {
    var m := SkipWsp(t, e);
    var rules' := Define(rules, Lower(t[i..j]), incremental, p);
    assert KeepsRules(rules, rules');
    if m < |t| {
      match CNl(t, m)
      case Some(n) =>
        RuleListKeys(t, n, rules');
        if RuleList(t, n, rules').Success? {
          KeepsRulesTransitive(rules, rules', RuleList(t, n, rules').value);
        }
      case None =>
    }
  }

  /** A definition that ends the text is stored and ends the loop. */
  lemma LastDefinition(t: string, i: nat, j: nat, k: nat, p: string, e: nat, rules: Rules)
    requires i <= |t| && RuleNameEnd(t, i) == Some(j) && Lower(t[i..j]) !in CoreRules
    requires DefinedAs(t, SkipWsp(t, j)) == Some((false, k))
    requires Alternation(t, SkipWsp(t, k), rules) == Success((p, e)) && SkipWsp(t, e) == |t|
    ensures RuleList(t, i, rules) == Success(Define(rules, Lower(t[i..j]), false, p))
  {
  }

  /** A compiled table, started from no rules, holds no core-rule name. */
  lemma CompiledNamesAreNotCore(t: string)
    ensures Compile(t, map[]).Success? ==> forall name | name in Compile(t, map[]).value :: name !in CoreRules
  {
    RuleListKeys(t, 0, map[]);
    if RuleList(t, 0, map[]).Success? {
      assert KeepsRules(map[], RuleList(t, 0, map[]).value);
    }
  }

  // The white-space scanner as the context's `matchMany`.

  /** C_WSP_RE as a total anchored scanner. */
  function CWspScan(t: string, i: nat): Option<nat> {
    if i <= |t| then CWsp(t, i) else None
  }

  /** What the sticky expression built from the scanner answers at `j`. */
  lemma CWspExec(t: string, j: nat)
    requires j <= |t|
    ensures Sticky(CWspScan).exec(t, j) ==
      match CWsp(t, j)
      case Some(e) => Some(ExecResult(e, [Some(t[j..e])], map[]))
      case None => None
  {
    assert CWspScan(t, j) == CWsp(t, j);
  }

  /** Every match of C_WSP_RE moves forward. */
  lemma CWspAdvances(t: string, i: nat)
    ensures AdvancesFrom(Sticky(CWspScan), t, i)
  {
    forall j: nat | i <= j <= |t|
      ensures AdvancesAt(Sticky(CWspScan), t, j)
    {
      CWspExec(t, j);
    }
  }

  /** `SkipWsp` stops where `matchMany(C_WSP_RE)` leaves the cursor. */
  lemma {:induction false} SkipWspIsMatchMany(t: string, i: nat)
    requires i <= |t|
    ensures AdvancesFrom(Sticky(CWspScan), t, i)
    ensures ManyEnd(Sticky(CWspScan), t, i) == SkipWsp(t, i)
    decreases |t| - i
  {
    CWspAdvances(t, i);
    CWspExec(t, i);
    match CWsp(t, i)
    case None =>
    case Some(k) =>
      SkipWspIsMatchMany(t, k);
  }

  // Concatenation.

  /** The pieces of a concatenation are written one after another, in order. */
  lemma {:induction false} RenderPiecesAppend(a: seq<Piece>, b: seq<Piece>)
    ensures RenderPieces(a + b) == RenderPieces(a) + RenderPieces(b)
    decreases |a|
  {
    if a == [] {
      assert a + b == b;
    } else {
      assert (a + b)[0] == a[0] && (a + b)[1..] == a[1..] + b;
      RenderPiecesAppend(a[1..], b);
    }
  }

  // Strings spliced into a template.

  predicate QuoteFree(s: string) {
    forall k | 0 <= k < |s| :: s[k] != '"'
  }

  lemma {:induction false} ReplaceQuoteFree(s: string)
    requires QuoteFree(s)
    ensures ReplaceQuoteRuns(s) == s
    decreases |s|
  {
    if s != [] {
      assert QuoteFree(s[1..]);
      ReplaceQuoteFree(s[1..]);
      assert [s[0]] + s[1..] == s;
    }
  }

  /** Quote-free text is kept as it is, whatever follows it. */
  lemma {:induction false} RemovePairsQuoteFree(s: string, tail: string)
    requires QuoteFree(s)
    ensures RemoveEmptyPairs(s + tail) == s + RemoveEmptyPairs(tail)
    decreases |s|
  {
    if s == [] {
      assert s + tail == tail;
    } else {
      assert (s + tail)[0] == s[0] && (s + tail)[1..] == s[1..] + tail;
      assert QuoteFree(s[1..]);
      RemovePairsQuoteFree(s[1..], tail);
      assert [s[0]] + (s[1..] + RemoveEmptyPairs(tail)) == s + RemoveEmptyPairs(tail);
    }
  }

  /** A non-empty string without double quotes becomes the ABNF literal
      `"s"`. */
  lemma QuoteFreeLiteral(s: string)
    requires s != [] && QuoteFree(s)
    ensures StringToAbnf(s) == "\"" + s + "\""
  {
    ReplaceQuoteFree(s);
    QuotedPairsKept(s);
    TrimQuoted("\"" + s + "\"");
  }

  /** Quotes around a non-empty quote-free text are no empty pair. */
  lemma QuotedPairsKept(s: string)
    requires s != [] && QuoteFree(s)
    ensures RemoveEmptyPairs("\"" + s + "\"") == "\"" + s + "\""
  {
    var q := "\"" + s + "\"";
    assert q[0] == '"' && q[1] == s[0] && q[1..] == s + "\"";
    RemovePairsQuoteFree(s, "\"");
    assert RemoveEmptyPairs("\"") == "\"";
    assert RemoveEmptyPairs(q) == [q[0]] + RemoveEmptyPairs(q[1..]);
  }

  /** Text that starts and ends with a quote has nothing to trim. */
  lemma TrimQuoted(q: string)
    requires |q| >= 2 && q[0] == '"' && q[|q| - 1] == '"'
    ensures Trim(q) == q
  {
  }

  /** A lone double quote becomes a reference to the DQUOTE core rule. */
  lemma QuoteAlone()
    ensures StringToAbnf("\"") == "DQUOTE"
  {
    LoneQuotePairs();
    TrimDquote();
  }

  /** The lone quote's run and the empty literals around it. */
  lemma LoneQuotePairs()
    ensures RemoveEmptyPairs("\"" + ReplaceQuoteRuns("\"") + "\"") == " DQUOTE "
  {
    assert QuoteRun("\"") == 1;
    assert "\""[1..] == "";
    assert ReplaceQuoteRuns("\"") == "\" DQUOTE \"";
    var q := "\"" + "\" DQUOTE \"" + "\"";
    assert q[0] == '"' && q[1] == '"';
    assert q[2..] == " DQUOTE " + "\"\"";
    assert QuoteFree(" DQUOTE ");
    RemovePairsQuoteFree(" DQUOTE ", "\"\"");
    assert "\"\""[2..] == "";
    assert RemoveEmptyPairs("\"\"") == "";
    assert RemoveEmptyPairs(q) == RemoveEmptyPairs(q[2..]);
  }

  lemma TrimDquote()
    ensures Trim(" DQUOTE ") == "DQUOTE"
  {
    TrimStartDquote();
    TrimEndDquote();
  }

  lemma TrimStartDquote()
    ensures TrimStart(" DQUOTE ") == "DQUOTE "
  {
    var s := " DQUOTE ";
    assert IsJsWhitespace(s[0]);
    assert s[1..] == "DQUOTE ";
    assert !IsJsWhitespace(s[1..][0]);
  }

  lemma TrimEndDquote()
    ensures TrimEnd("DQUOTE ") == "DQUOTE"
  {
    var s := "DQUOTE ";
    assert IsJsWhitespace(s[|s| - 1]);
    assert s[..|s| - 1] == "DQUOTE";
    assert !IsJsWhitespace("DQUOTE"[5]);
  }

  // Placeholder rules.

  lemma PlaceholderNameInjective(a: nat, b: nat)
    ensures PlaceholderName(a) == PlaceholderName(b) ==> a == b
  {
    if PlaceholderName(a) == PlaceholderName(b) {
      var n := |PlaceholderPrefix|;
      assert PlaceholderName(a)[n..] == Decimal(a);
      assert PlaceholderName(b)[n..] == Decimal(b);
      ToDigitsValue(a, 10);
      ToDigitsValue(b, 10);
    }
  }

  /** The placeholder names numbered 0 to `count - 1`. */
  ghost function PlaceholderNames(count: nat): set<string> {
    set k: nat | k < count :: PlaceholderName(k)
  }

  /** The rules are the placeholders numbered 0 to `count - 1`. */
  ghost predicate RulesNumbered(rules: Rules, count: nat) {
    rules.Keys == PlaceholderNames(count)
  }

  /** Each RegExp seen has a placeholder, two different RegExps never share
      one, and each placeholder belongs to a RegExp. */
  ghost predicate IdsOwnRules(ids: map<nat, string>, rules: Rules) {
    && ids.Values == rules.Keys
    && (forall a, b | a in ids && b in ids && a != b :: ids[a] != ids[b])
  }

  /** The placeholder bookkeeping of the splicing loop. */
  ghost predicate PlaceholdersNumbered(st: Splice) {
    RulesNumbered(st.rules, st.count) && IdsOwnRules(st.ids, st.rules)
  }

  /** Splicing one value keeps the placeholder bookkeeping. */
  lemma SpliceValueNumbered(st: Splice, v: TemplateValue)
    requires PlaceholdersNumbered(st)
    ensures PlaceholdersNumbered(SpliceValue(st, v))
  {
    if v.Pat? && v.id !in st.ids {
      var name := PlaceholderName(st.count);
      NextPlaceholderIsNew(st.rules, st.count);
      NewPlaceholderNumbered(st.rules, st.count, v.source);
      NewPlaceholderOwned(st.ids, st.rules, v.id, name, v.source);
    }
  }

  /** The next placeholder name is not one of the rules yet. */
  lemma NextPlaceholderIsNew(rules: Rules, count: nat)
    requires RulesNumbered(rules, count)
    ensures PlaceholderName(count) !in rules
  {
    forall k: nat | k < count
      ensures PlaceholderName(k) != PlaceholderName(count)
    {
      PlaceholderNameInjective(k, count);
    }
  }

  lemma NewPlaceholderNumbered(rules: Rules, count: nat, source: string)
    requires RulesNumbered(rules, count)
    ensures RulesNumbered(rules[PlaceholderName(count) := source], count + 1)
  {
    assert PlaceholderNames(count + 1) == PlaceholderNames(count) + {PlaceholderName(count)};
  }

  lemma NewPlaceholderOwned(ids: map<nat, string>, rules: Rules, id: nat, name: string, source: string)
    requires IdsOwnRules(ids, rules) && id !in ids && name !in rules
    ensures IdsOwnRules(ids[id := name], rules[name := source])
  {
    var ids' := ids[id := name];
    assert ids'.Values == ids.Values + {name} by {
      forall n | n in ids.Values
        ensures n in ids'.Values
      {
        var i :| i in ids && ids[i] == n;
        assert ids'[i] == n;
      }
      assert ids'[id] == name;
    }
  }

  /** One step of the splicing loop: the `i`th string, then the `i`th value
      if there is one, keeps the placeholder bookkeeping. */
  lemma SpliceStepNumbered(st: Splice, s: string, args: seq<TemplateValue>, i: nat, next: Splice)
    requires PlaceholdersNumbered(st)
    requires next == (var st' := st.(abnf := st.abnf + s); if i < |args| then SpliceValue(st', args[i]) else st')
    ensures PlaceholdersNumbered(next)
  {
    var st' := st.(abnf := st.abnf + s);
    assert PlaceholdersNumbered(st');
    if i < |args| {
      SpliceValueNumbered(st', args[i]);
    }
  }

  /** After any number of template strings, the placeholder bookkeeping holds. */
  lemma {:induction false} SpliceNumbered(strs: seq<string>, args: seq<TemplateValue>, n: nat)
    requires n <= |strs|
    ensures PlaceholdersNumbered(SpliceUpTo(strs, args, n))
    decreases n
  {
    if n > 0 {
      SpliceNumbered(strs, args, n - 1);
      SpliceUpToNumbered(strs, args, n);
    }
  }

  lemma SpliceUpToNumbered(strs: seq<string>, args: seq<TemplateValue>, n: nat)
    requires 0 < n <= |strs| && PlaceholdersNumbered(SpliceUpTo(strs, args, n - 1))
    ensures PlaceholdersNumbered(SpliceUpTo(strs, args, n))
  {
    SpliceStepNumbered(SpliceUpTo(strs, args, n - 1), strs[n - 1], args, n - 1, SpliceUpTo(strs, args, n));
  }

  /** The rules a template hands to the compiler are exactly the
      placeholders numbered from 0, one for each distinct RegExp. */
  lemma TemplatePlaceholders(strs: seq<string>, args: seq<TemplateValue>)
    ensures forall name :: name in TaggedTemplate(strs, args).1 <==>
      exists k | 0 <= k < SpliceUpTo(strs, args, |strs|).count :: name == PlaceholderName(k)
  {
    SpliceNumbered(strs, args, |strs|);
    var st := SpliceUpTo(strs, args, |strs|);
    forall name
      ensures name in st.rules <==> exists k | 0 <= k < st.count :: name == PlaceholderName(k)
    {
      if name in st.rules {
        assert name in PlaceholderNames(st.count);
      }
    }
  }

  // A sample rule: `year = 4*DIGIT` from the HTTP date grammar.

  const YearRule: string := "year = 4*DIGIT"

  lemma YearTokens()
    ensures RuleNameEnd(YearRule, 0) == Some(4) && Lower(YearRule[0..4]) == "year"
    ensures SkipWsp(YearRule, 4) == 5 && DefinedAs(YearRule, 5) == Some((false, 6)) && SkipWsp(YearRule, 6) == 7
    ensures RuleNameEnd(YearRule, 9) == Some(14) && Lower(YearRule[9..14]) == "digit"
    ensures SkipWsp(YearRule, 14) == 14
  {
    var t := YearRule;
    ClassEndOver(t, 1, 3, RuleNameChars);
    ClassEndOver(t, 10, 4, RuleNameChars);
    assert CWsp(t, 5) == None by { assert CommentEnd(t, 5) == 5; }
    assert CWsp(t, 7) == None by { assert CommentEnd(t, 7) == 7; }
    assert SkipWsp(t, 5) == 5;
    assert SkipWsp(t, 7) == 7;
  }

  /** `4*` is the quantifier `{4,}`. */
  lemma YearRepeat()
    ensures RepeatAt(YearRule, 7) == Success(("{4,}", 9))
  {
    var t := YearRule;
    ClassEndOver(t, 7, 1, Digits);
    ClassEndOver(t, 9, 0, Digits);
    assert t[7..8] == "4";
    assert ParseDigits("4", 10) == 4;
    assert ScanRepeat(t, 7) == Some((Between(Some(4), None), 9));
    assert Decimal(4) == "4";
    assert "{" + "4" + ",}" == "{4,}";
    assert FormatRepeat(Some(Between(Some(4), None))) == Success("{4,}");
  }

  /** `DIGIT` refers to the core rule, `[0-9]`. */
  lemma YearElement()
    ensures Element(YearRule, 9, map[]) == Success(("[0-9]", 14))
  {
    YearTokens();
  }

  /** `4*DIGIT` is one piece: `[0-9]` with the quantifier `{4,}`. */
  lemma YearPieces()
    ensures ConcatFrom(YearRule, 7, map[], true) == Success(([Piece("[0-9]", "{4,}")], 14))
  {
    YearRepeat();
    YearElement();
  }

  /** `4*DIGIT` is the one piece `(?:[0-9]){4,}`. */
  lemma YearConcatenation()
    ensures Concatenation(YearRule, 7, map[]) == Success(("(?:[0-9]){4,}", 14))
  {
    YearPieces();
    var ps := [Piece("[0-9]", "{4,}")];
    assert Concatenation(YearRule, 7, map[]) == Success((RenderPieces(ps), 14));
    YearRender();
  }

  lemma YearRender()
    ensures RenderPieces([Piece("[0-9]", "{4,}")]) == "(?:[0-9]){4,}"
  {
    var ps := [Piece("[0-9]", "{4,}")];
    assert "(?:" + "[0-9]" + ")" + "{4,}" == "(?:[0-9]){4,}";
    assert ps[1..] == [];
    assert RenderPieces(ps) == "(?:[0-9]){4,}" + RenderPieces([]);
  }

  /** `4*DIGIT` is the pattern `(?:[0-9]){4,}`. */
  lemma YearPattern()
    ensures Alternation(YearRule, 7, map[]) == Success(("(?:[0-9]){4,}", 14))
  {
    YearTokens();
    YearConcatenation();
    assert Alternatives(YearRule, 7, map[]) == Success((["(?:[0-9]){4,}"], 14));
  }

  lemma YearIsNotCore()
    ensures "year" !in CoreRules
  {
  }

  /** The rule list stores the one definition. */
  lemma YearRuleList()
    ensures RuleList(YearRule, 0, map[]) == Success(map["year" := "(?:[0-9]){4,}"])
  {
    YearTokens();
    YearPattern();
    YearIsNotCore();
    LastDefinition(YearRule, 0, 4, 6, "(?:[0-9]){4,}", 14, map[]);
    assert Define(map[], "year", false, "(?:[0-9]){4,}") == map["year" := "(?:[0-9]){4,}"];
  }

  /** The rule compiles to a table with the one rule `year`. */
  lemma CompileYear()
    ensures Compile(YearRule, map[]) == Success(map["year" := "(?:[0-9]){4,}"])
  {
    YearRuleList();
    var m := map["year" := "(?:[0-9]){4,}"];
    assert !IsPlaceholderName("year") by { assert PlaceholderPrefix[0] != "year"[0]; }
    assert StripPlaceholders(m) == m;
  }
}
