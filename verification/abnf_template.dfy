/** The template layer of the ABNF compiler (ABNF.js lines 40-55, 253-300
    and 302-364): the grammar is written as template text with values
    spliced in. A string becomes a quoted literal, a list of strings a
    parenthesised alternation of literals, and a regular expression a
    reference to a placeholder rule holding its source; the placeholders
    are dropped from the table returned. */
module AbnfTemplate {
  import opened Wrappers
  import opened Numerals
  import opened AbnfLexer
  import opened AbnfFormat
  import opened AbnfCompiler

  /** A spliced value. `Pat(id, source)` is a RegExp object: `id` stands for
      its identity and `source` for its `.source`. */
  datatype TemplateValue = Lit(s: string) | LitSet(strings: seq<string>) | Pat(id: nat, source: string)

  /** White space and line terminators as `String.prototype.trim` removes them. */
  predicate IsJsWhitespace(c: char) {
    || c == '\t' || c == '\n' || c == '\U{000B}' || c == '\U{000C}' || c == '\r' || c == ' '
    || c == '\U{00A0}' || c == '\U{1680}' || ('\U{2000}' <= c <= '\U{200A}')
    || c == '\U{2028}' || c == '\U{2029}' || c == '\U{202F}' || c == '\U{205F}'
    || c == '\U{3000}' || c == '\U{FEFF}'
  }

  /** `trimStart`: drops the leading white space, and only that. */
  function TrimStart(s: string): (r: string)
    ensures |r| <= |s| && r == s[|s| - |r|..]
    ensures forall k | 0 <= k < |s| - |r| :: IsJsWhitespace(s[k])
    ensures r != [] ==> !IsJsWhitespace(r[0])
    ensures s != [] && !IsJsWhitespace(s[0]) ==> r == s
  {
    if s != [] && IsJsWhitespace(s[0]) then
      var r := TrimStart(s[1..]);
      assert s[1..][|s| - 1 - |r|..] == s[|s| - |r|..];
      assert forall k | 0 <= k < |s| - |r| :: IsJsWhitespace(s[k]) by {
        forall k | 0 < k < |s| - |r| ensures IsJsWhitespace(s[k]) {
          assert s[k] == s[1..][k - 1];
        }
      }
      r
    else s
  }

  /** `trimEnd`: drops the trailing white space, and only that. */
  function TrimEnd(s: string): (r: string)
    ensures |r| <= |s| && r == s[..|r|]
    ensures forall k | |r| <= k < |s| :: IsJsWhitespace(s[k])
    ensures r != [] ==> !IsJsWhitespace(r[|r| - 1])
    ensures s != [] && !IsJsWhitespace(s[|s| - 1]) ==> r == s
  {
    if s != [] && IsJsWhitespace(s[|s| - 1]) then TrimEnd(s[..|s| - 1]) else s
  }

  /** Text that neither starts nor ends with white space. */
  predicate Trimmed(s: string) {
    s != [] ==> !IsJsWhitespace(s[0]) && !IsJsWhitespace(s[|s| - 1])
  }

  /** `String.prototype.trim`. */
  function Trim(s: string): string {
    TrimEnd(TrimStart(s))
  }

  /** Trimming gives trimmed text, and leaves trimmed text as it is. */
  lemma TrimTrimmed(s: string)
    ensures Trimmed(Trim(s)) && |Trim(s)| <= |s|
    ensures Trimmed(s) ==> Trim(s) == s
  {
  }

  /** The length of the run of double quotes that starts `s`. */
  function QuoteRun(s: string): (n: nat)
    ensures n <= |s|
    ensures forall k | 0 <= k < n :: s[k] == '"'
    ensures n < |s| ==> s[n] != '"'
  {
    if s != [] && s[0] == '"' then 1 + QuoteRun(s[1..]) else 0
  }

  /** What a run of `n` quotes is replaced with: the literal is closed, the
      quotes are referenced through the DQUOTE core rule, and a new literal
      is opened. */
  function QuoteRunText(n: nat): string {
    if n == 1 then "\" DQUOTE \"" else "\" " + Decimal(n) + "(DQUOTE) \""
  }

  /** `string.replace(/"+/g, …)`. */
  function ReplaceQuoteRuns(s: string): string
    decreases |s|
  {
    if s == [] then []
    else if s[0] == '"' then
      var n := QuoteRun(s);
      QuoteRunText(n) + ReplaceQuoteRuns(s[n..])
    else [s[0]] + ReplaceQuoteRuns(s[1..])
  }

  /** `.replace(/""/g, "")`: drops each empty literal, left to right. */
  function RemoveEmptyPairs(s: string): string
    decreases |s|
  {
    if |s| >= 2 && s[0] == '"' && s[1] == '"' then RemoveEmptyPairs(s[2..])
    else if s == [] then []
    else [s[0]] + RemoveEmptyPairs(s[1..])
  }

  /** `stringToABNF`: a string as ABNF text matching it, with its double
      quotes written as DQUOTE references. */
  function StringToAbnf(s: string): string {
    Trim(RemoveEmptyPairs("\"" + ReplaceQuoteRuns(s) + "\""))
  }

  /** The ABNF text of a string is trimmed, and empty for the empty string. */
  lemma StringToAbnfTrimmed(s: string)
    ensures Trimmed(StringToAbnf(s))
    ensures s == "" ==> StringToAbnf(s) == ""
  {
    var quoted := "\"" + ReplaceQuoteRuns(s) + "\"";
    TrimTrimmed(RemoveEmptyPairs(quoted));
    assert s == "" ==> quoted == "\"\"" && RemoveEmptyPairs(quoted) == RemoveEmptyPairs(quoted[2..]) == "";
  }

  function PlaceholderName(k: nat): string {
    PlaceholderPrefix + Decimal(k)
  }

  /** The state of the splicing loop: the text so far, the placeholder name
      of each RegExp seen (`ruleIDs`), the rules table and `ruleCount`. */
  datatype Splice = Splice(abnf: string, ids: map<nat, string>, rules: Rules, count: nat)

  /** `if (!abnf.endsWith(" ")) abnf += " "`. */
  function SpaceAfter(abnf: string): (r: string)
    ensures r == abnf || r == abnf + " "
    ensures |r| >= 1 && r[|r| - 1] == ' '
  {
    if |abnf| >= 1 && abnf[|abnf| - 1] == ' ' then abnf else abnf + " "
  }

  /** `strings.filter(Boolean)`: the non-empty strings, each as often as
      it occurs (their order is `NonEmptyAppend`). */
  function NonEmpty(ss: seq<string>): (r: seq<string>)
    ensures forall k | 0 <= k < |r| :: r[k] != ""
    ensures (forall k | 0 <= k < |ss| :: ss[k] == "") ==> r == []
    ensures multiset(r) == multiset(ss)["" := 0]
  {
    if ss == [] then []
    else
      assert ss == [ss[0]] + ss[1..];
      if ss[0] == "" then NonEmpty(ss[1..]) else [ss[0]] + NonEmpty(ss[1..])
  }

  /** Filtering keeps the order: the filter of a concatenation is the
      concatenation of the filters. */
  lemma {:induction false} NonEmptyAppend(a: seq<string>, b: seq<string>)
    ensures NonEmpty(a + b) == NonEmpty(a) + NonEmpty(b)
    decreases |a|
  {
    if a == [] {
      assert a + b == b;
    } else {
      assert (a + b)[1..] == a[1..] + b;
      NonEmptyAppend(a[1..], b);
    }
  }

  /** `strings.map(stringToABNF)`. */
  function MapStringToAbnf(ss: seq<string>): seq<string> {
    seq(|ss|, k requires 0 <= k < |ss| => StringToAbnf(ss[k]))
  }

  /** Splicing one value into the text. */
  function SpliceValue(st: Splice, v: TemplateValue): (r: Splice)
    ensures v.Lit? && v.s == "" ==> r == st
    ensures v.LitSet? && NonEmpty(v.strings) == [] ==> r == st
    ensures !v.Pat? ==> r.ids == st.ids && r.rules == st.rules && r.count == st.count
    ensures v.Pat? && v.id in st.ids ==> r.ids == st.ids && r.rules == st.rules && r.count == st.count
    ensures v.Pat? && v.id !in st.ids ==>
      && r.ids == st.ids[v.id := PlaceholderName(st.count)]
      && r.rules == st.rules[PlaceholderName(st.count) := v.source]
      && r.count == st.count + 1
    ensures v.Pat? ==> r.abnf == SpaceAfter(st.abnf) + r.ids[v.id] + " "
  {
    match v
    case Pat(id, source) =>
      if id in st.ids then
        Splice(SpaceAfter(st.abnf) + st.ids[id] + " ", st.ids, st.rules, st.count)
      else
        var name := PlaceholderName(st.count);
        Splice(SpaceAfter(st.abnf) + name + " ", st.ids[id := name], st.rules[name := source], st.count + 1)
    case Lit(s) =>
      if |s| == 0 then st
      else st.(abnf := SpaceAfter(st.abnf) + StringToAbnf(s) + " ")
    case LitSet(ss) =>
      if |ss| == 0 then st
      else
        var strings := NonEmpty(ss);
        if strings == [] then st
        else st.(abnf := SpaceAfter(st.abnf) + "( " + Join(MapStringToAbnf(strings), " / ") + " ) ")
  }

  /** The loop of `taggedTemplateToABNF` after `n` template strings. */
  function SpliceUpTo(strs: seq<string>, args: seq<TemplateValue>, n: nat): Splice
    requires n <= |strs|
  {
    if n == 0 then Splice("", map[], map[], 0)
    else
      var st := SpliceUpTo(strs, args, n - 1);
      var st' := st.(abnf := st.abnf + strs[n - 1]);
      if n - 1 < |args| then SpliceValue(st', args[n - 1]) else st'
  }

  /** The loop only ever adds placeholder rules. */
  lemma {:induction false} SpliceUpToPlaceholders(strs: seq<string>, args: seq<TemplateValue>, n: nat)
    requires n <= |strs|
    ensures AllPlaceholders(SpliceUpTo(strs, args, n).rules)
    decreases n
  {
    if n > 0 {
      SpliceUpToPlaceholders(strs, args, n - 1);
      var st := SpliceUpTo(strs, args, n - 1);
      var st' := st.(abnf := st.abnf + strs[n - 1]);
      if n - 1 < |args| {
        SpliceValuePlaceholders(st', args[n - 1]);
      }
    }
  }

  /** Splicing one value adds a placeholder rule or nothing. */
  lemma SpliceValuePlaceholders(st: Splice, v: TemplateValue)
    requires AllPlaceholders(st.rules)
    ensures AllPlaceholders(SpliceValue(st, v).rules)
  {
    assert PlaceholderPrefix <= PlaceholderName(st.count);
  }

  /** `taggedTemplateToABNF`: the trimmed grammar text and the placeholder rules. */
  function TaggedTemplate(strs: seq<string>, args: seq<TemplateValue>): (r: (string, Rules))
    ensures Trimmed(r.0)
    ensures AllPlaceholders(r.1)
  {
    var st := SpliceUpTo(strs, args, |strs|);
    SpliceUpToPlaceholders(strs, args, |strs|);
    TrimTrimmed(st.abnf);
    (Trim(st.abnf), st.rules)
  }

  /** The `ABNF` template tag: splice, compile, drop the placeholders. */
  function Abnf(strs: seq<string>, args: seq<TemplateValue>): (r: Result<Rules, AbnfError>)
    ensures r.Success? ==> forall name | name in r.value :: !IsPlaceholderName(name)
  {
    var (text, rules) := TaggedTemplate(strs, args);
    Compile(text, rules)
  }
}
