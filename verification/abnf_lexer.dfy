/** The token scanners of the ABNF compiler. Each sticky regular expression
    of ABNF.js (lines 29-37) is written out as an anchored scanner from a
    position `i` of the text: it answers where the token ends, or `None`. */
module AbnfLexer {
  import opened Wrappers
  import opened Numerals
  import opened Matcher

  predicate IsAlpha(c: char) {
    'A' <= c <= 'Z' || 'a' <= c <= 'z'
  }

  predicate IsDigit(c: char) {
    '0' <= c <= '9'
  }

  predicate IsBit(c: char) {
    c == '0' || c == '1'
  }

  predicate IsHexDigit(c: char) {
    IsDigit(c) || 'A' <= c <= 'F' || 'a' <= c <= 'f'
  }

  predicate IsRuleNameChar(c: char) {
    IsAlpha(c) || IsDigit(c) || c == '-'
  }

  /** `[ \t\x21-\x7e]`: what a comment may hold. */
  predicate IsCommentChar(c: char) {
    c == ' ' || c == '\t' || '!' <= c <= '~'
  }

  predicate IsWsp(c: char) {
    c == ' ' || c == '\t'
  }

  /** `[\x20-\x21\x23-\x7e]`: printable ASCII except the double quote. */
  predicate IsCharValChar(c: char) {
    ' ' <= c <= '~' && c != '"'
  }

  /** `[\x20-\x3D\x3F-\x7e]`: printable ASCII except `>`. */
  predicate IsProseChar(c: char) {
    ' ' <= c <= '~' && c != '>'
  }

  /** The character classes that the starred runs of the token expressions
      range over. */
  datatype Class = Digits | Bits | HexDigits | RuleNameChars | CommentChars | CharValChars | ProseChars

  predicate In(cls: Class, c: char) {
    match cls
    case Digits => IsDigit(c)
    case Bits => IsBit(c)
    case HexDigits => IsHexDigit(c)
    case RuleNameChars => IsRuleNameChar(c)
    case CommentChars => IsCommentChar(c)
    case CharValChars => IsCharValChar(c)
    case ProseChars => IsProseChar(c)
  }

  /** The end of the longest run of `cls` characters from `i`: what a
      sticky `[…]*` matches. */
  function ClassEnd(t: string, i: nat, cls: Class): (j: nat)
    requires i <= |t|
    ensures i <= j <= |t|
    ensures j < |t| ==> !In(cls, t[j])
    decreases |t| - i
  {
    if i < |t| && In(cls, t[i]) then ClassEnd(t, i + 1, cls) else i
  }

  /** Every character `ClassEnd` passes over is in the class. */
  lemma {:induction false} ClassEndRun(t: string, i: nat, cls: Class)
    requires i <= |t|
    ensures forall k | i <= k < ClassEnd(t, i, cls) :: In(cls, t[k])
    decreases |t| - i
  {
    if i < |t| && In(cls, t[i]) {
      ClassEndRun(t, i + 1, cls);
    }
  }

  /** A run of `n` class characters ended by one outside the class (or by
      the end of the text) is what `ClassEnd` reads. */
  lemma {:induction false} ClassEndOver(t: string, i: nat, n: nat, cls: Class)
    requires i + n <= |t|
    requires forall k | i <= k < i + n :: In(cls, t[k])
    requires i + n == |t| || !In(cls, t[i + n])
    ensures ClassEnd(t, i, cls) == i + n
    decreases n
  {
    if n > 0 {
      ClassEndOver(t, i + 1, n - 1, cls);
    }
  }

  function LowerChar(c: char): (l: char)
    ensures IsAlpha(c) ==> 'a' <= l <= 'z' && (l == c || l as int == c as int + 32)
    ensures !('A' <= c <= 'Z') ==> l == c
  {
    if 'A' <= c <= 'Z' then (c as int + 32) as char else c
  }

  /** `toLowerCase()` on ASCII text. */
  function Lower(s: string): (r: string)
    ensures |r| == |s|
    ensures forall k | 0 <= k < |s| :: r[k] == LowerChar(s[k])
  {
    seq(|s|, k requires 0 <= k < |s| => LowerChar(s[k]))
  }

  predicate IsRuleName(s: string) {
    |s| >= 1 && IsAlpha(s[0]) && forall k | 1 <= k < |s| :: IsRuleNameChar(s[k])
  }

  /** RULENAME_RE `/[A-Z][A-Z0-9-]*\/iy`: the longest rule name at `i`. */
  function RuleNameEnd(t: string, i: nat): (r: Option<nat>)
    requires i <= |t|
    ensures r.Some? <==> i < |t| && IsAlpha(t[i])
    ensures r.Some? ==> i < r.value <= |t| && IsRuleName(t[i..r.value])
    ensures r.Some? && r.value < |t| ==> !IsRuleNameChar(t[r.value])
  {
    if i < |t| && IsAlpha(t[i]) then ClassEndRun(t, i + 1, RuleNameChars); Some(ClassEnd(t, i + 1, RuleNameChars)) else None
  }

  /** `(?:;[ \t\x21-\x7e]*)?`: the end of an optional comment at `i`. */
  function CommentEnd(t: string, i: nat): (j: nat)
    requires i <= |t|
    ensures i <= j <= |t|
    ensures j > i <==> i < |t| && t[i] == ';'
    ensures j > i ==> forall k | i < k < j :: IsCommentChar(t[k])
    ensures j > i && j < |t| ==> !IsCommentChar(t[j])
  {
    if i < |t| && t[i] == ';' then ClassEndRun(t, i + 1, CommentChars); ClassEnd(t, i + 1, CommentChars) else i
  }

  /** The folding white space of RFC 5234 section 4 from `i` to `e`: one
      blank; or a line feed and a blank, the line feed possibly after a
      comment (a `;` and comment characters). */
  predicate FoldAt(t: string, i: nat, e: nat) {
    && i < e <= |t|
    && ((e == i + 1 && IsWsp(t[i]))
        || (i + 2 <= e && t[e - 2] == '\n' && IsWsp(t[e - 1])
            && (e - 2 == i || (t[i] == ';' && forall k | i < k < e - 2 :: IsCommentChar(t[k])))))
  }

  /** C_WSP_RE `/[ \t]|(?:;[ \t\x21-\x7e]*)?\n[ \t]/y`: one blank, or a line
      break (after an optional comment) followed by a blank. */
  function CWsp(t: string, i: nat): (r: Option<nat>)
    requires i <= |t|
    ensures r.Some? ==> i < r.value <= |t|
    ensures i < |t| && IsWsp(t[i]) ==> r == Some(i + 1)
  {
    if i < |t| && IsWsp(t[i]) then Some(i + 1)
    else
      var j := CommentEnd(t, i);
      if j + 1 < |t| && t[j] == '\n' && IsWsp(t[j + 1]) then Some(j + 2) else None
  }

  /** C_WSP_RE matches exactly the folding white space at `i`, and there is
      at most one such match. */
  lemma CWspFolds(t: string, i: nat)
    requires i <= |t|
    ensures CWsp(t, i).Some? ==> FoldAt(t, i, CWsp(t, i).value)
    ensures forall e: nat | FoldAt(t, i, e) :: CWsp(t, i) == Some(e)
  {
  }

  /** C_NL_RE `/(?:;[ \t\x21-\x7e]*)?\n/y`: an optional comment, then a line feed. */
  function CNl(t: string, i: nat): (r: Option<nat>)
    requires i <= |t|
    ensures r.Some? ==> i < r.value <= |t| && t[r.value - 1] == '\n'
  {
    var j := CommentEnd(t, i);
    if j < |t| && t[j] == '\n' then Some(j + 1) else None
  }

  /** `matchMany(C_WSP_RE)`: the position after all folding white space at `i`. */
  function SkipWsp(t: string, i: nat): (j: nat)
    requires i <= |t|
    ensures i <= j <= |t|
    ensures CWsp(t, j).None?
    ensures i < |t| && IsWsp(t[i]) ==> j > i
    decreases |t| - i
  {
    match CWsp(t, i)
    case None => i
    case Some(k) => SkipWsp(t, k)
  }

  /** DEFINED_AS_RE `/=\/?/y`: `=` or `=/`; true for the incremental form. */
  function DefinedAs(t: string, i: nat): (r: Option<(bool, nat)>)
    requires i <= |t|
    ensures r.Some? <==> i < |t| && t[i] == '='
    ensures r.Some? ==> (r.value.0 <==> i + 1 < |t| && t[i + 1] == '/')
    ensures r.Some? ==> r.value.1 == if r.value.0 then i + 2 else i + 1
  {
    if i < |t| && t[i] == '=' then
      if i + 1 < |t| && t[i + 1] == '/' then Some((true, i + 2)) else Some((false, i + 1))
    else None
  }

  /** A repeat prefix: the `exact` group, or the `min` and `max` groups of
      REPEAT_RE, each `None` when its digits are empty. */
  datatype Repeat = Exact(n: nat) | Between(min: Option<nat>, max: Option<nat>)

  function DigitsValue(s: string): Option<nat> {
    if s == "" then None else Some(ParseDigits(s, 10))
  }

  /** A range whose minimum exceeds its maximum. */
  predicate Inverted(rep: Repeat) {
    rep.Between? && rep.min.Some? && rep.max.Some? && rep.min.value > rep.max.value
  }

  /** A longest digit run from `i` to `d`, `*`, and a longest digit run
      from `d + 1` to `e`. */
  predicate RangeRepeatAt(t: string, i: nat, d: nat, e: nat) {
    Run(t, i, d, Digits) && d < |t| && t[d] == '*' && Run(t, d + 1, e, Digits)
  }

  /** REPEAT_RE `/(?<min>[0-9]*)\*(?<max>[0-9]*)|(?<exact>[0-9]+)/y`: two
      longest digit runs around a `*` are a range of their values (`None`
      for an empty run); a non-empty run not followed by `*` is an exact
      count; anything else is no repeat. */
  function ScanRepeat(t: string, i: nat): (r: Option<(Repeat, nat)>)
    requires i <= |t|
    ensures r.Some? ==> i < r.value.1 <= |t|
    ensures r.None? <==> i == |t| || (!IsDigit(t[i]) && t[i] != '*')
    ensures forall d: nat, e: nat | RangeRepeatAt(t, i, d, e) ::
      r == Some((Between(DigitsValue(t[i..d]), DigitsValue(t[d + 1..e])), e))
    ensures forall d: nat | Run(t, i, d, Digits) && i < d && (d == |t| || t[d] != '*') ::
      r == Some((Exact(ParseDigits(t[i..d], 10)), d))
  {
    var d := ClassEnd(t, i, Digits);
    RunsAreSpans(t, i);
    if d < |t| && t[d] == '*' then
      var e := ClassEnd(t, d + 1, Digits);
      Some((Between(DigitsValue(t[i..d]), DigitsValue(t[d + 1..e])), e))
    else if d > i then Some((Exact(ParseDigits(t[i..d], 10)), d))
    else None
  }

  /** The longest digit runs of a repeat prefix are the ones `ClassEnd` reads. */
  lemma RunsAreSpans(t: string, i: nat)
    requires i <= |t|
    ensures forall d: nat | Run(t, i, d, Digits) :: ClassEnd(t, i, Digits) == d
    ensures forall d: nat, e: nat | RangeRepeatAt(t, i, d, e) :: ClassEnd(t, d + 1, Digits) == e
  {
    forall d: nat | Run(t, i, d, Digits)
      ensures ClassEnd(t, i, Digits) == d
    {
      RunIsSpan(t, i, d, Digits);
    }
    forall d: nat, e: nat | RangeRepeatAt(t, i, d, e)
      ensures ClassEnd(t, d + 1, Digits) == e
    {
      RunIsSpan(t, d + 1, e, Digits);
    }
  }

  /** A longest run of `cls` characters from `a` to `b`: what a greedy
      character-class star stops at. */
  predicate Run(t: string, a: nat, b: nat, cls: Class) {
    && a <= b <= |t|
    && (forall k | a <= k < b :: In(cls, t[k]))
    && (b == |t| || !In(cls, t[b]))
  }

  /** A longest run is the one `ClassEnd` reads. */
  lemma RunIsSpan(t: string, a: nat, b: nat, cls: Class)
    requires Run(t, a, b, cls)
    ensures ClassEnd(t, a, cls) == b
  {
    ClassEndOver(t, a, b - a, cls);
  }

  /** `t[i..j]` is `open`, characters of `cls`, then `close`. */
  predicate Delimited(t: string, i: nat, j: nat, open: char, close: char, cls: Class) {
    && i + 2 <= j <= |t|
    && t[i] == open && t[j - 1] == close
    && (forall k | i < k < j - 1 :: In(cls, t[k]))
  }

  /** When the closing character is outside `cls`, a delimited token ends
      where the run of `cls` after the opening character ends. */
  lemma DelimitedEnd(t: string, i: nat, open: char, close: char, cls: Class)
    requires i <= |t| && !In(cls, close)
    ensures forall j: nat | Delimited(t, i, j, open, close, cls) :: i < |t| && ClassEnd(t, i + 1, cls) == j - 1
  {
    forall j: nat | Delimited(t, i, j, open, close, cls)
      ensures i < |t| && ClassEnd(t, i + 1, cls) == j - 1
    {
      RunIsSpan(t, i + 1, j - 1, cls);
    }
  }

  /** CHAR_VAL_RE `/"[\x20-\x21\x23-\x7e]*"/y`: the end after the closing
      quote, found whenever a quoted char-val starts at `i`. */
  function CharValEnd(t: string, i: nat): (r: Option<nat>)
    requires i <= |t|
    ensures r.Some? ==> i + 2 <= r.value <= |t| && t[i] == '"' && t[r.value - 1] == '"'
    ensures r.Some? ==> forall k | i < k < r.value - 1 :: IsCharValChar(t[k])
    ensures forall j: nat | Delimited(t, i, j, '"', '"', CharValChars) :: r == Some(j)
  {
    DelimitedEnd(t, i, '"', '"', CharValChars);
    if i < |t| && t[i] == '"' then
      var j := ClassEnd(t, i + 1, CharValChars);
      ClassEndRun(t, i + 1, CharValChars);
      if j < |t| && t[j] == '"' then Some(j + 1) else None
    else None
  }

  /** PROSE_VAL_RE `/<[\x20-\x3D\x3F-\x7e]*>/y`: the end after the `>`,
      found whenever a prose-val starts at `i`. */
  function ProseValEnd(t: string, i: nat): (r: Option<nat>)
    requires i <= |t|
    ensures r.Some? ==> i + 2 <= r.value <= |t| && t[i] == '<' && t[r.value - 1] == '>'
    ensures r.Some? ==> forall k | i < k < r.value - 1 :: IsProseChar(t[k])
    ensures forall j: nat | Delimited(t, i, j, '<', '>', ProseChars) :: r == Some(j)
  {
    DelimitedEnd(t, i, '<', '>', ProseChars);
    if i < |t| && t[i] == '<' then
      var j := ClassEnd(t, i + 1, ProseChars);
      ClassEndRun(t, i + 1, ProseChars);
      if j < |t| && t[j] == '>' then Some(j + 1) else None
    else None
  }

  /** The base letters the case-insensitive num-val expressions accept. */
  predicate IsBaseLetter(c: char) {
    c == 'b' || c == 'B' || c == 'd' || c == 'D' || c == 'x' || c == 'X'
  }

  /** The digit class that follows a base letter: `[01]`, `[0-9]` or `[0-9A-F]` (case-insensitive). */
  function DigitClass(b: char): Class {
    if b == 'b' || b == 'B' then Bits
    else if b == 'd' || b == 'D' then Digits
    else HexDigits
  }

  /** A numeric value token: its base letter and its digit groups. */
  datatype NumToken = NumToken(base: char, groups: seq<string>)

  /** `%`, a base letter, a longest digit run ending at `d1`, `-`, and a
      longest digit run ending at `d2`. */
  predicate RangeTokenAt(t: string, i: nat, d1: nat, d2: nat) {
    && i + 2 < d1 < |t| && d1 + 1 < d2
    && t[i] == '%' && IsBaseLetter(t[i + 1]) && t[d1] == '-'
    && Run(t, i + 2, d1, DigitClass(t[i + 1]))
    && Run(t, d1 + 1, d2, DigitClass(t[i + 1]))
  }

  /** NUM_VAL_RANGE_RE: `%` base digits `-` digits; found exactly when such
      a token starts at `i`, with its two digit runs as the groups. */
  function NumRangeToken(t: string, i: nat): (r: Option<(NumToken, nat)>)
    requires i <= |t|
    ensures r.Some? ==> i < r.value.1 <= |t| && |r.value.0.groups| == 2 && IsBaseLetter(r.value.0.base)
    ensures r.Some? ==> RangeTokenAt(t, i, i + 2 + |r.value.0.groups[0]|, r.value.1)
    ensures forall d1: nat, d2: nat | RangeTokenAt(t, i, d1, d2) ::
      r == Some((NumToken(t[i + 1], [t[i + 2..d1], t[d1 + 1..d2]]), d2))
  {
    if i + 1 < |t| && t[i] == '%' && IsBaseLetter(t[i + 1]) then
      var cls := DigitClass(t[i + 1]);
      var d1 := ClassEnd(t, i + 2, cls);
      ClassEndRun(t, i + 2, cls);
      RangeRuns(t, i);
      if d1 > i + 2 && d1 < |t| && t[d1] == '-' then
        var d2 := ClassEnd(t, d1 + 1, cls);
        ClassEndRun(t, d1 + 1, cls);
        if d2 > d1 + 1 then Some((NumToken(t[i + 1], [t[i + 2..d1], t[d1 + 1..d2]]), d2)) else None
      else None
    else None
  }

  /** The two runs of a range token are the ones `ClassEnd` reads. */
  lemma RangeRuns(t: string, i: nat)
    requires i + 1 < |t| && IsBaseLetter(t[i + 1])
    ensures forall d1: nat, d2: nat | RangeTokenAt(t, i, d1, d2) ::
      ClassEnd(t, i + 2, DigitClass(t[i + 1])) == d1 && ClassEnd(t, d1 + 1, DigitClass(t[i + 1])) == d2
  {
    forall d1: nat, d2: nat | RangeTokenAt(t, i, d1, d2)
      ensures ClassEnd(t, i + 2, DigitClass(t[i + 1])) == d1 && ClassEnd(t, d1 + 1, DigitClass(t[i + 1])) == d2
    {
      RunIsSpan(t, i + 2, d1, DigitClass(t[i + 1]));
      RunIsSpan(t, d1 + 1, d2, DigitClass(t[i + 1]));
    }
  }

  function Join(xs: seq<string>, sep: string): string {
    if xs == [] then "" else if |xs| == 1 then xs[0] else xs[0] + sep + Join(xs[1..], sep)
  }

  /** A non-empty run of `cls` characters. */
  predicate AllOf(g: string, cls: Class) {
    g != "" && forall k | 0 <= k < |g| :: In(cls, g[k])
  }

  /** `(?:\.digits)*`: the further dot-separated digit groups from `i`. */
  function DotGroups(t: string, i: nat, cls: Class): (r: (seq<string>, nat))
    requires i <= |t|
    ensures i <= r.1 <= |t|
    ensures forall g | g in r.0 :: AllOf(g, cls)
    ensures r.0 == [] ==> r.1 == i
    ensures r.0 != [] ==> t[i..r.1] == "." + Join(r.0, ".")
    decreases |t| - i
  {
    if i < |t| && t[i] == '.' then
      var e := ClassEnd(t, i + 1, cls);
      ClassEndRun(t, i + 1, cls);
      if e > i + 1 then
        var rest := DotGroups(t, e, cls);
        var g := t[i + 1..e];
        assert AllOf(g, cls);
        DotGroupsStep(t, i, e, rest.1, g, rest.0);
        ([g] + rest.0, rest.1)
      else ([], i)
    else ([], i)
  }

  /** The dotted groups stop where neither a digit of the last group nor
      a dot and a digit follows. */
  lemma {:induction false} DotGroupsEnd(t: string, i: nat, cls: Class)
    requires i <= |t|
    ensures var r := DotGroups(t, i, cls);
      && (r.0 != [] && r.1 < |t| ==> !In(cls, t[r.1]))
      && !(r.1 + 1 < |t| && t[r.1] == '.' && In(cls, t[r.1 + 1]))
    decreases |t| - i
  {
    if i < |t| && t[i] == '.' {
      var e := ClassEnd(t, i + 1, cls);
      if e > i + 1 {
        DotGroupsEnd(t, e, cls);
      }
    }
  }

  /** One more group in front of the groups that follow it. */
  lemma DotGroupsStep(t: string, i: nat, e: nat, f: nat, g: string, rest: seq<string>)
    requires i < e <= f <= |t| && t[i] == '.' && g == t[i + 1..e]
    requires rest == [] ==> f == e
    requires rest != [] ==> t[e..f] == "." + Join(rest, ".")
    ensures t[i..f] == "." + Join([g] + rest, ".")
  {
    assert ([g] + rest)[1..] == rest;
    assert t[i..f] == t[i..i + 1] + t[i + 1..e] + t[e..f];
  }

  /** NUM_VAL_RE: `%` base digits, then `.digits` groups; found exactly when
      `%`, a base letter and a digit of its class start at `i`. The groups
      are digit groups of that class, the first one a longest run, and the
      token reads back as the groups joined by dots. The token ends where
      neither another digit nor a dot and a digit follows, so every group
      is read greedily. */
  function NumSeqToken(t: string, i: nat): (r: Option<(NumToken, nat)>)
    requires i <= |t|
    ensures r.Some? <==> i + 2 < |t| && t[i] == '%' && IsBaseLetter(t[i + 1]) && In(DigitClass(t[i + 1]), t[i + 2])
    ensures r.Some? ==> i + 2 < r.value.1 <= |t| && |r.value.0.groups| >= 1 && IsBaseLetter(r.value.0.base)
    ensures r.Some? ==> r.value.0.base == t[i + 1] && Run(t, i + 2, i + 2 + |r.value.0.groups[0]|, DigitClass(t[i + 1]))
    ensures r.Some? ==> forall g | g in r.value.0.groups :: AllOf(g, DigitClass(t[i + 1]))
    ensures r.Some? ==> t[i + 2..r.value.1] == Join(r.value.0.groups, ".")
    ensures r.Some? ==> var e, cls := r.value.1, DigitClass(t[i + 1]);
      && (e < |t| ==> !In(cls, t[e]))
      && !(e + 1 < |t| && t[e] == '.' && In(cls, t[e + 1]))
  {
    if i + 1 < |t| && t[i] == '%' && IsBaseLetter(t[i + 1]) then
      var cls := DigitClass(t[i + 1]);
      var d1 := ClassEnd(t, i + 2, cls);
      ClassEndRun(t, i + 2, cls);
      if d1 > i + 2 then
        SeqGroups(t, i + 2, d1, cls);
        var rest := DotGroups(t, d1, cls);
        Some((NumToken(t[i + 1], [t[i + 2..d1]] + rest.0), rest.1))
      else None
    else None
  }

  /** A first group from `a` to `d`, then the dotted groups: all are runs
      of the class, they read back as one dotted text, and neither a digit
      nor a dot and a digit follows them. */
  lemma SeqGroups(t: string, a: nat, d: nat, cls: Class)
    requires a < d <= |t| && Run(t, a, d, cls)
    ensures var rest := DotGroups(t, d, cls); var groups := [t[a..d]] + rest.0;
      && (forall g | g in groups :: AllOf(g, cls))
      && t[a..rest.1] == Join(groups, ".")
      && (rest.1 < |t| ==> !In(cls, t[rest.1]))
      && !(rest.1 + 1 < |t| && t[rest.1] == '.' && In(cls, t[rest.1 + 1]))
  {
    var rest := DotGroups(t, d, cls);
    var groups := [t[a..d]] + rest.0;
    DotGroupsEnd(t, d, cls);
    SeqGroupsJoin(t, a, d, rest.1, rest.0);
    assert AllOf(t[a..d], cls);
    forall g | g in groups ensures AllOf(g, cls) {
      if g != groups[0] { assert g in rest.0; }
    }
  }

  /** The first group and the dotted ones read back as one dotted text. */
  lemma SeqGroupsJoin(t: string, a: nat, d: nat, f: nat, rest: seq<string>)
    requires a <= d <= f <= |t|
    requires rest == [] ==> f == d
    requires rest != [] ==> t[d..f] == "." + Join(rest, ".")
    ensures t[a..f] == Join([t[a..d]] + rest, ".")
  {
    assert ([t[a..d]] + rest)[1..] == rest;
    assert t[a..f] == t[a..d] + t[d..f];
  }

  /** A JavaScript `parseInt` result: an integer or NaN. */
  datatype JsInt = Int(n: nat) | NaN

  /** `parseInt(digits, BASE_MAP.get(base))`. `BASE_MAP` has only the
      lower-case letters, so an upper-case base letter leaves the radix
      undefined and `parseInt` reads the leading decimal digits, or NaN. */
  function NumValue(base: char, digits: string): JsInt {
    if base == 'b' then Int(ParseDigits(digits, 2))
    else if base == 'd' then Int(ParseDigits(digits, 10))
    else if base == 'x' then Int(ParseDigits(digits, 16))
    else
      var n := DecimalRun(digits);
      if n == 0 then NaN else Int(ParseDigits(digits[..n], 10))
  }
}
