/** The string helpers of the ABNF compiler: escaping literal text for a
    regular expression, making it case-insensitive, writing a repeat as a
    quantifier and a code point as an escape (ABNF.js lines 57-118). */
module AbnfFormat {
  import opened Wrappers
  import opened Numerals
  import opened AbnfLexer

  /** The characters `escapeStringForRegExp` puts a backslash before:
      `[ ] ( ) { } * + ? | ^ $ . \`. */
  predicate IsRegExpSpecial(c: char) {
    c == '[' || c == ']' || c == '(' || c == ')' || c == '{' || c == '}' || c == '*'
    || c == '+' || c == '?' || c == '|' || c == '^' || c == '$' || c == '.' || c == '\\'
  }

  /** Reads escaped literal text back: `\c` for a special `c`, any other
      character for itself; `None` for a bare special character or a
      backslash before an ordinary one. */
  function UnescapeRegExp(r: string): Option<string>
    decreases |r|
  {
    if r == [] then Some([])
    else if r[0] == '\\' then
      if |r| >= 2 && IsRegExpSpecial(r[1]) then
        match UnescapeRegExp(r[2..])
        case Some(rest) => Some([r[1]] + rest)
        case None => None
      else None
    else if IsRegExpSpecial(r[0]) then None
    else
      match UnescapeRegExp(r[1..])
      case Some(rest) => Some([r[0]] + rest)
      case None => None
  }

  /** `escapeStringForRegExp`: every special character gets a backslash. */
  function EscapeForRegExp(s: string): (r: string)
    ensures UnescapeRegExp(r) == Some(s)
    ensures |r| >= |s|
    decreases |s|
  {
    if s == [] then []
    else
      var rest := EscapeForRegExp(s[1..]);
      assert s == [s[0]] + s[1..];
      if IsRegExpSpecial(s[0]) then
        var r := ['\\', s[0]] + rest;
        assert r[1] == s[0] && r[2..] == rest;
        r
      else
        var r := [s[0]] + rest;
        assert r[1..] == rest;
        r
  }

  function UpperChar(c: char): char {
    if 'a' <= c <= 'z' then (c as int - 32) as char else c
  }

  predicate SameIgnoringCase(a: char, b: char) {
    LowerChar(a) == LowerChar(b)
  }

  /** `makeRegExpStringCaseInsensitive` on ASCII: each letter becomes the
      class `[Ul]` of its upper and lower case; other characters stay. */
  function MakeCaseInsensitive(s: string): (r: string)
    decreases |s|
  {
    if s == [] then []
    else if IsAlpha(s[0]) then ['[', UpperChar(s[0]), LowerChar(s[0]), ']'] + MakeCaseInsensitive(s[1..])
    else [s[0]] + MakeCaseInsensitive(s[1..])
  }

  lemma {:induction false} MakeCaseInsensitiveAppend(a: string, b: string)
    ensures MakeCaseInsensitive(a + b) == MakeCaseInsensitive(a) + MakeCaseInsensitive(b)
    decreases |a|
  {
    if a != [] {
      var h := if IsAlpha(a[0]) then ['[', UpperChar(a[0]), LowerChar(a[0]), ']'] else [a[0]];
      assert (a + b)[0] == a[0] && (a + b)[1..] == a[1..] + b;
      assert MakeCaseInsensitive(a) == h + MakeCaseInsensitive(a[1..]);
      assert MakeCaseInsensitive(a + b) == h + MakeCaseInsensitive(a[1..] + b);
      MakeCaseInsensitiveAppend(a[1..], b);
    } else {
      assert a + b == b;
    }
  }

  /** The pattern a char-val or prose-val body compiles to. */
  function LiteralPattern(s: string): string {
    MakeCaseInsensitive(EscapeForRegExp(s))
  }

  /** What ECMAScript makes of the three constructs a literal pattern is
      built from: an identity escape `\c` matches `c`, a two-character class
      `[ab]` matches `a` or `b`, any other character matches itself. */
  function LiteralPatternMatches(p: string, w: string): bool
    decreases |p|
  {
    if p == [] then w == []
    else if p[0] == '\\' && |p| >= 2 then
      |w| >= 1 && w[0] == p[1] && LiteralPatternMatches(p[2..], w[1..])
    else if p[0] == '[' && |p| >= 4 && p[3] == ']' then
      |w| >= 1 && (w[0] == p[1] || w[0] == p[2]) && LiteralPatternMatches(p[4..], w[1..])
    else
      |w| >= 1 && w[0] == p[0] && LiteralPatternMatches(p[1..], w[1..])
  }

  predicate IsPrintableAscii(s: string) {
    forall k | 0 <= k < |s| :: ' ' <= s[k] <= '~'
  }

  predicate EqualIgnoringCase(w: string, s: string) {
    |w| == |s| && forall k | 0 <= k < |s| :: SameIgnoringCase(w[k], s[k])
  }

  /** What one literal character compiles to. */
  function PatternHead(c: char): string {
    if IsRegExpSpecial(c) then ['\\', c]
    else if IsAlpha(c) then ['[', UpperChar(c), LowerChar(c), ']']
    else [c]
  }

  /** The compiled literal is built character by character. */
  lemma LiteralPatternCons(s: string)
    requires s != []
    ensures LiteralPattern(s) == PatternHead(s[0]) + LiteralPattern(s[1..])
  {
    var e := if IsRegExpSpecial(s[0]) then ['\\', s[0]] else [s[0]];
    assert EscapeForRegExp(s) == e + EscapeForRegExp(s[1..]);
    MakeCaseInsensitiveAppend(e, EscapeForRegExp(s[1..]));
    assert MakeCaseInsensitive(e) == PatternHead(s[0]) by {
      if IsRegExpSpecial(s[0]) {
        assert e[1..] == [s[0]] && e[1..][1..] == [];
      } else {
        assert e[1..] == [];
      }
    }
  }

  /** One compiled character matches one word character equal to it up to case. */
  lemma PatternHeadMatches(c: char, rest: string, w: string)
    requires ' ' <= c <= '~'
    ensures LiteralPatternMatches(PatternHead(c) + rest, w)
        <==> |w| >= 1 && SameIgnoringCase(w[0], c) && LiteralPatternMatches(rest, w[1..])
  {
    var h := PatternHead(c);
    assert (h + rest)[|h|..] == rest;
  }

  lemma EqualIgnoringCaseCons(w: string, s: string)
    requires |w| >= 1 && |s| >= 1
    ensures EqualIgnoringCase(w, s) <==> SameIgnoringCase(w[0], s[0]) && EqualIgnoringCase(w[1..], s[1..])
  {
    if SameIgnoringCase(w[0], s[0]) && EqualIgnoringCase(w[1..], s[1..]) {
      assert forall k | 1 <= k < |s| :: w[k] == w[1..][k - 1] && s[k] == s[1..][k - 1];
    }
  }

  /** The compiled literal matches exactly the words equal to the literal up
      to ASCII case: an ABNF quoted string is case-insensitive. */
  lemma {:induction false} LiteralPatternIsCaseInsensitive(s: string, w: string)
    requires IsPrintableAscii(s)
    ensures LiteralPatternMatches(LiteralPattern(s), w) <==> EqualIgnoringCase(w, s)
    decreases |s|
  {
    if s != [] {
      assert IsPrintableAscii(s[1..]);
      LiteralPatternCons(s);
      PatternHeadMatches(s[0], LiteralPattern(s[1..]), w);
      if |w| >= 1 {
        LiteralPatternIsCaseInsensitive(s[1..], w[1..]);
        EqualIgnoringCaseCons(w, s);
      }
    }
  }

  /** `formatRepeat`: the quantifier for an optional repeat prefix; a range
      whose minimum exceeds its maximum is a RangeError. */
  function FormatRepeat(rep: Option<Repeat>): (r: Result<string, RepeatRangeError>)
    ensures r.Failure? <==> rep.Some? && rep.value.Between? && rep.value.min.Some? && rep.value.max.Some?
                            && rep.value.min.value > rep.value.max.value
    ensures r.Success? ==> (r.value == "" <==> rep.None?)
  {
    match rep
    case None => Success("")
    case Some(Exact(n)) => Success("{" + Decimal(n) + "}")
    case Some(Between(None, None)) => Success("*")
    case Some(Between(Some(lo), None)) => if lo == 1 then Success("+") else Success("{" + Decimal(lo) + ",}")
    case Some(Between(None, Some(hi))) => Success("{," + Decimal(hi) + "}")
    case Some(Between(Some(lo), Some(hi))) =>
      if lo > hi then Failure(MinAboveMax)
      else if lo == hi then Success("{" + Decimal(lo) + "}")
      else Success("{" + Decimal(lo) + "," + Decimal(hi) + "}")
  }

  datatype RepeatRangeError = MinAboveMax

  /** How many times an element may occur: at least `lo`, at most `hi`
      (`None`: no upper bound). */
  datatype Bounds = Bounds(lo: nat, hi: Option<nat>)

  /** The occurrence bounds an ABNF repeat prefix denotes (sections 3.6
      and 3.7 of RFC 5234); no prefix means exactly once. */
  function RepeatBounds(rep: Option<Repeat>): Bounds {
    match rep
    case None => Bounds(1, Some(1))
    case Some(Exact(n)) => Bounds(n, Some(n))
    case Some(Between(lo, hi)) => Bounds(if lo.Some? then lo.value else 0, hi)
  }

  /** The position of the first `c` in `s`, if any. */
  function IndexOf(s: string, c: char): (r: Option<nat>)
    ensures r.Some? ==> r.value < |s| && s[r.value] == c && forall k | 0 <= k < r.value :: s[k] != c
    ensures r.None? ==> forall k | 0 <= k < |s| :: s[k] != c
  {
    if s == [] then None
    else if s[0] == c then Some(0)
    else match IndexOf(s[1..], c)
      case Some(k) => Some(k + 1)
      case None => None
  }

  function ReadCount(s: string): Option<nat> {
    if |s| >= 1 && AllDigitsOf(s, 10) then Some(ParseDigits(s, 10)) else None
  }

  /** Reads the bounds back from a quantifier: `""` once, `*`, `+`, and a
      braced body. */
  function ReadQuantifier(q: string): Option<Bounds> {
    if q == "" then Some(Bounds(1, Some(1)))
    else if q == "*" then Some(Bounds(0, None))
    else if q == "+" then Some(Bounds(1, None))
    else if |q| >= 2 && q[0] == '{' && q[|q| - 1] == '}' then ReadBraced(q[1..|q| - 1])
    else None
  }

  /** The body of a braced quantifier: `n`, `n,`, `,m` (read as zero to
      `m`, the reading the ABNF `*m` has) and `n,m`. */
  function ReadBraced(body: string): Option<Bounds> {
    match IndexOf(body, ',')
    case None =>
      (match ReadCount(body) case Some(n) => Some(Bounds(n, Some(n))) case None => None)
    case Some(k) =>
      var lo := body[..k];
      var hi := body[k + 1..];
      if lo == "" then
        (match ReadCount(hi) case Some(m) => Some(Bounds(0, Some(m))) case None => None)
      else if hi == "" then
        (match ReadCount(lo) case Some(n) => Some(Bounds(n, None)) case None => None)
      else
        match (ReadCount(lo), ReadCount(hi))
        case (Some(n), Some(m)) => Some(Bounds(n, Some(m)))
        case _ => None
  }

  lemma DecimalHasNoComma(n: nat)
    ensures forall k | 0 <= k < |Decimal(n)| :: Decimal(n)[k] != ','
    ensures ReadCount(Decimal(n)) == Some(n)
  {
    var d := Decimal(n);
    ToDigitsValue(n, 10);
    assert forall k | 0 <= k < |d| :: IsDigitOf(d[k], 10);
  }

  /** The quantifier `formatRepeat` writes denotes the repeat's bounds. */
  lemma FormatRepeatMeansBounds(rep: Option<Repeat>)
    requires FormatRepeat(rep).Success?
    ensures ReadQuantifier(FormatRepeat(rep).value) == Some(RepeatBounds(rep))
  {
    match rep
    case None =>
    case Some(Exact(n)) => ExactQuantifier(n);
    case Some(Between(None, None)) =>
    case Some(Between(Some(lo), None)) => if lo != 1 { AtLeastQuantifier(lo); }
    case Some(Between(None, Some(hi))) => AtMostQuantifier(hi);
    case Some(Between(Some(lo), Some(hi))) =>
      if lo == hi { ExactQuantifier(lo); } else { RangeQuantifier(lo, hi); }
  }

  /** A braced quantifier is read from its body. */
  lemma BracedRead(body: string)
    ensures ReadQuantifier("{" + body + "}") == ReadBraced(body)
  {
    var q := "{" + body + "}";
    assert q[1..|q| - 1] == body;
  }

  /** The two sides of the first comma. */
  lemma CommaSides(a: string, b: string)
    ensures (a + "," + b)[..|a|] == a && (a + "," + b)[|a| + 1..] == b
  {
  }

  lemma ExactQuantifier(n: nat)
    ensures ReadQuantifier("{" + Decimal(n) + "}") == Some(Bounds(n, Some(n)))
  {
    DecimalHasNoComma(n);
    BracedRead(Decimal(n));
  }

  lemma AtLeastQuantifier(lo: nat)
    ensures ReadQuantifier("{" + Decimal(lo) + ",}") == Some(Bounds(lo, None))
  {
    var d := Decimal(lo);
    DecimalHasNoComma(lo);
    assert "{" + d + ",}" == "{" + (d + "," + "") + "}";
    BracedRead(d + "," + "");
    FirstAfter(d, ',', "");
    CommaSides(d, "");
  }

  lemma AtMostQuantifier(hi: nat)
    ensures ReadQuantifier("{," + Decimal(hi) + "}") == Some(Bounds(0, Some(hi)))
  {
    var d := Decimal(hi);
    DecimalHasNoComma(hi);
    assert "{," + d + "}" == "{" + ("" + "," + d) + "}";
    BracedRead("" + "," + d);
    FirstAfter("", ',', d);
    CommaSides("", d);
  }

  lemma RangeQuantifier(lo: nat, hi: nat)
    ensures ReadQuantifier("{" + Decimal(lo) + "," + Decimal(hi) + "}") == Some(Bounds(lo, Some(hi)))
  {
    var a, b := Decimal(lo), Decimal(hi);
    DecimalHasNoComma(lo);
    DecimalHasNoComma(hi);
    assert "{" + a + "," + b + "}" == "{" + (a + "," + b) + "}";
    BracedRead(a + "," + b);
    FirstAfter(a, ',', b);
    CommaSides(a, b);
  }

  /** The first `c` of `a + [c] + b` is the one after `a` when `a` has none. */
  lemma {:induction false} FirstAfter(a: string, c: char, b: string)
    requires forall k | 0 <= k < |a| :: a[k] != c
    ensures IndexOf(a + [c] + b, c) == Some(|a|)
    decreases |a|
  {
    if a != [] {
      assert (a + [c] + b)[1..] == a[1..] + [c] + b;
      FirstAfter(a[1..], c, b);
    }
  }

  /** Where a text written between a prefix and a suffix lies. */
  lemma Affixes(p: string, s: string, q: string)
    ensures (p + s + q)[..|p|] == p && (p + s + q)[|p|..|p| + |s|] == s
    ensures q == "" ==> p + s + q == p + s
    ensures q != "" ==> (p + s + q)[|p + s + q| - 1] == q[|q| - 1]
  {
  }

  /** `formatCodePoint`: `\xhh` up to 0xff, `\uhhhh` up to 0xffff, `\u{h…}`
      above, in lower-case hexadecimal; NaN prints as `\xNaN`. The digits
      written read back as the value; the braced form has no leading zero. */
  function FormatCodePoint(v: JsInt): (r: string)
    ensures v.NaN? ==> r == "\\xNaN"
    ensures v.Int? && v.n <= 0xff ==>
      |r| == 4 && r[..2] == "\\x" && AllDigitsOf(r[2..], 16) && LowerCaseDigits(r[2..]) && ParseDigits(r[2..], 16) == v.n
    ensures v.Int? && 0xff < v.n <= 0xffff ==>
      |r| == 6 && r[..2] == "\\u" && AllDigitsOf(r[2..], 16) && LowerCaseDigits(r[2..]) && ParseDigits(r[2..], 16) == v.n
    ensures v.Int? && 0xffff < v.n ==>
      |r| >= 5 && r[..3] == "\\u{" && r[|r| - 1] == '}' && AllDigitsOf(r[3..|r| - 1], 16)
      && LowerCaseDigits(r[3..|r| - 1]) && ParseDigits(r[3..|r| - 1], 16) == v.n
    ensures v.Int? && 0xffff < v.n ==> r[3] != '0'
  {
    match v
    case NaN => "\\xNaN"
    case Int(n) =>
      if n > 0xffff then
        ToDigitsValue(n, 16);
        Affixes("\\u{", Hex(n), "}");
        "\\u{" + Hex(n) + "}"
      else if n > 0xff then
        PaddedHex(n, 4);
        Affixes("\\u", PadStart(Hex(n), 4), "");
        "\\u" + PadStart(Hex(n), 4)
      else
        PaddedHex(n, 2);
        Affixes("\\x", PadStart(Hex(n), 2), "");
        "\\x" + PadStart(Hex(n), 2)
  }

  /** Reads a code point back from the escape of a character class: `\xhh`,
      `\uhhhh` or `\u{h…}`. */
  function ReadCodePoint(e: string): Option<nat> {
    if |e| == 4 && e[..2] == "\\x" && AllDigitsOf(e[2..], 16) then Some(ParseDigits(e[2..], 16))
    else if |e| == 6 && e[..2] == "\\u" && AllDigitsOf(e[2..], 16) then Some(ParseDigits(e[2..], 16))
    else if |e| >= 5 && e[..3] == "\\u{" && e[|e| - 1] == '}' && AllDigitsOf(e[3..|e| - 1], 16) then
      Some(ParseDigits(e[3..|e| - 1], 16))
    else None
  }

  /** The escape written for a value reads back as that value; the one
      written for NaN reads as no code point. */
  lemma CodePointRead(v: JsInt)
    ensures ReadCodePoint(FormatCodePoint(v)) == if v.Int? then Some(v.n) else None
  {
    var e := FormatCodePoint(v);
    if v.NaN? {
      assert e[..3][1] == 'x';
    }
  }

  /** No escape `formatCodePoint` writes holds a `-`. */
  lemma CodePointHasNoDash(v: JsInt)
    ensures forall k | 0 <= k < |FormatCodePoint(v)| :: FormatCodePoint(v)[k] != '-'
  {
    var e := FormatCodePoint(v);
    if v.Int? && v.n <= 0xff {
      ShortEscapeNoDash(e, "\\x");
    } else if v.Int? && v.n <= 0xffff {
      ShortEscapeNoDash(e, "\\u");
    } else if v.Int? {
      PrefixNoDash(e, "\\u{");
      HexDigitsNoDash(e, 3, |e| - 1);
    }
  }

  /** A two-character escape prefix, then hexadecimal digits to the end. */
  lemma ShortEscapeNoDash(e: string, p: string)
    requires |p| == 2 && p[0] != '-' && p[1] != '-'
    requires |e| >= 2 && e[..2] == p && AllDigitsOf(e[2..], 16)
    ensures forall k | 0 <= k < |e| :: e[k] != '-'
  {
    PrefixNoDash(e, p);
    assert e[2..|e|] == e[2..];
    HexDigitsNoDash(e, 2, |e|);
  }

  /** The characters of a dash-free prefix are no dash. */
  lemma PrefixNoDash(e: string, p: string)
    requires |p| <= |e| && e[..|p|] == p && forall k | 0 <= k < |p| :: p[k] != '-'
    ensures forall k | 0 <= k < |p| :: e[k] != '-'
  {
    forall k | 0 <= k < |p|
      ensures e[k] != '-'
    {
      assert e[k] == e[..|p|][k];
    }
  }

  lemma HexDigitsNoDash(e: string, a: nat, b: nat)
    requires 2 <= a <= b <= |e| && AllDigitsOf(e[a..b], 16)
    requires forall k | 0 <= k < a :: e[k] != '-'
    requires forall k | b <= k < |e| :: e[k] != '-'
    ensures forall k | 0 <= k < |e| :: e[k] != '-'
  {
    forall k | a <= k < b
      ensures e[k] != '-'
    {
      assert e[k] == e[a..b][k - a];
    }
  }
}
