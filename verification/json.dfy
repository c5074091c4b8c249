/** The JSON reader built on the context cursor (examples/parseJSON.js): a
    recursive-descent parser over a text and a position. Each parsing
    function takes the position it starts at and answers the value read and
    the position it stopped at; a thrown `Error` is a `Failure`. The sticky
    regular expressions of the reader are written out as scanners. */
module JsonReader {
  import opened Wrappers
  import opened Numerals
  import opened Matcher

  /** A UTF-16 code unit, what a JavaScript string is made of. */
  type CodeUnit = u: nat | u < 0x1_0000

  /** A JavaScript string as its code units. */
  type Units = seq<CodeUnit>

  /** The code units of one character of the text: the character itself, or
      a surrogate pair above U+FFFF. */
  function Utf16(c: char): (r: Units)
    ensures 1 <= |r| <= 2
    ensures c as nat < 0x1_0000 <==> r == [c as nat]
  {
    if c as nat < 0x1_0000 then [c as nat]
    else
      var v := c as nat - 0x1_0000;
      [0xD800 + v / 0x400, 0xDC00 + v % 0x400]
  }

  /** A parsed JSON value. A number keeps the text that `parseFloat` reads;
      an object is the dictionary the reader fills, a later member
      overwriting an earlier one with the same name. */
  datatype Json =
    | Null
    | Bool(b: bool)
    | Number(lexeme: string)
    | Str(units: Units)
    | Array(items: seq<Json>)
    | Object(members: map<Units, Json>)

  /** The errors the reader throws. */
  datatype JsonError =
    | ExpectedKey            // a member does not start with a string
    | ExpectedColon          // no `:` after a member name
    | ExpectedCloseBrace     // an object is not closed by `}`
    | ExpectedCloseBracket   // an array is not closed by `]`
    | ExpectedQuote          // a string is not closed by `"`
    | ExpectedValue          // nothing a value can start with
    | InvalidDocument        // text is left after the value

  /** One character at `i`: a successful single-character `matchString`. */
  predicate At(t: string, i: nat, c: char) {
    i < |t| && t[i] == c
  }

  /** `context.matchString(s)` at `i`: the position after `s` when it is there. */
  function Literal(t: string, i: nat, s: string): (r: Option<nat>)
    requires i <= |t|
    ensures r.Some? <==> IsAt(t, i, s)
    ensures r.Some? ==> r.value == i + |s|
  {
    if IsAt(t, i, s) then Some(i + |s|) else None
  }

  /** `Literal` is the context's `matchString` on a cursor at `i`. */
  lemma LiteralMatchesString(t: string, i: nat, s: string)
    requires i <= |t|
    ensures var (m, c) := MatchString(Cursor(t, i), s);
            && (Literal(t, i, s).Some? <==> m.Some?)
            && (m.Some? ==> Literal(t, i, s) == Some(c.index))
            && (m.None? ==> c.index == i)
  {
    assert s <= t[i..] <==> IsAt(t, i, s) by {
      if IsAt(t, i, s) {
        assert t[i..][..|s|] == t[i..i + |s|];
      }
      if s <= t[i..] {
        assert t[i..][..|s|] == t[i..i + |s|];
      }
    }
  }

  predicate IsJsonSpace(c: char) {
    c == ' ' || c == '\t' || c == '\r' || c == '\n'
  }

  /** `context.match(WHITE_SPACE)` for `/[ \t\r\n]+/y`: one greedy match, so
      all the white space at `i`. */
  function SkipSpace(t: string, i: nat): (j: nat)
    requires i <= |t|
    ensures i <= j <= |t|
    ensures j < |t| ==> !IsJsonSpace(t[j])
  {
    SpanEnd(t, i, IsJsonSpace)
  }

  predicate IsDigit(c: char) {
    '0' <= c <= '9'
  }

  /** `(?:\.[0-9]+)?`: an optional fraction at `i`. */
  function FractionEnd(t: string, i: nat): (j: nat)
    requires i <= |t|
    ensures i <= j <= |t|
  {
    if i + 1 < |t| && t[i] == '.' && IsDigit(t[i + 1]) then SpanEnd(t, i + 2, IsDigit) else i
  }

  /** `(?:[Ee][+-]?[0-9]+)?`: an optional exponent at `i`. */
  function ExponentEnd(t: string, i: nat): (j: nat)
    requires i <= |t|
    ensures i <= j <= |t|
  {
    if i < |t| && (t[i] == 'e' || t[i] == 'E') then
      var k := if i + 1 < |t| && (t[i + 1] == '+' || t[i + 1] == '-') then i + 2 else i + 1;
      if k < |t| && IsDigit(t[k]) then SpanEnd(t, k + 1, IsDigit) else i
    else i
  }

  /** `(?:0|[1-9][0-9]*)`: the integer part of a number at `i`. */
  function IntegerEnd(t: string, i: nat): (r: Option<nat>)
    requires i <= |t|
    ensures r.Some? <==> i < |t| && IsDigit(t[i])
    ensures r.Some? ==> i < r.value <= |t|
  {
    if i < |t| && t[i] == '0' then Some(i + 1)
    else if i < |t| && '1' <= t[i] <= '9' then Some(SpanEnd(t, i + 1, IsDigit))
    else None
  }

  /** NUMBER_RE `/-?(?:0|[1-9][0-9]*)(?:\.[0-9]+)?(?:[Ee][+-]?[0-9]+)?/y`. */
  function NumberEnd(t: string, i: nat): (r: Option<nat>)
    requires i <= |t|
    ensures r.Some? ==> i < r.value <= |t|
    ensures r.Some? <==> var a := if At(t, i, '-') then i + 1 else i; a < |t| && IsDigit(t[a])
  {
    var a := if At(t, i, '-') then i + 1 else i;
    match IntegerEnd(t, a)
    case None => None
    case Some(b) => Some(ExponentEnd(t, FractionEnd(t, b)))
  }

  /** One match of STRING_CONTENT_RE: a raw character, or the text of the
      `escape` group after a backslash. */
  datatype Content = Raw(c: char) | Escaped(escape: string)

  predicate IsSimpleEscape(c: char) {
    c == '"' || c == '\\' || c == '/' || c == 'b' || c == 'f' || c == 'n' || c == 'r' || c == 't'
  }

  /** STRING_CONTENT_RE `/[^"\\\x00-\x1f]|\\(?<escape>["\\\/bfnrt]|u[0-9A-Fa-f]{4})/y`. */
  function StringContent(t: string, i: nat): (r: Option<(Content, nat)>)
    requires i <= |t|
    ensures r.Some? ==> i < r.value.1 <= |t|
    ensures r.Some? && r.value.0.Raw? ==> r.value == (Raw(t[i]), i + 1) && t[i] != '"' && t[i] != '\\' && t[i] >= ' '
    ensures r.Some? && r.value.0.Escaped? ==> i + 2 <= r.value.1 && t[i] == '\\' && r.value.0.escape == t[i + 1..r.value.1]
    ensures r.Some? ==> WellFormed(r.value.0)
    ensures At(t, i, '"') ==> r.None?
  {
    if i < |t| && t[i] != '"' && t[i] != '\\' && t[i] >= ' ' then Some((Raw(t[i]), i + 1))
    else if i + 1 < |t| && t[i] == '\\' && IsSimpleEscape(t[i + 1]) then Some((Escaped([t[i + 1]]), i + 2))
    else if i + 6 <= |t| && t[i] == '\\' && t[i + 1] == 'u' && IsDigitOf(t[i + 2], 16) && IsDigitOf(t[i + 3], 16) && IsDigitOf(t[i + 4], 16) && IsDigitOf(t[i + 5], 16) then
      Some((Escaped(t[i + 1..i + 6]), i + 6))
    else None
  }

  /** ESCAPE_CHAR_MAP, as a function of the escape character: the code unit
      each single-character escape stands for. Every key of the source's map
      is one character long, so an escape group is a key exactly when it is
      one character long and this function knows that character. */
  function EscapeUnit(c: char): (r: Option<CodeUnit>)
    ensures r.Some? <==> IsSimpleEscape(c)
    ensures r.Some? && (c == '"' || c == '\\' || c == '/') ==> r.value == c as int
    ensures r.Some? && !(c == '"' || c == '\\' || c == '/') ==> r.value < 0x20
  {
    match c
    case '"' => Some(0x22)
    case '\\' => Some(0x5C)
    case '/' => Some(0x2F)
    case 'b' => Some(0x08)
    case 'f' => Some(0x0C)
    case 'n' => Some(0x0A)
    case 'r' => Some(0x0D)
    case 't' => Some(0x09)
    case _ => None
  }

  /** No two escape characters stand for the same code unit. */
  lemma EscapeUnitInjective(a: char, b: char)
    requires EscapeUnit(a).Some? && EscapeUnit(a) == EscapeUnit(b)
    ensures a == b
  {
  }

  /** `ESCAPE_CHAR_MAP.has(escape)`. */
  predicate IsMapped(escape: string) {
    |escape| == 1 && EscapeUnit(escape[0]).Some?
  }

  /** An escape group is a key of the map, or `u` and four hexadecimal digits. */
  predicate WellFormed(c: Content) {
    c.Escaped? ==> IsMapped(c.escape) || (|c.escape| == 5 && c.escape[0] == 'u' && AllDigitsOf(c.escape[1..], 16))
  }

  /** The code units one content match adds to the string: those of the
      character itself (the expression has no `u` flag, so an astral
      character is read as its two surrogates, one after the other), the
      mapped character, or `String.fromCodePoint` of the four hexadecimal
      digits. */
  function ContentUnits(c: Content): (r: Units)
    requires WellFormed(c)
    ensures c.Escaped? && !IsMapped(c.escape) ==> r == [ParseDigits(c.escape[1..], 16)]
  {
    match c
    case Raw(ch) => Utf16(ch)
    case Escaped(e) =>
      if IsMapped(e) then [EscapeUnit(e[0]).value]
      else
        ParseDigitsBound(e[1..], 16);
        assert Pow(16, 4) == 0x1_0000;
        [ParseDigits(e[1..], 16)]
  }

  /** The content loop of `parseJSONString`: the units read from `i` and the
      position where no content matches any more. */
  function StringBody(t: string, i: nat): (r: (Units, nat))
    requires i <= |t|
    ensures i <= r.1 <= |t|
    decreases |t| - i
  {
    match StringContent(t, i)
    case None => ([], i)
    case Some((c, j)) =>
      var rest := StringBody(t, j);
      (ContentUnits(c) + rest.0, rest.1)
  }

  /** The content loop stops only where no content matches. */
  lemma {:induction false} StringBodyStops(t: string, i: nat)
    requires i <= |t|
    ensures StringContent(t, StringBody(t, i).1).None?
    decreases |t| - i
  {
    match StringContent(t, i)
    case None =>
    case Some((c, j)) => StringBodyStops(t, j);
  }

  /** `parseJSONString`: `None` without an opening quote, else the units up
      to the closing quote, which must be there. */
  function ParseString(t: string, i: nat): (r: Result<(Option<Units>, nat), JsonError>)
    requires i <= |t|
    ensures (r.Success? && r.value.0.None?) <==> !At(t, i, '"')
    ensures r.Success? && r.value.0.None? ==> r.value.1 == i
    ensures r.Success? && r.value.0.Some? ==> i + 2 <= r.value.1 <= |t| && t[r.value.1 - 1] == '"'
    ensures r.Failure? ==> r.error == ExpectedQuote
  {
    if !At(t, i, '"') then Success((None, i))
    else
      var (units, j) := StringBody(t, i + 1);
      if At(t, j, '"') then Success((Some(units), j + 1)) else Failure(ExpectedQuote)
  }

  /** `parseJSONValue`: the literals, a number, a string, an array, an
      object, tried in that order. Each step below tries one kind and hands
      the position on to the next step when that kind does not start there. */
  function ParseValue(t: string, i: nat): (r: Result<(Json, nat), JsonError>)
    requires i <= |t|
    ensures r.Success? ==> i < r.value.1 <= |t|
    ensures i == |t| ==> r == Failure(ExpectedValue)
    decreases |t| - i, 4
  {
    if Literal(t, i, "null").Some? then Success((Null, i + 4))
    else if Literal(t, i, "false").Some? then Success((Bool(false), i + 5))
    else if Literal(t, i, "true").Some? then Success((Bool(true), i + 4))
    else NonLiteral(t, i)
  }

  /** `parseJSONNumber`, then the remaining kinds. */
  function NonLiteral(t: string, i: nat): (r: Result<(Json, nat), JsonError>)
    requires i <= |t|
    ensures r.Success? ==> i < r.value.1 <= |t|
    ensures i == |t| ==> r == Failure(ExpectedValue)
    decreases |t| - i, 3
  {
    match NumberEnd(t, i)
    case Some(j) => Success((Number(t[i..j]), j))
    case None => NonNumber(t, i)
  }

  /** `parseJSONString`, then the remaining kinds. */
  function NonNumber(t: string, i: nat): (r: Result<(Json, nat), JsonError>)
    requires i <= |t|
    ensures r.Success? ==> i < r.value.1 <= |t|
    ensures i == |t| ==> r == Failure(ExpectedValue)
    decreases |t| - i, 2
  {
    var s :- ParseString(t, i);
    if s.0.Some? then Success((Str(s.0.value), s.1)) else Compound(t, i)
  }

  /** `parseJSONArray`, then `parseJSONObject`; nothing else is a value. */
  function Compound(t: string, i: nat): (r: Result<(Json, nat), JsonError>)
    requires i <= |t|
    ensures r.Success? ==> i < r.value.1 <= |t|
    ensures i == |t| ==> r == Failure(ExpectedValue)
    decreases |t| - i, 1
  {
    var a :- ParseArray(t, i);
    if a.0.Some? then Success((a.0.value, a.1))
    else
      var o :- ParseObject(t, i);
      if o.0.Some? then Success((o.0.value, o.1))
      else Failure(ExpectedValue)
  }

  /** `parseJSONArray`: `None` without `[`; else the items, separated by
      commas, up to the `]` that must follow. */
  function ParseArray(t: string, i: nat): (r: Result<(Option<Json>, nat), JsonError>)
    requires i <= |t|
    ensures (r.Success? && r.value.0.None?) <==> !At(t, i, '[')
    ensures r.Success? && r.value.0.None? ==> r.value.1 == i
    ensures r.Success? && r.value.0.Some? ==> r.value.0.value.Array? && i < r.value.1 <= |t|
    decreases |t| - i, 0
  {
    if !At(t, i, '[') then Success((None, i))
    else
      var j := SkipSpace(t, i + 1);
      if At(t, j, ']') then Success((Some(Array([])), j + 1))
      else
        var items :- ArrayItems(t, j);
        if At(t, items.1, ']') then Success((Some(Array(items.0)), items.1 + 1)) else Failure(ExpectedCloseBracket)
  }

  /** The `do … while (matchString(","))` loop of `parseJSONArray`. */
  function ArrayItems(t: string, i: nat): (r: Result<(seq<Json>, nat), JsonError>)
    requires i <= |t|
    ensures r.Success? ==> i < r.value.1 <= |t| && |r.value.0| >= 1
    decreases |t| - i, 6
  {
    var item :- ParseValue(t, SkipSpace(t, i));
    var k := SkipSpace(t, item.1);
    if At(t, k, ',') then
      var rest :- ArrayItems(t, k + 1);
      Success(([item.0] + rest.0, rest.1))
    else Success(([item.0], k))
  }

  /** `parseJSONObject`: `None` without `{`; else the members, separated by
      commas, up to the `}` that must follow. */
  function ParseObject(t: string, i: nat): (r: Result<(Option<Json>, nat), JsonError>)
    requires i <= |t|
    ensures (r.Success? && r.value.0.None?) <==> !At(t, i, '{')
    ensures r.Success? && r.value.0.None? ==> r.value.1 == i
    ensures r.Success? && r.value.0.Some? ==> r.value.0.value.Object? && i < r.value.1 <= |t|
    decreases |t| - i, 0
  {
    if !At(t, i, '{') then Success((None, i))
    else
      var j := SkipSpace(t, i + 1);
      if At(t, j, '}') then Success((Some(Object(map[])), j + 1))
      else
        var members :- ObjectMembers(t, j, map[]);
        if At(t, members.1, '}') then Success((Some(Object(members.0)), members.1 + 1)) else Failure(ExpectedCloseBrace)
  }

  /** One member of `parseJSONObject`: white space, then the name, which
      must be a string, then the rest of the member. */
  function ObjectMember(t: string, i: nat): (r: Result<(Units, Json, nat), JsonError>)
    requires i <= |t|
    ensures r.Success? ==> i < r.value.2 <= |t|
    decreases |t| - i, 5
  {
    var name :- ParseString(t, SkipSpace(t, i));
    if name.0.None? then Failure(ExpectedKey) else MemberValue(t, name.0.value, name.1)
  }

  /** The rest of a member after its name, which ends at `k`: white space,
      `:`, white space, the value. */
  function MemberValue(t: string, name: Units, k: nat): (r: Result<(Units, Json, nat), JsonError>)
    requires k <= |t|
    ensures r.Success? ==> k < r.value.2 <= |t| && r.value.0 == name
    decreases |t| - k, 4
  {
    var c := SkipSpace(t, k);
    if !At(t, c, ':') then Failure(ExpectedColon)
    else
      var value :- ParseValue(t, SkipSpace(t, c + 1));
      Success((name, value.0, value.1))
  }

  /** The `do … while (matchString(","))` loop of `parseJSONObject`, adding
      each member to `acc` as it is read, so a later member of the same name
      overwrites an earlier one. */
  function ObjectMembers(t: string, i: nat, acc: map<Units, Json>): (r: Result<(map<Units, Json>, nat), JsonError>)
    requires i <= |t|
    ensures r.Success? ==> i < r.value.1 <= |t|
    decreases |t| - i, 6
  {
    var member :- ObjectMember(t, i);
    var acc' := acc[member.0 := member.1];
    var m := SkipSpace(t, member.2);
    if At(t, m, ',') then ObjectMembers(t, m + 1, acc') else Success((acc', m))
  }

  /** `parseJSONFromString`: white space, one value, white space, and
      nothing else. */
  function ParseDocument(t: string): (r: Result<Json, JsonError>)
    ensures SkipSpace(t, 0) == |t| ==> r == Failure(ExpectedValue)
  {
    var (v, j) :- ParseValue(t, SkipSpace(t, 0));
    if SkipSpace(t, j) == |t| then Success(v) else Failure(InvalidDocument)
  }
}
