/** A writer for JSON documents, and the proof that the reader reads back
    what it writes. A `Doc` is a document as written: members in order,
    repeated names allowed, numbers as their syntax. `Meaning` is the value
    the reader is meant to build from it, a later member overwriting an
    earlier one of the same name. The writer puts the same white space
    around every token, so the round trip also covers white space. */
module JsonWriter {
  import opened Wrappers
  import opened Numerals
  import opened Matcher
  import opened JsonReader

  /** The exponent of a number: `e` or `E`, an optional sign, digits. */
  datatype Exponent = Exponent(letter: char, sign: string, digits: string)

  /** The syntax of a JSON number (section 6 of RFC 8259). */
  datatype NumberSyntax = NumberSyntax(negative: bool, whole: string, fraction: Option<string>, exponent: Option<Exponent>)

  predicate AllDigits(s: string) {
    forall k | 0 <= k < |s| :: IsDigit(s[k])
  }

  predicate ValidExponent(x: Exponent) {
    && (x.letter == 'e' || x.letter == 'E')
    && (x.sign == "" || x.sign == "+" || x.sign == "-")
    && |x.digits| >= 1 && AllDigits(x.digits)
  }

  /** The whole part has no leading zero, and fraction and exponent digits
      are not empty. */
  predicate ValidNumber(n: NumberSyntax) {
    && (n.whole == "0" || (|n.whole| >= 1 && '1' <= n.whole[0] <= '9' && AllDigits(n.whole)))
    && (n.fraction.Some? ==> |n.fraction.value| >= 1 && AllDigits(n.fraction.value))
    && (n.exponent.Some? ==> ValidExponent(n.exponent.value))
  }

  function SignText(negative: bool): string {
    if negative then "-" else ""
  }

  function FractionText(f: Option<string>): string {
    match f
    case None => ""
    case Some(ds) => "." + ds
  }

  function ExponentText(e: Option<Exponent>): string {
    match e
    case None => ""
    case Some(x) => [x.letter] + x.sign + x.digits
  }

  function NumberText(n: NumberSyntax): string {
    SignText(n.negative) + n.whole + FractionText(n.fraction) + ExponentText(n.exponent)
  }

  /** A character that would extend a number written just before it. */
  predicate ContinuesNumber(c: char) {
    IsDigit(c) || c == '.' || c == 'e' || c == 'E'
  }

  /** Nothing at `j` extends a number that ends there. */
  predicate EndsNumber(t: string, j: nat) {
    j == |t| || (j < |t| && !ContinuesNumber(t[j]))
  }

  lemma IsAtChar(t: string, i: nat, s: string, k: nat)
    requires IsAt(t, i, s) && k < |s|
    ensures t[i + k] == s[k]
  {
    assert t[i + k] == t[i..i + |s|][k];
  }

  /** A run written at `i` and not continued after it is read whole. */
  lemma RunRead(t: string, i: nat, s: string, p: char -> bool)
    requires IsAt(t, i, s)
    requires forall k | 0 <= k < |s| :: p(s[k])
    requires i + |s| == |t| || !p(t[i + |s|])
    ensures SpanEnd(t, i, p) == i + |s|
  {
    forall k | i <= k < i + |s| ensures p(t[k]) {
      IsAtChar(t, i, s, k - i);
    }
    SpanEndOver(t, i, |s|, p);
  }

  predicate Spaces(ws: string) {
    forall k | 0 <= k < |ws| :: IsJsonSpace(ws[k])
  }

  lemma SpacesRead(t: string, i: nat, ws: string)
    requires Spaces(ws) && IsAt(t, i, ws)
    requires i + |ws| == |t| || !IsJsonSpace(t[i + |ws|])
    ensures SkipSpace(t, i) == i + |ws|
  {
    RunRead(t, i, ws, IsJsonSpace);
  }

  /** A written run of digits: its first digit is there, and the rest is read whole. */
  lemma DigitsRead(t: string, k: nat, ds: string)
    requires |ds| >= 1 && AllDigits(ds) && IsAt(t, k, ds)
    requires k + |ds| == |t| || !IsDigit(t[k + |ds|])
    ensures k < |t| && IsDigit(t[k])
    ensures SpanEnd(t, k + 1, IsDigit) == k + |ds|
  {
    IsAtChar(t, k, ds, 0);
    assert IsAt(t, k + 1, ds[1..]) by {
      IsAtAppend(t, k, ds[..1], ds[1..]);
      assert ds[..1] + ds[1..] == ds;
    }
    RunRead(t, k + 1, ds[1..], IsDigit);
  }

  lemma ExponentParts(t: string, c: nat, x: Exponent)
    requires IsAt(t, c, ExponentText(Some(x)))
    ensures At(t, c, x.letter) && IsAt(t, c + 1, x.sign) && IsAt(t, c + 1 + |x.sign|, x.digits)
  {
    IsAtAppend(t, c, [x.letter] + x.sign, x.digits);
    IsAtAppend(t, c, [x.letter], x.sign);
    IsAtChar(t, c, [x.letter], 0);
  }

  /** The optional sign of an exponent is skipped exactly when it was written. */
  lemma SignSkipped(t: string, c: nat, x: Exponent)
    requires ValidExponent(x) && IsAt(t, c + 1, x.sign) && IsAt(t, c + 1 + |x.sign|, x.digits)
    ensures c + 1 + |x.sign| == if c + 1 < |t| && (t[c + 1] == '+' || t[c + 1] == '-') then c + 2 else c + 1
  {
    IsAtChar(t, c + 1 + |x.sign|, x.digits, 0);
    if x.sign != "" {
      IsAtChar(t, c + 1, x.sign, 0);
    }
  }

  lemma ExponentRead(t: string, c: nat, e: Option<Exponent>, d: nat)
    requires e.Some? ==> ValidExponent(e.value)
    requires IsAt(t, c, ExponentText(e)) && d == c + |ExponentText(e)| && EndsNumber(t, d)
    ensures ExponentEnd(t, c) == d
  {
    if e.Some? {
      var x := e.value;
      assert |ExponentText(e)| == 1 + |x.sign| + |x.digits|;
      ExponentParts(t, c, x);
      SignSkipped(t, c, x);
      DigitsRead(t, c + 1 + |x.sign|, x.digits);
    }
  }

  lemma FractionRead(t: string, b: nat, f: Option<string>, c: nat)
    requires f.Some? ==> |f.value| >= 1 && AllDigits(f.value)
    requires IsAt(t, b, FractionText(f)) && c == b + |FractionText(f)|
    requires c == |t| || (c < |t| && !IsDigit(t[c]) && t[c] != '.')
    ensures FractionEnd(t, b) == c
  {
    if f.Some? {
      var ds := f.value;
      assert At(t, b, '.') && IsAt(t, b + 1, ds) by {
        IsAtAppend(t, b, ".", ds);
        IsAtChar(t, b, ".", 0);
      }
      DigitsRead(t, b + 1, ds);
    }
  }

  /** Where the parts of a written number start: the whole part at `a`,
      the fraction at `b`, the exponent at `c`; it ends at `d`. */
  predicate NumberLaidOut(t: string, i: nat, n: NumberSyntax, a: nat, b: nat, c: nat, d: nat) {
    && a == i + |SignText(n.negative)| && b == a + |n.whole|
    && c == b + |FractionText(n.fraction)| && d == c + |ExponentText(n.exponent)|
    && IsAt(t, i, SignText(n.negative)) && IsAt(t, a, n.whole)
    && IsAt(t, b, FractionText(n.fraction)) && IsAt(t, c, ExponentText(n.exponent))
  }

  lemma NumberParts(t: string, i: nat, n: NumberSyntax)
    requires IsAt(t, i, NumberText(n))
    ensures var a := i + |SignText(n.negative)|;
            var b := a + |n.whole|;
            var c := b + |FractionText(n.fraction)|;
            NumberLaidOut(t, i, n, a, b, c, i + |NumberText(n)|)
  {
    var sign, frac, exp := SignText(n.negative), FractionText(n.fraction), ExponentText(n.exponent);
    IsAtAppend(t, i, sign + n.whole + frac, exp);
    IsAtAppend(t, i, sign + n.whole, frac);
    IsAtAppend(t, i, sign, n.whole);
  }

  /** The character after the whole part and after the fraction ends them. */
  lemma NumberBoundaries(t: string, i: nat, n: NumberSyntax, a: nat, b: nat, c: nat, d: nat)
    requires ValidNumber(n) && NumberLaidOut(t, i, n, a, b, c, d) && EndsNumber(t, d)
    ensures a == if At(t, i, '-') then i + 1 else i
    ensures c == |t| || (c < |t| && !IsDigit(t[c]) && t[c] != '.')
    ensures b == |t| || (b < |t| && !IsDigit(t[b]))
  {
    if n.negative {
      IsAtChar(t, i, "-", 0);
    } else if i < |t| {
      IsAtChar(t, i, n.whole, 0);
    }
    if n.exponent.Some? {
      IsAtChar(t, c, ExponentText(n.exponent), 0);
    }
    if n.fraction.Some? {
      IsAtChar(t, b, FractionText(n.fraction), 0);
    } else if n.exponent.Some? {
      assert b == c;
    }
  }

  /** The integer part is read whole when no digit follows it. */
  lemma IntegerRead(t: string, a: nat, whole: string, b: nat)
    requires whole == "0" || (|whole| >= 1 && '1' <= whole[0] <= '9' && AllDigits(whole))
    requires IsAt(t, a, whole) && b == a + |whole|
    requires b == |t| || (b < |t| && !IsDigit(t[b]))
    ensures IntegerEnd(t, a) == Some(b)
  {
    if whole == "0" {
      IsAtChar(t, a, whole, 0);
    } else {
      DigitsRead(t, a, whole);
    }
  }

  /** NUMBER_RE reads a number laid out at `i` up to its end `d`, when
      nothing after it would extend it. */
  lemma NumberRead(n: NumberSyntax, t: string, i: nat, a: nat, b: nat, c: nat, d: nat)
    requires ValidNumber(n) && NumberLaidOut(t, i, n, a, b, c, d) && EndsNumber(t, d)
    ensures NumberEnd(t, i) == Some(d)
  {
    NumberBoundaries(t, i, n, a, b, c, d);
    IntegerRead(t, a, n.whole, b);
    FractionRead(t, b, n.fraction, c);
    ExponentRead(t, c, n.exponent, d);
  }

  /** NUMBER_RE reads a number written by `NumberText` exactly, when nothing
      after it would extend it. */
  lemma NumberTextRead(n: NumberSyntax, t: string, i: nat, d: nat)
    requires ValidNumber(n)
    requires IsAt(t, i, NumberText(n)) && d == i + |NumberText(n)| && EndsNumber(t, d)
    ensures NumberEnd(t, i) == Some(d)
  {
    var a := i + |SignText(n.negative)|;
    var b := a + |n.whole|;
    NumberParts(t, i, n);
    NumberRead(n, t, i, a, b, b + |FractionText(n.fraction)|, d);
  }

  /** The character of the short escape for `u`, when the reader's map has one. */
  function ShortEscape(u: CodeUnit): (r: Option<char>)
    ensures r.Some? ==> IsSimpleEscape(r.value) && EscapeUnit(r.value) == Some(u)
    ensures forall c | EscapeUnit(c) == Some(u) && c != '/' :: r == Some(c)
  {
    if u == 0x22 then Some('"')
    else if u == 0x5C then Some('\\')
    else if u == 0x08 then Some('b')
    else if u == 0x0C then Some('f')
    else if u == 0x0A then Some('n')
    else if u == 0x0D then Some('r')
    else if u == 0x09 then Some('t')
    else None
  }

  /** Units a string literal cannot hold as themselves: controls and surrogates. */
  predicate NeedsHex(u: CodeUnit) {
    u < 0x20 || 0xD800 <= u < 0xE000
  }

  /** One code unit as string content: a short escape of the reader's map,
      `\u` and four hexadecimal digits for the other control characters and
      for surrogates, and the character itself otherwise. */
  function EncodeUnit(u: CodeUnit): string {
    match ShortEscape(u)
    case Some(c) => ['\\', c]
    case None => if NeedsHex(u) then "\\u" + FixedHex(u, 4) else [u as char]
  }

  function EncodeUnits(us: Units): string {
    if us == [] then "" else EncodeUnit(us[0]) + EncodeUnits(us[1..])
  }

  /** A string literal. */
  function Quote(us: Units): string {
    "\"" + EncodeUnits(us) + "\""
  }

  lemma ShortEscapeRead(t: string, i: nat, c: char)
    requires IsSimpleEscape(c) && IsAt(t, i, ['\\', c])
    ensures StringContent(t, i) == Some((Escaped([c]), i + 2))
  {
    IsAtChar(t, i, ['\\', c], 0);
    IsAtChar(t, i, ['\\', c], 1);
  }

  lemma HexEscapeRead(t: string, i: nat, hex: string)
    requires |hex| == 4 && AllDigitsOf(hex, 16) && IsAt(t, i, "\\u" + hex)
    ensures StringContent(t, i) == Some((Escaped("u" + hex), i + 6))
  {
    IsAtChar(t, i, "\\u" + hex, 0);
    IsAtChar(t, i, "\\u" + hex, 1);
    forall k | i + 2 <= k < i + 6 ensures t[k] == hex[k - i - 2] {
      IsAtChar(t, i, "\\u" + hex, k - i);
    }
    assert t[i + 1..i + 6] == "u" + hex;
  }

  lemma RawRead(t: string, i: nat, c: char)
    requires c != '"' && c != '\\' && c >= ' ' && At(t, i, c)
    ensures StringContent(t, i) == Some((Raw(c), i + 1))
  {
  }

  /** The content match an encoded unit is meant to be read as. */
  function UnitContent(u: CodeUnit): Content {
    match ShortEscape(u)
    case Some(c) => Escaped([c])
    case None => if NeedsHex(u) then Escaped("u" + FixedHex(u, 4)) else Raw(u as char)
  }

  /** A `\u` escape stands for the unit its four digits spell. */
  lemma HexContentUnits(hex: string, u: CodeUnit)
    requires |hex| == 4 && AllDigitsOf(hex, 16) && ParseDigits(hex, 16) == u
    ensures WellFormed(Escaped("u" + hex)) && ContentUnits(Escaped("u" + hex)) == [u]
  {
    assert ("u" + hex)[1..] == hex;
    assert |"u" + hex| != 1;
  }

  /** Each content match the writer produces stands for exactly its unit. */
  lemma UnitContentUnits(u: CodeUnit)
    ensures WellFormed(UnitContent(u)) && ContentUnits(UnitContent(u)) == [u]
  {
    if ShortEscape(u).None? && NeedsHex(u) {
      assert Pow(16, 4) == 0x1_0000;
      FixedHexValue(u, 4);
      HexContentUnits(FixedHex(u, 4), u);
    }
  }

  /** STRING_CONTENT_RE reads an encoded unit as one match, the one meant. */
  lemma UnitRead(u: CodeUnit, t: string, i: nat, j: nat)
    requires IsAt(t, i, EncodeUnit(u)) && j == i + |EncodeUnit(u)|
    ensures StringContent(t, i) == Some((UnitContent(u), j))
  {
    match ShortEscape(u)
    case Some(c) =>
      ShortEscapeRead(t, i, c);
    case None =>
      if NeedsHex(u) {
        assert Pow(16, 4) == 0x1_0000;
        FixedHexValue(u, 4);
        HexEscapeRead(t, i, FixedHex(u, 4));
      } else {
        IsAtChar(t, i, [u as char], 0);
        RawRead(t, i, u as char);
      }
  }

  lemma StringBodyStep(t: string, i: nat, u: CodeUnit, j: nat)
    requires i <= |t|
    requires StringContent(t, i) == Some((UnitContent(u), j))
    ensures StringBody(t, i).0 == [u] + StringBody(t, j).0
    ensures StringBody(t, i).1 == StringBody(t, j).1
  {
    UnitContentUnits(u);
  }

  /** The content loop reads an encoded unit as that unit and goes on after it. */
  lemma UnitStep(u: CodeUnit, t: string, i: nat, j: nat)
    requires IsAt(t, i, EncodeUnit(u)) && j == i + |EncodeUnit(u)|
    ensures j <= |t|
    ensures StringBody(t, i).0 == [u] + StringBody(t, j).0
    ensures StringBody(t, i).1 == StringBody(t, j).1
  {
    UnitRead(u, t, i, j);
    StringBodyStep(t, i, u, j);
  }

  /** The content loop reads written units back and stops at the closing
      quote `e`. */
  lemma {:induction false} UnitsRead(us: Units, t: string, i: nat, e: nat)
    requires IsAt(t, i, EncodeUnits(us)) && e == i + |EncodeUnits(us)| && At(t, e, '"')
    ensures StringBody(t, i).0 == us
    ensures StringBody(t, i).1 == e
    decreases |us|
  {
    if us == [] {
      assert StringContent(t, i).None?;
    } else {
      var head, tail := EncodeUnit(us[0]), EncodeUnits(us[1..]);
      var j := i + |head|;
      assert IsAt(t, i, head) && IsAt(t, j, tail) && e == j + |tail| by {
        IsAtAppend(t, i, head, tail);
      }
      UnitsRead(us[1..], t, j, e);
      UnitStep(us[0], t, i, j);
    }
  }

  /** `parseJSONString` from the content loop's result. */
  lemma ParseStringFrom(t: string, i: nat, us: Units, j: nat)
    requires At(t, i, '"') && i + 1 <= j && At(t, j, '"')
    requires StringBody(t, i + 1).0 == us && StringBody(t, i + 1).1 == j
    ensures ParseString(t, i) == Success((Some(us), j + 1))
  {
  }

  /** Where the parts of a quoted text lie. */
  lemma QuotedLayout(t: string, i: nat, body: string, e: nat)
    requires IsAt(t, i, "\"" + body + "\"") && e == i + |"\"" + body + "\""|
    ensures At(t, i, '"') && IsAt(t, i + 1, body) && e == i + 1 + |body| + 1 && At(t, e - 1, '"')
  {
    IsAtAppend(t, i, "\"" + body, "\"");
    IsAtAppend(t, i, "\"", body);
    IsAtChar(t, i, "\"", 0);
    IsAtChar(t, e - 1, "\"", 0);
  }

  /** `parseJSONString` reads written units between quotes at `i` and `j`. */
  lemma QuotedUnitsRead(us: Units, t: string, i: nat, j: nat)
    requires At(t, i, '"') && IsAt(t, i + 1, EncodeUnits(us)) && j == i + 1 + |EncodeUnits(us)| && At(t, j, '"')
    ensures ParseString(t, i) == Success((Some(us), j + 1))
  {
    UnitsRead(us, t, i + 1, j);
    ParseStringFrom(t, i, us, j);
  }

  /** `parseJSONString` reads a written literal back, up to its end `e`. */
  lemma QuoteRead(us: Units, t: string, i: nat, e: nat)
    requires IsAt(t, i, Quote(us)) && e == i + |Quote(us)|
    ensures ParseString(t, i) == Success((Some(us), e))
  {
    QuotedLayout(t, i, EncodeUnits(us), e);
    QuotedUnitsRead(us, t, i, e - 1);
  }

  /** A document as written. */
  datatype Doc =
    | DNull
    | DBool(b: bool)
    | DNumber(n: NumberSyntax)
    | DString(units: Units)
    | DArray(items: seq<Doc>)
    | DObject(members: seq<(Units, Doc)>)

  predicate ValidDoc(d: Doc)
    decreases d
  {
    match d
    case DNumber(n) => ValidNumber(n)
    case DArray(items) => forall k | 0 <= k < |items| :: ValidDoc(items[k])
    case DObject(ms) => forall k | 0 <= k < |ms| :: ValidDoc(ms[k].1)
    case _ => true
  }

  /** The text of a document, with `ws` around every token. */
  function Print(d: Doc, ws: string): string
    decreases d, 1, 0
  {
    match d
    case DNull => "null"
    case DBool(b) => if b then "true" else "false"
    case DNumber(n) => NumberText(n)
    case DString(us) => Quote(us)
    case DArray(items) => "[" + ws + (if items == [] then "" else PrintItems(d, ws, 0) + ws) + "]"
    case DObject(ms) => "{" + ws + (if ms == [] then "" else PrintMembers(d, ws, 0) + ws) + "}"
  }

  /** The items of an array from the `k`th, separated by commas. */
  function PrintItems(d: Doc, ws: string, k: nat): string
    requires d.DArray? && k < |d.items|
    decreases d, 0, |d.items| - k
  {
    Print(d.items[k], ws) + if k + 1 == |d.items| then "" else ws + "," + ws + PrintItems(d, ws, k + 1)
  }

  function PrintMember(key: Units, value: string, ws: string): string {
    Quote(key) + ws + ":" + ws + value
  }

  /** The members of an object from the `k`th, separated by commas. */
  function PrintMembers(d: Doc, ws: string, k: nat): string
    requires d.DObject? && k < |d.members|
    decreases d, 0, |d.members| - k
  {
    var m := d.members[k];
    PrintMember(m.0, Print(m.1, ws), ws) + if k + 1 == |d.members| then "" else ws + "," + ws + PrintMembers(d, ws, k + 1)
  }

  /** The value a document denotes. */
  function Meaning(d: Doc): Json
    decreases d, 1, 0
  {
    match d
    case DNull => Null
    case DBool(b) => Bool(b)
    case DNumber(n) => Number(NumberText(n))
    case DString(us) => Str(us)
    case DArray(_) => Array(MeaningItems(d, 0))
    case DObject(_) => Object(MeaningMembers(d, 0, map[]))
  }

  function MeaningItems(d: Doc, k: nat): (r: seq<Json>)
    requires d.DArray? && k <= |d.items|
    ensures |r| == |d.items| - k
    decreases d, 0, |d.items| - k
  {
    if k == |d.items| then [] else [Meaning(d.items[k])] + MeaningItems(d, k + 1)
  }

  /** The members from the `k`th entered into `acc` in order. */
  function MeaningMembers(d: Doc, k: nat, acc: map<Units, Json>): map<Units, Json>
    requires d.DObject? && k <= |d.members|
    decreases d, 0, |d.members| - k
  {
    if k == |d.members| then acc
    else MeaningMembers(d, k + 1, acc[d.members[k].0 := Meaning(d.members[k].1)])
  }

  /** The characters a value can start with. */
  predicate StartsValue(c: char) {
    c == 'n' || c == 't' || c == 'f' || c == '-' || IsDigit(c) || c == '"' || c == '[' || c == '{'
  }

  lemma PrintStart(d: Doc, ws: string)
    requires ValidDoc(d)
    ensures |Print(d, ws)| >= 1 && StartsValue(Print(d, ws)[0])
    ensures d.DNumber? ==> Print(d, ws)[0] == '-' || IsDigit(Print(d, ws)[0])
  {
    if d.DNumber? {
      var n := d.n;
      if !n.negative {
        assert NumberText(n)[0] == n.whole[0];
      }
    }
  }
}
