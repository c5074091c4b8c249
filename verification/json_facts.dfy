/** What the JSON reader promises about whole documents, containers and
    strings (examples/parseJSON.js): a printed document with white space
    around it reads back as its meaning, anything left after the value is
    rejected, a trailing comma is rejected, an object keeps the last value
    given for a name, a string that is not closed properly is an error, and
    what the number expression matches is a valid JSON number. */
module JsonFacts {
  import opened Wrappers
  import opened Numerals
  import opened Matcher
  import opened JsonReader
  import opened JsonWriter
  import opened JsonRoundTrip

  /** `t` is `a + b + c`, seen from the positions where each part starts. */
  lemma ThreeParts(t: string, a: string, b: string, c: string)
    requires t == a + b + c
    ensures IsAt(t, 0, a) && IsAt(t, |a|, b) && IsAt(t, |a| + |b|, c) && |t| == |a| + |b| + |c|
  {
    assert t[0..|a|] == a;
    assert t[|a|..|a| + |b|] == b;
    assert t[|a| + |b|..|a| + |b| + |c|] == c;
  }

  /** A value is read where the text holds the printing of a document. */
  lemma PrintedValueAt(d: Doc, ws: string, t: string, s: nat, e: nat)
    requires PrintedAt(d, ws, t, s, e) && EndsNumber(t, e)
    ensures s < |t| && StartsValue(t[s]) && ParseValue(t, s) == Success((Meaning(d), e))
  {
    PrintStart(d, ws);
    FirstChar(t, s, Print(d, ws));
    ValueRead(d, ws, t, s, e);
  }

  /** `parseJSONFromString` reads a printed document, with any white space
      before and after it, back as the document's meaning. */
  lemma DocumentRoundTrip(d: Doc, ws: string, before: string, after: string)
    requires ValidDoc(d) && Spaces(ws) && Spaces(before) && Spaces(after)
    ensures ParseDocument(before + Print(d, ws) + after) == Success(Meaning(d))
  {
    var t := before + Print(d, ws) + after;
    ThreeParts(t, before, Print(d, ws), after);
    DocumentBetween(d, ws, t, before, after);
  }

  /** The document's printing lies between two runs of white space that fill the text. */
  lemma DocumentBetween(d: Doc, ws: string, t: string, before: string, after: string)
    requires Spaces(before) && Spaces(after) && IsAt(t, 0, before)
    requires PrintedAt(d, ws, t, |before|, |before| + |Print(d, ws)|)
    requires IsAt(t, |before| + |Print(d, ws)|, after) && |t| == |before| + |Print(d, ws)| + |after|
    ensures ParseDocument(t) == Success(Meaning(d))
  {
    var s, e := |before|, |before| + |Print(d, ws)|;
    SpacesRead(t, e, after);
    EndsAfterSpaces(t, e, after, |t|);
    PrintedValueAt(d, ws, t, s, e);
    SpacesRead(t, 0, before);
    ParseDocumentFrom(t, s, Meaning(d), e);
  }

  /** Text after the value that is neither white space nor part of a number
      makes the document invalid. */
  lemma TrailingTextRejected(d: Doc, ws: string, rest: string)
    requires ValidDoc(d) && Spaces(ws)
    requires |rest| >= 1 && !IsJsonSpace(rest[0]) && !ContinuesNumber(rest[0])
    ensures ParseDocument(Print(d, ws) + rest) == Failure(InvalidDocument)
  {
    var v := Print(d, ws);
    var t := v + rest;
    assert IsAt(t, 0, v) by {
      assert t[0..|v|] == v;
    }
    assert t[|v|] == rest[0];
    TrailingAt(d, ws, t, |v|);
  }

  /** The document's value ends at `e`, where text other than white space follows. */
  lemma TrailingAt(d: Doc, ws: string, t: string, e: nat)
    requires PrintedAt(d, ws, t, 0, e) && e < |t| && !IsJsonSpace(t[e]) && !ContinuesNumber(t[e])
    ensures ParseDocument(t) == Failure(InvalidDocument)
  {
    PrintedValueAt(d, ws, t, 0, e);
    SkipNoSpace(t, 0);
    SkipNoSpace(t, e);
    ParseDocumentFrom(t, 0, Meaning(d), e);
  }

  lemma SkipNoSpace(t: string, i: nat)
    requires i < |t| && !IsJsonSpace(t[i])
    ensures SkipSpace(t, i) == i
  {
  }

  /** No value starts at a character no value can start with: the reader
      throws "Expected value.". */
  lemma NoValueHere(t: string, i: nat)
    requires i <= |t| && (i == |t| || !StartsValue(t[i]))
    ensures ParseValue(t, i) == Failure(ExpectedValue)
  {
    if i < |t| {
      IsAtFirst(t, i, "null");
      IsAtFirst(t, i, "false");
      IsAtFirst(t, i, "true");
    }
    assert NonLiteral(t, i) == NonNumber(t, i);
    assert NonNumber(t, i) == Compound(t, i);
  }

  /** A comma followed by the closing bracket: the item loop finds no value. */
  lemma TrailingCommaInArray(t: string, i: nat)
    requires i <= |t| && At(t, SkipSpace(t, i), ']')
    ensures ArrayItems(t, i) == Failure(ExpectedValue)
  {
    NoValueHere(t, SkipSpace(t, i));
  }

  /** A comma followed by the closing brace: the member loop finds no name. */
  lemma TrailingCommaInObject(t: string, i: nat, acc: map<Units, Json>)
    requires i <= |t| && At(t, SkipSpace(t, i), '}')
    ensures ObjectMembers(t, i, acc) == Failure(ExpectedKey)
  {
    assert ParseString(t, SkipSpace(t, i)) == Success((None, SkipSpace(t, i)));
  }

  /** A string with no closing quote after its opening one is an error. */
  lemma UnterminatedString(t: string, i: nat)
    requires At(t, i, '"') && forall k | i < k < |t| :: t[k] != '"'
    ensures ParseString(t, i) == Failure(ExpectedQuote)
  {
    var j := StringBody(t, i + 1).1;
    assert !At(t, j, '"');
  }

  /** The content loop from `a` passes through position `p`: `p` is where
      one content match ends and the next would start. */
  predicate Reaches(t: string, a: nat, p: nat)
    requires a <= |t|
    decreases |t| - a
  {
    a == p || match StringContent(t, a) case None => false case Some((_, b)) => Reaches(t, b, p)
  }

  /** A loop that passes through `p` stops where the loop from `p` stops. */
  lemma {:induction false} ReachesBody(t: string, a: nat, p: nat)
    requires a <= |t| && Reaches(t, a, p)
    ensures p <= |t| && StringBody(t, a).1 == StringBody(t, p).1
    decreases |t| - a
  {
    if a != p {
      var b := StringContent(t, a).value.1;
      ReachesBody(t, b, p);
    }
  }

  /** A raw control character, or a backslash before a character that
      starts no escape, anywhere the content loop gets to is an error. */
  lemma BadStringContent(t: string, i: nat, p: nat)
    requires At(t, i, '"') && Reaches(t, i + 1, p) && p < |t|
    requires t[p] < ' ' || (t[p] == '\\' && p + 1 < |t| && !IsSimpleEscape(t[p + 1]) && t[p + 1] != 'u')
    ensures ParseString(t, i) == Failure(ExpectedQuote)
  {
    ReachesBody(t, i + 1, p);
    assert StringContent(t, p).None?;
    assert StringBody(t, p).1 == p;
  }

  /** No character of a string read, from its opening quote to its closing
      one, is a control character. */
  lemma ParsedStringHasNoControl(t: string, i: nat)
    requires i <= |t| && ParseString(t, i).Success? && ParseString(t, i).value.0.Some?
    ensures forall k | i <= k < ParseString(t, i).value.1 :: t[k] >= ' '
  {
    StringBodyPrintable(t, i + 1);
  }

  /** Every character the content loop passes over is printable. */
  lemma {:induction false} StringBodyPrintable(t: string, a: nat)
    requires a <= |t|
    ensures forall k | a <= k < StringBody(t, a).1 :: t[k] >= ' '
    decreases |t| - a
  {
    match StringContent(t, a)
    case None =>
    case Some((c, b)) =>
      ContentPrintable(t, a);
      StringBodyPrintable(t, b);
  }

  /** One content match, raw or escaped, holds no control character. */
  lemma ContentPrintable(t: string, a: nat)
    requires a <= |t| && StringContent(t, a).Some?
    ensures forall k | a <= k < StringContent(t, a).value.1 :: t[k] >= ' '
  {
    var (c, b) := StringContent(t, a).value;
    if c.Escaped? && !IsMapped(c.escape) {
      forall k | a + 2 <= k < b
        ensures t[k] >= ' '
      {
        assert t[k] == c.escape[1..][k - a - 2];
      }
    }
  }

  /** Every backslash the content loop of a string read gets to starts a
      mapped escape or `u` and four hexadecimal digits. */
  lemma ParsedEscapeValid(t: string, i: nat, p: nat)
    requires i <= |t| && ParseString(t, i).Success? && ParseString(t, i).value.0.Some?
    requires Reaches(t, i + 1, p) && p < |t| && t[p] == '\\'
    ensures p + 1 < |t| && (IsSimpleEscape(t[p + 1]) || (t[p + 1] == 'u' && p + 6 <= |t| && AllDigitsOf(t[p + 2..p + 6], 16)))
  {
    ReachesBody(t, i + 1, p);
    if StringContent(t, p).None? {
      assert false;
    }
    var (c, b) := StringContent(t, p).value;
    if !IsMapped(c.escape) {
      assert c.escape[1..] == t[p + 2..p + 6];
    }
  }

  /** The names the member loop ends with: those it started with and those
      of the members from the `k`th. */
  lemma {:induction false} MemberKeys(d: Doc, k: nat, acc: map<Units, Json>)
    requires d.DObject? && k <= |d.members|
    ensures forall name :: name in MeaningMembers(d, k, acc) <==>
      name in acc || exists j | k <= j < |d.members| :: d.members[j].0 == name
    decreases |d.members| - k
  {
    if k < |d.members| {
      MeaningMembersStep(d, k, acc);
      MemberKeys(d, k + 1, acc[d.members[k].0 := Meaning(d.members[k].1)]);
    }
  }

  /** A name no member from the `k`th has keeps the value it had. */
  lemma {:induction false} UntouchedMember(d: Doc, k: nat, acc: map<Units, Json>, name: Units)
    requires d.DObject? && k <= |d.members| && name in acc
    requires forall j | k <= j < |d.members| :: d.members[j].0 != name
    ensures name in MeaningMembers(d, k, acc) && MeaningMembers(d, k, acc)[name] == acc[name]
    decreases |d.members| - k
  {
    if k < |d.members| {
      MeaningMembersStep(d, k, acc);
      UntouchedMember(d, k + 1, acc[d.members[k].0 := Meaning(d.members[k].1)], name);
    }
  }

  /** Duplicate names: the value of the last member with a name is the one
      the object keeps. */
  lemma {:induction false} LastMemberWins(d: Doc, k: nat, acc: map<Units, Json>, j: nat)
    requires d.DObject? && k <= j < |d.members|
    requires forall l | j < l < |d.members| :: d.members[l].0 != d.members[j].0
    ensures d.members[j].0 in MeaningMembers(d, k, acc)
    ensures MeaningMembers(d, k, acc)[d.members[j].0] == Meaning(d.members[j].1)
    decreases j - k
  {
    var acc' := acc[d.members[k].0 := Meaning(d.members[k].1)];
    MeaningMembersStep(d, k, acc);
    if k == j {
      UntouchedMember(d, k + 1, acc', d.members[j].0);
    } else {
      LastMemberWins(d, k + 1, acc', j);
    }
  }

  // Dispatch.

  /** The character a value of each kind starts with. */
  predicate Introduces(c: char, v: Json) {
    match v
    case Null => c == 'n'
    case Bool(b) => c == (if b then 't' else 'f')
    case Number(_) => c == '-' || IsDigit(c)
    case Str(_) => c == '"'
    case Array(_) => c == '['
    case Object(_) => c == '{'
  }

  /** The kind of value read is decided by its first character, so trying
      the kinds in order never lets one kind take another's text. */
  lemma ValueKindFromFirstChar(t: string, i: nat)
    requires i <= |t|
    ensures ParseValue(t, i).Success? ==> i < |t| && Introduces(t[i], ParseValue(t, i).value.0)
  {
    IsAtFirst(t, i, "null");
    IsAtFirst(t, i, "false");
    IsAtFirst(t, i, "true");
    if !IsAt(t, i, "null") && !IsAt(t, i, "false") && !IsAt(t, i, "true") {
      NonLiteralKind(t, i);
    }
  }

  lemma NonLiteralKind(t: string, i: nat)
    requires i <= |t|
    ensures NonLiteral(t, i).Success? ==> i < |t| && Introduces(t[i], NonLiteral(t, i).value.0)
  {
    match NumberEnd(t, i)
    case Some(j) =>
      assert NonLiteral(t, i) == Success((Number(t[i..j]), j));
    case None =>
      assert NonLiteral(t, i) == NonNumber(t, i);
      CompoundKind(t, i);
  }

  lemma CompoundKind(t: string, i: nat)
    requires i <= |t|
    ensures Compound(t, i).Success? ==> i < |t| && Introduces(t[i], Compound(t, i).value.0)
  {
  }

  // Number lexemes.

  /** The fraction NUMBER_RE reads at `b`, without its dot. */
  function ScannedFraction(t: string, b: nat): Option<string>
    requires b <= |t|
  {
    var c := FractionEnd(t, b);
    if c > b then Some(t[b + 1..c]) else None
  }

  /** The exponent NUMBER_RE reads at `c`, split into letter, sign and digits. */
  function ScannedExponent(t: string, c: nat): Option<Exponent>
    requires c <= |t|
  {
    var d := ExponentEnd(t, c);
    if d > c then
      var k := if t[c + 1] == '+' || t[c + 1] == '-' then c + 2 else c + 1;
      Some(Exponent(t[c], t[c + 1..k], t[k..d]))
    else None
  }

  /** The number syntax of the text NUMBER_RE matches at `i`. */
  function ScannedNumber(t: string, i: nat): NumberSyntax
    requires i <= |t| && NumberEnd(t, i).Some?
  {
    var a := if At(t, i, '-') then i + 1 else i;
    var b := IntegerEnd(t, a).value;
    var c := FractionEnd(t, b);
    NumberSyntax(At(t, i, '-'), t[a..b], ScannedFraction(t, b), ScannedExponent(t, c))
  }

  /** What NUMBER_RE matches is a valid JSON number: the converse of
      `NumberTextRead`. */
  lemma NumberMatchIsNumber(t: string, i: nat)
    requires i <= |t| && NumberEnd(t, i).Some?
    ensures ValidNumber(ScannedNumber(t, i))
    ensures NumberText(ScannedNumber(t, i)) == t[i..NumberEnd(t, i).value]
  {
    var a := if At(t, i, '-') then i + 1 else i;
    var b := IntegerEnd(t, a).value;
    var c := FractionEnd(t, b);
    var d := ExponentEnd(t, c);
    assert NumberEnd(t, i) == Some(d);
    WholeScanned(t, a);
    FractionScanned(t, b);
    ExponentScanned(t, c);
    assert SignText(At(t, i, '-')) == t[i..a];
    SliceJoin(t, i, a, b);
    SliceJoin(t, i, b, c);
    SliceJoin(t, i, c, d);
  }

  lemma WholeScanned(t: string, a: nat)
    requires a <= |t| && IntegerEnd(t, a).Some?
    ensures var w := t[a..IntegerEnd(t, a).value];
            w == "0" || (|w| >= 1 && '1' <= w[0] <= '9' && AllDigits(w))
  {
    if t[a] != '0' {
      SpanEndRun(t, a + 1, IsDigit);
    }
  }

  lemma FractionScanned(t: string, b: nat)
    requires b <= |t|
    ensures var f := ScannedFraction(t, b);
            && (f.Some? ==> |f.value| >= 1 && AllDigits(f.value))
            && FractionText(f) == t[b..FractionEnd(t, b)]
  {
    var c := FractionEnd(t, b);
    if c > b {
      SpanEndRun(t, b + 2, IsDigit);
      assert t[b..c] == "." + t[b + 1..c];
    }
  }

  lemma ExponentScanned(t: string, c: nat)
    requires c <= |t|
    ensures var e := ScannedExponent(t, c);
            && (e.Some? ==> ValidExponent(e.value))
            && ExponentText(e) == t[c..ExponentEnd(t, c)]
  {
    var d := ExponentEnd(t, c);
    if d > c {
      var k := if t[c + 1] == '+' || t[c + 1] == '-' then c + 2 else c + 1;
      SpanEndRun(t, k + 1, IsDigit);
      assert t[c..d] == [t[c]] + t[c + 1..k] + t[k..d];
    }
  }
}
