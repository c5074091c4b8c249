/** The reader reads back what the writer writes: for every valid document
    and every run of JSON white space used around its tokens, parsing the
    printed text gives the document's meaning, and text left after it is
    rejected. The proof follows the reader's call structure: one lemma per
    reading function, each taking the positions where the pieces of the
    printed text start and end. */
module JsonRoundTrip {
  import opened Wrappers
  import opened Matcher
  import opened JsonReader
  import opened JsonWriter

  /** The first character of a text found at `i`. */
  lemma FirstChar(t: string, i: nat, s: string)
    requires IsAt(t, i, s) && |s| >= 1
    ensures At(t, i, s[0])
  {
    IsAtChar(t, i, s, 0);
  }

  /** A text found at `i` starts with the character there. */
  lemma IsAtFirst(t: string, i: nat, s: string)
    requires |s| >= 1
    ensures IsAt(t, i, s) ==> At(t, i, s[0])
  {
    if IsAt(t, i, s) {
      IsAtChar(t, i, s, 0);
    }
  }

  /** White space written before a point that ends a number ends it too. */
  lemma EndsAfterSpaces(t: string, p: nat, ws: string, m: nat)
    requires Spaces(ws) && IsAt(t, p, ws) && m == p + |ws| && EndsNumber(t, m)
    ensures EndsNumber(t, p)
  {
    if ws != "" {
      IsAtChar(t, p, ws, 0);
    }
  }

  // The reading functions, one step each, from the results of their parts.

  lemma ParseValueNumber(t: string, i: nat, j: nat)
    requires i < |t| && (t[i] == '-' || IsDigit(t[i])) && NumberEnd(t, i) == Some(j)
    ensures ParseValue(t, i) == Success((Number(t[i..j]), j))
  {
    IsAtFirst(t, i, "null");
    IsAtFirst(t, i, "false");
    IsAtFirst(t, i, "true");
    assert NonLiteral(t, i) == Success((Number(t[i..j]), j));
  }

  lemma ParseValueString(t: string, i: nat, us: Units, j: nat)
    requires At(t, i, '"') && ParseString(t, i) == Success((Some(us), j))
    ensures ParseValue(t, i) == Success((Str(us), j))
  {
    IsAtFirst(t, i, "null");
    IsAtFirst(t, i, "false");
    IsAtFirst(t, i, "true");
    assert NonLiteral(t, i) == NonNumber(t, i);
    assert NonNumber(t, i) == Success((Str(us), j));
  }

  lemma ParseValueArray(t: string, i: nat, v: Json, j: nat)
    requires At(t, i, '[') && ParseArray(t, i) == Success((Some(v), j))
    ensures ParseValue(t, i) == Success((v, j))
  {
    IsAtFirst(t, i, "null");
    IsAtFirst(t, i, "false");
    IsAtFirst(t, i, "true");
    assert NonLiteral(t, i) == NonNumber(t, i);
    assert NonNumber(t, i) == Compound(t, i);
    assert Compound(t, i) == Success((v, j));
  }

  lemma ParseValueObject(t: string, i: nat, v: Json, j: nat)
    requires At(t, i, '{') && ParseObject(t, i) == Success((Some(v), j))
    ensures ParseValue(t, i) == Success((v, j))
  {
    IsAtFirst(t, i, "null");
    IsAtFirst(t, i, "false");
    IsAtFirst(t, i, "true");
    assert NonLiteral(t, i) == NonNumber(t, i);
    assert NonNumber(t, i) == Compound(t, i);
    assert Compound(t, i) == Success((v, j));
  }

  lemma ParseArrayEmpty(t: string, i: nat, j: nat)
    requires At(t, i, '[') && SkipSpace(t, i + 1) == j && At(t, j, ']')
    ensures ParseArray(t, i) == Success((Some(Array([])), j + 1))
  {
  }

  lemma ParseArrayItems(t: string, i: nat, j: nat, items: seq<Json>, m: nat)
    requires At(t, i, '[') && SkipSpace(t, i + 1) == j && !At(t, j, ']')
    requires ArrayItems(t, j) == Success((items, m)) && At(t, m, ']')
    ensures ParseArray(t, i) == Success((Some(Array(items)), m + 1))
  {
  }

  lemma ArrayItemsLast(t: string, i: nat, v: Json, e: nat, m: nat, items: seq<Json>)
    requires i <= |t| && ParseValue(t, SkipSpace(t, i)) == Success((v, e))
    requires SkipSpace(t, e) == m && !At(t, m, ',') && items == [v]
    ensures ArrayItems(t, i) == Success((items, m))
  {
  }

  lemma ArrayItemsMore(t: string, i: nat, v: Json, e: nat, c: nat, rest: seq<Json>, m: nat, items: seq<Json>)
    requires i <= |t| && ParseValue(t, SkipSpace(t, i)) == Success((v, e))
    requires SkipSpace(t, e) == c && At(t, c, ',') && ArrayItems(t, c + 1) == Success((rest, m))
    requires items == [v] + rest
    ensures ArrayItems(t, i) == Success((items, m))
  {
  }

  lemma ParseObjectEmpty(t: string, i: nat, j: nat)
    requires At(t, i, '{') && SkipSpace(t, i + 1) == j && At(t, j, '}')
    ensures ParseObject(t, i) == Success((Some(Object(map[])), j + 1))
  {
  }

  lemma ParseObjectMembers(t: string, i: nat, j: nat, members: map<Units, Json>, m: nat)
    requires At(t, i, '{') && SkipSpace(t, i + 1) == j && !At(t, j, '}')
    requires ObjectMembers(t, j, map[]) == Success((members, m)) && At(t, m, '}')
    ensures ParseObject(t, i) == Success((Some(Object(members)), m + 1))
  {
  }

  lemma ObjectMemberFrom(t: string, i: nat, name: Units, k: nat, v: Json, e: nat)
    requires i <= |t| && ParseString(t, SkipSpace(t, i)) == Success((Some(name), k))
    requires MemberValue(t, name, k) == Success((name, v, e))
    ensures ObjectMember(t, i) == Success((name, v, e))
  {
  }

  lemma MemberValueFrom(t: string, name: Units, k: nat, c: nat, v: Json, e: nat)
    requires k <= |t| && SkipSpace(t, k) == c && At(t, c, ':') && ParseValue(t, SkipSpace(t, c + 1)) == Success((v, e))
    ensures MemberValue(t, name, k) == Success((name, v, e))
  {
  }

  lemma ObjectMembersLast(t: string, i: nat, acc: map<Units, Json>, name: Units, v: Json, e: nat, m: nat, result: map<Units, Json>)
    requires i <= |t| && ObjectMember(t, i) == Success((name, v, e))
    requires SkipSpace(t, e) == m && !At(t, m, ',') && result == acc[name := v]
    ensures ObjectMembers(t, i, acc) == Success((result, m))
  {
  }

  lemma ObjectMembersMore(t: string, i: nat, acc: map<Units, Json>, name: Units, v: Json, e: nat, c: nat,
                          acc': map<Units, Json>, result: map<Units, Json>, m: nat)
    requires i <= |t| && ObjectMember(t, i) == Success((name, v, e)) && acc' == acc[name := v]
    requires SkipSpace(t, e) == c && At(t, c, ',') && ObjectMembers(t, c + 1, acc') == Success((result, m))
    ensures ObjectMembers(t, i, acc) == Success((result, m))
  {
  }

  lemma ParseDocumentFrom(t: string, s: nat, v: Json, e: nat)
    requires SkipSpace(t, 0) == s && ParseValue(t, s) == Success((v, e))
    ensures ParseDocument(t) == if SkipSpace(t, e) == |t| then Success(v) else Failure(InvalidDocument)
  {
  }

  // Where the pieces of the printed text lie.

  /** `open + ws + body + close`, each delimiter one character. */
  lemma EnclosedLayout(t: string, i: nat, open: string, ws: string, body: string, close: string, e: nat)
    requires |open| == 1 && |close| == 1
    requires IsAt(t, i, open + ws + body + close) && e == i + |open + ws + body + close|
    ensures At(t, i, open[0]) && IsAt(t, i + 1, ws) && IsAt(t, i + 1 + |ws|, body)
    ensures e == i + 1 + |ws| + |body| + 1 && At(t, e - 1, close[0])
  {
    IsAtAppend(t, i, open + ws + body, close);
    IsAtAppend(t, i, open + ws, body);
    IsAtAppend(t, i, open, ws);
    IsAtChar(t, i, open, 0);
    IsAtChar(t, e - 1, close, 0);
  }

  /** `v + (ws + sep + ws + rest)`: an item followed by a separator and more. */
  lemma SeparatedLayout(t: string, s: nat, v: string, ws: string, sep: string, rest: string, p: nat)
    requires |sep| == 1
    requires IsAt(t, s, v + (ws + sep + ws + rest)) && p == s + |v + (ws + sep + ws + rest)|
    ensures IsAt(t, s, v) && IsAt(t, s + |v|, ws) && At(t, s + |v| + |ws|, sep[0])
    ensures IsAt(t, s + |v| + |ws| + 1, ws) && IsAt(t, s + |v| + |ws| + 1 + |ws|, rest)
    ensures p == s + |v| + |ws| + 1 + |ws| + |rest|
  {
    var c := s + |v| + |ws|;
    IsAtAppend(t, s, v, ws + sep + ws + rest);
    IsAtAppend(t, s + |v|, ws + sep + ws, rest);
    IsAtAppend(t, s + |v|, ws + sep, ws);
    IsAtAppend(t, s + |v|, ws, sep);
    IsAtChar(t, c, sep, 0);
  }

  /** `a + ws + sep + ws + b`: a member's name, colon and value. */
  lemma PairLayout(t: string, s: nat, a: string, ws: string, sep: string, b: string, e: nat)
    requires |sep| == 1
    requires IsAt(t, s, a + ws + sep + ws + b) && e == s + |a + ws + sep + ws + b|
    ensures IsAt(t, s, a) && IsAt(t, s + |a|, ws) && At(t, s + |a| + |ws|, sep[0])
    ensures IsAt(t, s + |a| + |ws| + 1, ws) && IsAt(t, s + |a| + |ws| + 1 + |ws|, b)
    ensures e == s + |a| + |ws| + 1 + |ws| + |b|
  {
    IsAtAppend(t, s, a + ws + sep + ws, b);
    IsAtAppend(t, s, a + ws + sep, ws);
    IsAtAppend(t, s, a + ws, sep);
    IsAtAppend(t, s, a, ws);
    IsAtChar(t, s + |a| + |ws|, sep, 0);
  }

  /** `body + ws`. */
  lemma TrailingLayout(t: string, j: nat, body: string, ws: string, m: nat)
    requires IsAt(t, j, body + ws) && m == j + |body + ws|
    ensures IsAt(t, j, body) && IsAt(t, j + |body|, ws) && m == j + |body| + |ws|
  {
    IsAtAppend(t, j, body, ws);
  }

  /** A non-empty bracketed body: where its parts lie, and how the white
      space after the opening bracket is skipped. */
  lemma BracketedLayout(t: string, i: nat, open: string, ws: string, body: string, close: string, e: nat)
    returns (j: nat, p: nat)
    requires |open| == 1 && |close| == 1 && Spaces(ws)
    requires |body| >= 1 && StartsValue(body[0]) && !StartsValue(close[0])
    requires IsAt(t, i, open + ws + (body + ws) + close) && e == i + |open + ws + (body + ws) + close|
    ensures At(t, i, open[0]) && j <= |t| && SkipSpace(t, i + 1) == j && !At(t, j, close[0])
    ensures IsAt(t, j, body) && p == j + |body| && IsAt(t, p, ws) && e - 1 == p + |ws| && At(t, e - 1, close[0])
  {
    j := i + 1 + |ws|;
    p := j + |body|;
    EnclosedLayout(t, i, open, ws, body + ws, close, e);
    TrailingLayout(t, j, body, ws, e - 1);
    FirstChar(t, j, body);
    SpacesRead(t, i + 1, ws);
  }

  lemma PrintItemsStart(d: Doc, ws: string, k: nat)
    requires d.DArray? && ValidDoc(d) && k < |d.items|
    ensures |PrintItems(d, ws, k)| >= 1 && StartsValue(PrintItems(d, ws, k)[0])
  {
    PrintStart(d.items[k], ws);
  }

  lemma PrintMembersStart(d: Doc, ws: string, k: nat)
    requires d.DObject? && k < |d.members|
    ensures |PrintMembers(d, ws, k)| >= 1 && PrintMembers(d, ws, k)[0] == '"'
  {
  }

  lemma MeaningItemsStep(d: Doc, k: nat)
    requires d.DArray? && k < |d.items|
    ensures MeaningItems(d, k) == [Meaning(d.items[k])] + MeaningItems(d, k + 1)
  {
  }

  lemma MeaningMembersStep(d: Doc, k: nat, acc: map<Units, Json>)
    requires d.DObject? && k < |d.members|
    ensures MeaningMembers(d, k, acc) == MeaningMembers(d, k + 1, acc[d.members[k].0 := Meaning(d.members[k].1)])
  {
  }

  // What the text holds where the proof looks at it.

  /** `t` holds the printing of `d` from `i` to `e`. */
  predicate PrintedAt(d: Doc, ws: string, t: string, i: nat, e: nat) {
    ValidDoc(d) && Spaces(ws) && IsAt(t, i, Print(d, ws)) && e == i + |Print(d, ws)|
  }

  /** `t` holds the items of array `d` from the `k`th, printed from `s` to
      `p`, then white space and the closing bracket at `m`. */
  predicate ItemsAt(d: Doc, ws: string, t: string, s: nat, k: nat, p: nat, m: nat) {
    && d.DArray? && ValidDoc(d) && Spaces(ws) && k < |d.items|
    && IsAt(t, s, PrintItems(d, ws, k)) && p == s + |PrintItems(d, ws, k)|
    && IsAt(t, p, ws) && m == p + |ws| && At(t, m, ']')
  }

  /** `t` holds the members of object `d` from the `k`th, printed from `s`
      to `p`, then white space and the closing brace at `m`. */
  predicate MembersAt(d: Doc, ws: string, t: string, s: nat, k: nat, p: nat, m: nat) {
    && d.DObject? && ValidDoc(d) && Spaces(ws) && k < |d.members|
    && IsAt(t, s, PrintMembers(d, ws, k)) && p == s + |PrintMembers(d, ws, k)|
    && IsAt(t, p, ws) && m == p + |ws| && At(t, m, '}')
  }

  /** `t` holds one printed member from `s` to `e`. */
  predicate MemberAt(key: Units, value: Doc, ws: string, t: string, s: nat, e: nat) {
    && ValidDoc(value) && Spaces(ws)
    && IsAt(t, s, PrintMember(key, Print(value, ws), ws)) && e == s + |PrintMember(key, Print(value, ws), ws)|
  }

  // Where the parts of each printed construct lie, and how white space
  // between them is skipped.

  lemma ArrayEmptyRead(d: Doc, ws: string, t: string, i: nat, e: nat)
    requires d.DArray? && d.items == [] && PrintedAt(d, ws, t, i, e)
    ensures At(t, i, '[') && ParseArray(t, i) == Success((Some(Meaning(d)), e))
  {
    EnclosedLayout(t, i, "[", ws, "", "]", e);
    SpacesRead(t, i + 1, ws);
    ParseArrayEmpty(t, i, i + 1 + |ws|);
  }

  lemma ArrayLayout(d: Doc, ws: string, t: string, i: nat, e: nat) returns (j: nat, p: nat)
    requires d.DArray? && d.items != [] && PrintedAt(d, ws, t, i, e)
    ensures At(t, i, '[') && j <= |t| && SkipSpace(t, i + 1) == j && !At(t, j, ']')
    ensures ItemsAt(d, ws, t, j, 0, p, e - 1)
  {
    assert Print(d, ws) == "[" + ws + (PrintItems(d, ws, 0) + ws) + "]";
    PrintItemsStart(d, ws, 0);
    j, p := BracketedLayout(t, i, "[", ws, PrintItems(d, ws, 0), "]", e);
  }

  lemma ItemsLastLayout(d: Doc, ws: string, t: string, s: nat, k: nat, p: nat, m: nat)
    requires ItemsAt(d, ws, t, s, k, p, m) && k + 1 == |d.items|
    ensures PrintedAt(d.items[k], ws, t, s, p) && EndsNumber(t, p)
    ensures SkipSpace(t, p) == m && !At(t, m, ',')
  {
    assert PrintItems(d, ws, k) == Print(d.items[k], ws);
    EndsAfterSpaces(t, p, ws, m);
    SpacesRead(t, p, ws);
  }

  /** An element, a comma with white space around it, and the rest: where
      each starts and how the reader steps from one to the next. */
  lemma SeparatedRead(t: string, s: nat, v: string, ws: string, rest: string, p: nat) returns (e: nat, c: nat, s': nat)
    requires Spaces(ws) && |rest| >= 1 && StartsValue(rest[0])
    requires IsAt(t, s, v + (ws + "," + ws + rest)) && p == s + |v + (ws + "," + ws + rest)|
    ensures IsAt(t, s, v) && e == s + |v| && EndsNumber(t, e)
    ensures SkipSpace(t, e) == c && At(t, c, ',') && c + 1 <= s' <= |t| && SkipSpace(t, c + 1) == s'
    ensures IsAt(t, s', rest) && p == s' + |rest|
  {
    e := s + |v|;
    c := e + |ws|;
    s' := c + 1 + |ws|;
    SeparatedLayout(t, s, v, ws, ",", rest, p);
    FirstChar(t, s', rest);
    CommaGapRead(t, e, ws, c, s');
  }

  /** White space, a comma and white space again, before a value. */
  lemma CommaGapRead(t: string, e: nat, ws: string, c: nat, s': nat)
    requires Spaces(ws) && IsAt(t, e, ws) && c == e + |ws| && At(t, c, ',')
    requires IsAt(t, c + 1, ws) && s' == c + 1 + |ws| && s' < |t| && StartsValue(t[s'])
    ensures EndsNumber(t, e) && SkipSpace(t, e) == c && SkipSpace(t, c + 1) == s'
  {
    EndsAfterSpaces(t, e, ws, c);
    SpacesRead(t, e, ws);
    SpacesRead(t, c + 1, ws);
  }

  lemma ItemsMoreLayout(d: Doc, ws: string, t: string, s: nat, k: nat, p: nat, m: nat) returns (e: nat, c: nat, s': nat)
    requires ItemsAt(d, ws, t, s, k, p, m) && k + 1 < |d.items|
    ensures PrintedAt(d.items[k], ws, t, s, e) && EndsNumber(t, e)
    ensures SkipSpace(t, e) == c && At(t, c, ',') && c + 1 <= s' <= |t| && SkipSpace(t, c + 1) == s'
    ensures ItemsAt(d, ws, t, s', k + 1, p, m)
  {
    var v, rest := Print(d.items[k], ws), PrintItems(d, ws, k + 1);
    assert PrintItems(d, ws, k) == v + (ws + "," + ws + rest);
    PrintItemsStart(d, ws, k + 1);
    e, c, s' := SeparatedRead(t, s, v, ws, rest, p);
  }

  lemma ObjectEmptyRead(d: Doc, ws: string, t: string, i: nat, e: nat)
    requires d.DObject? && d.members == [] && PrintedAt(d, ws, t, i, e)
    ensures At(t, i, '{') && ParseObject(t, i) == Success((Some(Meaning(d)), e))
  {
    EnclosedLayout(t, i, "{", ws, "", "}", e);
    SpacesRead(t, i + 1, ws);
    ParseObjectEmpty(t, i, i + 1 + |ws|);
  }

  lemma ObjectLayout(d: Doc, ws: string, t: string, i: nat, e: nat) returns (j: nat, p: nat)
    requires d.DObject? && d.members != [] && PrintedAt(d, ws, t, i, e)
    ensures At(t, i, '{') && j <= |t| && SkipSpace(t, i + 1) == j && !At(t, j, '}')
    ensures MembersAt(d, ws, t, j, 0, p, e - 1)
  {
    assert Print(d, ws) == "{" + ws + (PrintMembers(d, ws, 0) + ws) + "}";
    PrintMembersStart(d, ws, 0);
    j, p := BracketedLayout(t, i, "{", ws, PrintMembers(d, ws, 0), "}", e);
  }

  lemma MembersLastLayout(d: Doc, ws: string, t: string, s: nat, k: nat, p: nat, m: nat)
    requires MembersAt(d, ws, t, s, k, p, m) && k + 1 == |d.members|
    ensures MemberAt(d.members[k].0, d.members[k].1, ws, t, s, p) && EndsNumber(t, p)
    ensures SkipSpace(t, p) == m && !At(t, m, ',')
  {
    assert PrintMembers(d, ws, k) == PrintMember(d.members[k].0, Print(d.members[k].1, ws), ws);
    EndsAfterSpaces(t, p, ws, m);
    SpacesRead(t, p, ws);
  }

  lemma MembersMoreLayout(d: Doc, ws: string, t: string, s: nat, k: nat, p: nat, m: nat) returns (e: nat, c: nat, s': nat)
    requires MembersAt(d, ws, t, s, k, p, m) && k + 1 < |d.members|
    ensures MemberAt(d.members[k].0, d.members[k].1, ws, t, s, e) && EndsNumber(t, e)
    ensures SkipSpace(t, e) == c && At(t, c, ',') && c + 1 <= s' <= |t| && SkipSpace(t, c + 1) == s'
    ensures MembersAt(d, ws, t, s', k + 1, p, m)
  {
    var member := PrintMember(d.members[k].0, Print(d.members[k].1, ws), ws);
    var rest := PrintMembers(d, ws, k + 1);
    assert PrintMembers(d, ws, k) == member + (ws + "," + ws + rest);
    PrintMembersStart(d, ws, k + 1);
    e, c, s' := SeparatedRead(t, s, member, ws, rest, p);
  }

  /** A name, white space, a colon, white space and a value: where each
      starts and how the reader steps from one to the next. */
  lemma PairRead(t: string, s: nat, a: string, ws: string, b: string, e: nat) returns (k: nat, c: nat, vs: nat)
    requires Spaces(ws) && |b| >= 1 && StartsValue(b[0])
    requires IsAt(t, s, a + ws + ":" + ws + b) && e == s + |a + ws + ":" + ws + b|
    ensures IsAt(t, s, a) && k == s + |a| && SkipSpace(t, k) == c && At(t, c, ':')
    ensures vs <= |t| && SkipSpace(t, c + 1) == vs && IsAt(t, vs, b) && e == vs + |b|
  {
    k := s + |a|;
    c := k + |ws|;
    vs := c + 1 + |ws|;
    PairLayout(t, s, a, ws, ":", b, e);
    SpacesRead(t, k, ws);
    FirstChar(t, vs, b);
    SpacesRead(t, c + 1, ws);
  }

  lemma MemberLayout(key: Units, v: string, ws: string, t: string, s: nat, e: nat) returns (k: nat, c: nat, vs: nat)
    requires Spaces(ws) && |v| >= 1 && StartsValue(v[0])
    requires IsAt(t, s, PrintMember(key, v, ws)) && e == s + |PrintMember(key, v, ws)|
    ensures IsAt(t, s, Quote(key)) && k == s + |Quote(key)| && SkipSpace(t, k) == c && At(t, c, ':')
    ensures vs <= |t| && SkipSpace(t, c + 1) == vs && IsAt(t, vs, v) && e == vs + |v|
  {
    k, c, vs := PairRead(t, s, Quote(key), ws, v, e);
  }

  // The round trip, by induction on the document.

  /** `parseJSONValue` reads a printed document back as its meaning. */
  lemma ValueRead(d: Doc, ws: string, t: string, i: nat, e: nat)
    requires PrintedAt(d, ws, t, i, e) && EndsNumber(t, e)
    ensures ParseValue(t, i) == Success((Meaning(d), e))
    decreases d, 2, 0
  {
    match d
    case DNull =>
    case DBool(b) =>
      if b {
        FirstChar(t, i, "true");
        IsAtFirst(t, i, "null");
        IsAtFirst(t, i, "false");
      } else {
        FirstChar(t, i, "false");
        IsAtFirst(t, i, "null");
      }
    case DNumber(n) =>
      NumberTextRead(n, t, i, e);
      PrintStart(d, ws);
      FirstChar(t, i, Print(d, ws));
      ParseValueNumber(t, i, e);
    case DString(us) =>
      QuoteRead(us, t, i, e);
      FirstChar(t, i, Quote(us));
      ParseValueString(t, i, us, e);
    case DArray(_) =>
      ArrayRead(d, ws, t, i, e);
      ParseValueArray(t, i, Meaning(d), e);
    case DObject(_) =>
      ObjectRead(d, ws, t, i, e);
      ParseValueObject(t, i, Meaning(d), e);
  }

  /** `parseJSONArray` reads a printed array back. */
  lemma ArrayRead(d: Doc, ws: string, t: string, i: nat, e: nat)
    requires d.DArray? && PrintedAt(d, ws, t, i, e)
    ensures At(t, i, '[') && ParseArray(t, i) == Success((Some(Meaning(d)), e))
    decreases d, 1, 0
  {
    if d.items == [] {
      ArrayEmptyRead(d, ws, t, i, e);
    } else {
      var j, p := ArrayLayout(d, ws, t, i, e);
      ArrayFilledRead(d, ws, t, i, j, p, e - 1);
    }
  }

  lemma ArrayFilledRead(d: Doc, ws: string, t: string, i: nat, j: nat, p: nat, m: nat)
    requires At(t, i, '[') && j <= |t| && SkipSpace(t, i + 1) == j && !At(t, j, ']')
    requires ItemsAt(d, ws, t, j, 0, p, m)
    ensures ParseArray(t, i) == Success((Some(Array(MeaningItems(d, 0))), m + 1))
    decreases d, 0, |d.items| + 1
  {
    ItemsRead(d, ws, t, j, j, 0, p, m);
    ParseArrayItems(t, i, j, MeaningItems(d, 0), m);
  }

  /** The item loop reads the printed items from the `k`th back, up to the
      `]` at `m`. */
  lemma ItemsRead(d: Doc, ws: string, t: string, i: nat, s: nat, k: nat, p: nat, m: nat)
    requires i <= s <= |t| && SkipSpace(t, i) == s && ItemsAt(d, ws, t, s, k, p, m)
    ensures ArrayItems(t, i) == Success((MeaningItems(d, k), m))
    decreases d, 0, |d.items| - k
  {
    var item := d.items[k];
    MeaningItemsStep(d, k);
    if k + 1 == |d.items| {
      ItemsLastLayout(d, ws, t, s, k, p, m);
      ValueRead(item, ws, t, s, p);
      ArrayItemsLast(t, i, Meaning(item), p, m, MeaningItems(d, k));
    } else {
      var e, c, s' := ItemsMoreLayout(d, ws, t, s, k, p, m);
      ValueRead(item, ws, t, s, e);
      ItemsRead(d, ws, t, c + 1, s', k + 1, p, m);
      ArrayItemsMore(t, i, Meaning(item), e, c, MeaningItems(d, k + 1), m, MeaningItems(d, k));
    }
  }

  /** `parseJSONObject` reads a printed object back. */
  lemma ObjectRead(d: Doc, ws: string, t: string, i: nat, e: nat)
    requires d.DObject? && PrintedAt(d, ws, t, i, e)
    ensures At(t, i, '{') && ParseObject(t, i) == Success((Some(Meaning(d)), e))
    decreases d, 1, 0
  {
    if d.members == [] {
      ObjectEmptyRead(d, ws, t, i, e);
    } else {
      var j, p := ObjectLayout(d, ws, t, i, e);
      ObjectFilledRead(d, ws, t, i, j, p, e - 1);
    }
  }

  lemma ObjectFilledRead(d: Doc, ws: string, t: string, i: nat, j: nat, p: nat, m: nat)
    requires At(t, i, '{') && j <= |t| && SkipSpace(t, i + 1) == j && !At(t, j, '}')
    requires MembersAt(d, ws, t, j, 0, p, m)
    ensures ParseObject(t, i) == Success((Some(Object(MeaningMembers(d, 0, map[]))), m + 1))
    decreases d, 0, |d.members| + 1
  {
    MembersRead(d, ws, t, j, j, 0, map[], p, m);
    ParseObjectMembers(t, i, j, MeaningMembers(d, 0, map[]), m);
  }

  /** The member loop reads the printed members from the `k`th back into
      `acc`, up to the `}` at `m`. */
  lemma MembersRead(d: Doc, ws: string, t: string, i: nat, s: nat, k: nat, acc: map<Units, Json>, p: nat, m: nat)
    requires i <= s <= |t| && SkipSpace(t, i) == s && MembersAt(d, ws, t, s, k, p, m)
    ensures ObjectMembers(t, i, acc) == Success((MeaningMembers(d, k, acc), m))
    decreases d, 0, |d.members| - k
  {
    var key, value := d.members[k].0, d.members[k].1;
    var acc' := acc[key := Meaning(value)];
    MeaningMembersStep(d, k, acc);
    if k + 1 == |d.members| {
      MembersLastLayout(d, ws, t, s, k, p, m);
      MemberRead(key, value, ws, t, i, s, p);
      ObjectMembersLast(t, i, acc, key, Meaning(value), p, m, MeaningMembers(d, k, acc));
    } else {
      var e, c, s' := MembersMoreLayout(d, ws, t, s, k, p, m);
      MemberRead(key, value, ws, t, i, s, e);
      MembersRead(d, ws, t, c + 1, s', k + 1, acc', p, m);
      ObjectMembersMore(t, i, acc, key, Meaning(value), e, c, acc', MeaningMembers(d, k, acc), m);
    }
  }

  /** One printed member is read back as its name and its value's meaning. */
  lemma MemberRead(key: Units, value: Doc, ws: string, t: string, i: nat, s: nat, e: nat)
    requires i <= s <= |t| && SkipSpace(t, i) == s && MemberAt(key, value, ws, t, s, e) && EndsNumber(t, e)
    ensures ObjectMember(t, i) == Success((key, Meaning(value), e))
    decreases value, 3, 0
  {
    var v := Print(value, ws);
    PrintStart(value, ws);
    var k, c, vs := MemberLayout(key, v, ws, t, s, e);
    QuoteRead(key, t, s, k);
    ValueRead(value, ws, t, vs, e);
    MemberValueFrom(t, key, k, c, Meaning(value), e);
    ObjectMemberFrom(t, i, key, k, Meaning(value), e);
  }
}
