/** The string-parsing context: an immutable text and a forward-moving index,
    with literal matching, anchored ("sticky") regular-expression matching and
    an end test. A context object is modelled as a `Cursor` value; every
    operation returns the cursor it leaves behind. The regular-expression
    engine itself is not modelled: a `RegExp` carries an `exec` oracle that
    says where an anchored match at a given index ends and what its capture
    groups hold. */
module Matcher {
  import opened Wrappers

  datatype Cursor = Cursor(text: string, index: nat) {
    /** The index invariant every operation keeps. */
    predicate Valid() {
      index <= |text|
    }
  }

  datatype ContextError =
    | IndexOutOfRange   // constructor: RangeError
    | NotSticky         // match/matchMany: the RegExp lacks the /y flag

  /** `new Context(text, index)`. */
  function NewCursor(text: string, index: int): (r: Result<Cursor, ContextError>)
    ensures r.Success? <==> 0 <= index <= |text|
    ensures r.Success? ==> r.value.Valid() && r.value.text == text && r.value.index == index
    ensures r.Failure? ==> r.error == IndexOutOfRange
  {
    if 0 <= index <= |text| then Success(Cursor(text, index)) else Failure(IndexOutOfRange)
  }

  /** `atEnd()`: nothing of the text is left to read. */
  function AtEnd(c: Cursor): (b: bool)
    requires c.Valid()
    ensures b <==> c.text[c.index..] == []
  {
    c.index >= |c.text|
  }

  /** `matchString(s)`: on success returns `s` and moves past it; on failure
      returns `None` and leaves the cursor where it was. */
  function MatchString(c: Cursor, s: string): (r: (Option<string>, Cursor))
    requires c.Valid()
    ensures r.1.Valid() && r.1.text == c.text
    ensures r.0.Some? <==> s <= c.text[c.index..]
    ensures r.0.Some? ==> r.0.value == s && r.1.index == c.index + |s|
    ensures r.0.None? ==> r.1 == c
  {
    if c.index + |s| <= |c.text| && c.text[c.index..c.index + |s|] == s then
      (Some(s), Cursor(c.text, c.index + |s|))
    else
      (None, c)
  }

  /** `s` occurs in `t` at `i`. */
  predicate IsAt(t: string, i: nat, s: string) {
    i + |s| <= |t| && t[i..i + |s|] == s
  }

  lemma IsAtAppend(t: string, i: nat, a: string, b: string)
    ensures IsAt(t, i, a + b) <==> IsAt(t, i, a) && IsAt(t, i + |a|, b)
  {
    if IsAt(t, i, a) && IsAt(t, i + |a|, b) {
      assert t[i..i + |a + b|] == t[i..i + |a|] + t[i + |a|..i + |a| + |b|];
    }
    if IsAt(t, i, a + b) {
      assert t[i..i + |a|] == t[i..i + |a + b|][..|a|];
      assert t[i + |a|..i + |a| + |b|] == t[i..i + |a + b|][|a|..];
    }
  }

  /** The empty string matches anywhere, without moving the cursor. */
  lemma EmptyStringMatches(c: Cursor)
    requires c.Valid()
    ensures MatchString(c, "") == (Some(""), c)
  {
  }

  /** A capture-group key of the returned `Map`: a group number or a group name. */
  datatype GroupKey = Numbered(number: nat) | Named(name: string)

  /** What `RegExp.prototype.exec` returns for a match: where the match
      ends, the numbered captures (index 0 is the whole match, `None` an
      unmatched group) and the named captures. */
  datatype ExecResult = ExecResult(end: nat, captures: seq<Option<string>>, groups: map<string, Option<string>>)

  /** A regular expression: its sticky flag and an oracle for anchored
      matching (`lastIndex = index; exec(text)`). */
  datatype RegExp = RegExp(sticky: bool, exec: (string, nat) -> Option<ExecResult>)

  /** What any anchored match at `i` in `t` satisfies. */
  predicate ExecFits(t: string, i: nat, e: ExecResult) {
    && i <= e.end <= |t|
    && |e.captures| >= 1
    && e.captures[0] == Some(t[i..e.end])
  }

  predicate OracleFitsAt(re: RegExp, t: string, i: nat) {
    var e := re.exec(t, i);
    e.Some? ==> ExecFits(t, i, e.value)
  }

  /** The numbered part of the group map: key `k` for each participating
      capture `k >= from`. */
  function NumberedGroups(captures: seq<Option<string>>, from: nat): (m: map<GroupKey, string>)
    requires from <= |captures|
    ensures forall k :: k in m <==> k.Numbered? && from <= k.number < |captures| && captures[k.number].Some?
    ensures forall k | k in m :: m[k] == captures[k.number].value
    decreases |captures| - from
  {
    if from == |captures| then map[]
    else
      var rest := NumberedGroups(captures, from + 1);
      if captures[from].Some? then rest[Numbered(from) := captures[from].value] else rest
  }

  function NamedGroups(groups: map<string, Option<string>>): (m: map<GroupKey, string>)
    ensures forall k :: k in m <==> k.Named? && k.name in groups && groups[k.name].Some?
    ensures forall k | k in m :: m[k] == groups[k.name].value
  {
    map name | name in groups && groups[name].Some? :: Named(name) := groups[name].value
  }

  /** The `Map` built from an exec result: only participating groups. */
  function GroupMap(e: ExecResult): map<GroupKey, string> {
    NumberedGroups(e.captures, 0) + NamedGroups(e.groups)
  }

  /** The map holds a numbered or named key exactly for the groups that
      took part in the match. */
  ghost predicate ParticipatingOnly(m: map<GroupKey, string>, e: ExecResult) {
    && (forall n: nat :: Numbered(n) in m <==> n < |e.captures| && e.captures[n].Some?)
    && (forall name :: Named(name) in m <==> name in e.groups && e.groups[name].Some?)
  }

  /** `match(re)`: a non-sticky expression is an error; otherwise on failure
      `None` with the cursor unchanged, on success the group map with the
      cursor at the end of the match. */
  function Match(c: Cursor, re: RegExp): (r: Result<(Option<map<GroupKey, string>>, Cursor), ContextError>)
    requires c.Valid() && OracleFitsAt(re, c.text, c.index)
    ensures r.Failure? <==> !re.sticky
    ensures r.Failure? ==> r.error == NotSticky
    ensures r.Success? ==> r.value.1.Valid() && r.value.1.text == c.text
    ensures r.Success? ==> (r.value.0.None? <==> re.exec(c.text, c.index).None?)
    ensures r.Success? && r.value.0.None? ==> r.value.1 == c
    ensures r.Success? && r.value.0.Some? ==>
      var e := re.exec(c.text, c.index).value;
      var m := r.value.0.value;
      && r.value.1.index == e.end
      && Numbered(0) in m && m[Numbered(0)] == c.text[c.index..e.end]
      && ParticipatingOnly(m, e)
  {
    if !re.sticky then Failure(NotSticky)
    else match re.exec(c.text, c.index)
      case None => Success((None, c))
      case Some(e) => Success((Some(GroupMap(e)), Cursor(c.text, e.end)))
  }

  /** Every anchored match at `i` that succeeds moves forward. */
  predicate AdvancesAt(re: RegExp, t: string, i: nat) {
    var e := re.exec(t, i);
    e.Some? ==> ExecFits(t, i, e.value) && e.value.end > i
  }

  predicate AdvancesFrom(re: RegExp, t: string, i: nat) {
    forall j: nat | i <= j <= |t| :: AdvancesAt(re, t, j)
  }

  /** Where repeated anchored matching from `i` stops: the reference for
      `matchMany`. */
  function ManyEnd(re: RegExp, t: string, i: nat): (j: nat)
    requires i <= |t| && AdvancesFrom(re, t, i)
    ensures i <= j <= |t|
    ensures re.exec(t, j).None?
    decreases |t| - i
  {
    match re.exec(t, i)
    case None => i
    case Some(e) => assert AdvancesAt(re, t, i); ManyEnd(re, t, e.end)
  }

  /** `matchMany(re)`: matches as often as possible; `None` when not even
      one match succeeded, else the concatenation of the whole matches,
      which is the text the cursor moved over. */
  method MatchMany(c: Cursor, re: RegExp) returns (r: Result<(Option<string>, Cursor), ContextError>)
    requires c.Valid() && AdvancesFrom(re, c.text, c.index)
    ensures r.Failure? <==> !re.sticky
    ensures r.Success? ==> r.value.1 == Cursor(c.text, ManyEnd(re, c.text, c.index))
    ensures r.Success? ==> (r.value.0.None? <==> re.exec(c.text, c.index).None?)
    ensures r.Success? && r.value.0.Some? ==> r.value.0.value == c.text[c.index..r.value.1.index]
  {
    if !re.sticky {
      return Failure(NotSticky);
    }
    var matched := "";
    var count := 0;
    var cur := c;
    while true
      invariant cur.text == c.text && c.index <= cur.index <= |c.text|
      invariant ManyEnd(re, c.text, cur.index) == ManyEnd(re, c.text, c.index)
      invariant matched == c.text[c.index..cur.index]
      invariant count == 0 <==> cur.index == c.index
      invariant count > 0 ==> re.exec(c.text, c.index).Some?
      decreases |c.text| - cur.index
    {
      assert AdvancesAt(re, c.text, cur.index);
      var m := Match(cur, re);
      if m.value.0.None? {
        break;
      }
      var e := re.exec(c.text, cur.index).value;
      var whole := m.value.0.value[Numbered(0)];
      assert whole == c.text[cur.index..e.end];
      assert ManyEnd(re, c.text, cur.index) == ManyEnd(re, c.text, e.end);
      SliceJoin(c.text, c.index, cur.index, e.end);
      matched := matched + whole;
      count := count + 1;
      cur := Cursor(c.text, e.end);
    }
    assert ManyEnd(re, c.text, cur.index) == cur.index;
    if count > 0 {
      return Success((Some(matched), cur));
    }
    return Success((None, cur));
  }

  /** Two adjacent slices join into one. */
  lemma SliceJoin(s: string, a: nat, b: nat, c: nat)
    requires a <= b <= c <= |s|
    ensures s[a..b] + s[b..c] == s[a..c]
  {
  }

  /** A hand-written anchored scanner seen as a sticky regular expression
      with no capture groups: how the parsers' token scanners stand for the
      source's `/…/y` literals. */
  function Sticky(scan: (string, nat) -> Option<nat>): RegExp {
    RegExp(true, (t: string, i: nat) =>
      match scan(t, i)
      case Some(e) => if i <= e <= |t| then Some(ExecResult(e, [Some(t[i..e])], map[])) else None
      case None => None)
  }

  /** The end of the longest run of characters satisfying `p` from `i`:
      what a sticky character-class star matches. */
  function SpanEnd(t: string, i: nat, p: char -> bool): (j: nat)
    requires i <= |t|
    ensures i <= j <= |t|
    ensures j < |t| ==> !p(t[j])
    decreases |t| - i
  {
    if i < |t| && p(t[i]) then SpanEnd(t, i + 1, p) else i
  }

  /** Every character `SpanEnd` passes over satisfies `p`. */
  lemma {:induction false} SpanEndRun(t: string, i: nat, p: char -> bool)
    requires i <= |t|
    ensures forall k | i <= k < SpanEnd(t, i, p) :: p(t[k])
    decreases |t| - i
  {
    if i < |t| && p(t[i]) {
      SpanEndRun(t, i + 1, p);
    }
  }

  /** A run of `n` characters satisfying `p`, ended by one that does not (or
      by the end of the text), is what `SpanEnd` reads. */
  lemma {:induction false} SpanEndOver(t: string, i: nat, n: nat, p: char -> bool)
    requires i + n <= |t|
    requires forall k | i <= k < i + n :: p(t[k])
    requires i + n == |t| || !p(t[i + n])
    ensures SpanEnd(t, i, p) == i + n
    decreases n
  {
    if n > 0 {
      SpanEndOver(t, i + 1, n - 1, p);
    }
  }
}
