/**
 The patterns of PII detection, as regular expressions over runs of a character class.

 Word boundaries are left out: they only narrow what a pattern matches, so what is proved of every match here holds
 of every match found.
 */
module Detection {
  import opened Common

  /** A run of `least` to `most` characters of a class, one expression after another, or either of two. */
  datatype Regex =
    | Run(allowed: char -> bool, least: nat, most: Option<nat>)
    | Then(first: Regex, second: Regex)
    | Or(left: Regex, right: Regex)

  ghost predicate Matches(r: Regex, m: string) {
    match r
    case Run(allowed, least, most) =>
      least <= |m| && (most.Some? ==> |m| <= most.value) && forall i :: 0 <= i < |m| ==> allowed(m[i])
    case Then(first, second) => exists k :: 0 <= k <= |m| && Matches(first, m[..k]) && Matches(second, m[k..])
    case Or(left, right) => Matches(left, m) || Matches(right, m)
  }

  /** All the parts, one after another. */
  function Chain(parts: seq<Regex>): Regex {
    if parts == [] then NOTHING else Then(parts[0], Chain(parts[1..]))
  }

  const NOTHING := Run(_ => false, 0, Some(0))

  function Concat(texts: seq<string>): string {
    if texts == [] then "" else texts[0] + Concat(texts[1..])
  }

  ghost predicate PartsMatch(parts: seq<Regex>, texts: seq<string>) {
    |parts| == |texts| && forall i :: 0 <= i < |parts| ==> Matches(parts[i], texts[i])
  }

  /** A chain matches exactly the texts put together from matches of its parts. */
  lemma {:induction false} ChainMatches(parts: seq<Regex>, texts: seq<string>)
    requires PartsMatch(parts, texts)
    ensures Matches(Chain(parts), Concat(texts))
  {
    if parts != [] {
      ChainMatches(parts[1..], texts[1..]);
      var m, k := Concat(texts), |texts[0]|;
      assert m[..k] == texts[0] && m[k..] == Concat(texts[1..]);
    }
  }

  lemma {:induction false} ChainParts(parts: seq<Regex>, m: string) returns (texts: seq<string>)
    requires Matches(Chain(parts), m)
    ensures PartsMatch(parts, texts) && Concat(texts) == m
  {
    if parts == [] {
      texts := [];
    } else {
      var k :| 0 <= k <= |m| && Matches(parts[0], m[..k]) && Matches(Chain(parts[1..]), m[k..]);
      var rest := ChainParts(parts[1..], m[k..]);
      texts := [m[..k]] + rest;
    }
  }

  // ---- What holds of every match ----

  /** No match has a character with the property. */
  ghost predicate Excludes(r: Regex, p: char -> bool) {
    match r
    case Run(allowed, _, _) => forall c :: allowed(c) ==> !p(c)
    case Then(first, second) => Excludes(first, p) && Excludes(second, p)
    case Or(left, right) => Excludes(left, p) && Excludes(right, p)
  }

  /** Every match has a character with the property. */
  ghost predicate Forces(r: Regex, p: char -> bool) {
    match r
    case Run(allowed, least, _) => least > 0 && forall c :: allowed(c) ==> p(c)
    case Then(first, second) => Forces(first, p) || Forces(second, p)
    case Or(left, right) => Forces(left, p) && Forces(right, p)
  }

  lemma {:induction false} ExcludesAll(r: Regex, m: string, p: char -> bool)
    requires Excludes(r, p) && Matches(r, m)
    ensures forall i :: 0 <= i < |m| ==> !p(m[i])
  {
    match r
    case Run(_, _, _) =>
    case Then(first, second) =>
      var k :| 0 <= k <= |m| && Matches(first, m[..k]) && Matches(second, m[k..]);
      ExcludesAll(first, m[..k], p);
      ExcludesAll(second, m[k..], p);
      assert m == m[..k] + m[k..];
    case Or(left, right) =>
      if Matches(left, m) { ExcludesAll(left, m, p); } else { ExcludesAll(right, m, p); }
  }

  lemma {:induction false} ForcesOne(r: Regex, m: string, p: char -> bool) returns (i: nat)
    requires Forces(r, p) && Matches(r, m)
    ensures i < |m| && p(m[i])
  {
    match r
    case Run(_, _, _) => i := 0;
    case Then(first, second) =>
      var k :| 0 <= k <= |m| && Matches(first, m[..k]) && Matches(second, m[k..]);
      if Forces(first, p) {
        i := ForcesOne(first, m[..k], p);
      } else {
        var j := ForcesOne(second, m[k..], p);
        i := k + j;
      }
    case Or(left, right) =>
      if Matches(left, m) { i := ForcesOne(left, m, p); } else { i := ForcesOne(right, m, p); }
  }

  lemma {:induction false} ChainExcludes(parts: seq<Regex>, p: char -> bool)
    requires forall i :: 0 <= i < |parts| ==> Excludes(parts[i], p)
    ensures Excludes(Chain(parts), p)
  {
    if parts != [] { ChainExcludes(parts[1..], p); }
  }

  lemma {:induction false} ChainForces(parts: seq<Regex>, p: char -> bool, i: nat)
    requires i < |parts| && Forces(parts[i], p)
    ensures Forces(Chain(parts), p)
  {
    if i > 0 { ChainForces(parts[1..], p, i - 1); }
  }

  // ---- The patterns ----

  predicate Digit(c: char) { '0' <= c <= '9' }
  predicate Letter(c: char) { 'A' <= c <= 'Z' || 'a' <= c <= 'z' }
  predicate Space(c: char) { c == ' ' || c == '\t' || c == '\n' || c == '\r' || c == (12 as char) }
  predicate LocalPart(c: char) { Letter(c) || Digit(c) || c in "._%+-" }
  predicate Domain(c: char) { Letter(c) || Digit(c) || c == '.' || c == '-' }
  predicate TopLevel(c: char) { Letter(c) || c == '|' }
  predicate Separator(c: char) { Space(c) || c == '.' || c == '-' }
  predicate CardSeparator(c: char) { c == '-' || c == ' ' }
  predicate KeyChar(c: char) { Letter(c) || Digit(c) || c == '_' || c == '-' }

  function Just(c: char): Regex { Run(x => x == c, 1, Some(1)) }

  function Digits(n: nat): Regex { Run(Digit, n, Some(n)) }

  function Maybe(allowed: char -> bool): Regex { Run(allowed, 0, Some(1)) }

  const SSN := [Digits(3), Just('-'), Digits(2), Just('-'), Digits(4)]

  const EMAIL := [Run(LocalPart, 1, None), Just('@'), Run(Domain, 1, None), Just('.'), Run(TopLevel, 2, None)]

  const COUNTRY := [Just('+'), Run(Digit, 1, Some(2)), Run(Space, 1, Some(1))]

  const PHONE := [
    Or(NOTHING, Chain(COUNTRY)), Maybe(c => c == '('), Digits(3), Maybe(c => c == ')'),
    Maybe(Separator), Digits(3), Maybe(Separator), Digits(4)]

  const CREDIT_CARD := [
    Digits(4), Maybe(CardSeparator), Digits(4), Maybe(CardSeparator), Digits(4), Maybe(CardSeparator), Digits(4)]

  const SECRET := [Just('s'), Just('k'), Just('-')]

  const PUBLIC := [Just('p'), Just('k'), Just('-')]

  const BEARER := [Just('B'), Just('e'), Just('a'), Just('r'), Just('e'), Just('r'), Run(Space, 1, Some(1))]

  const API_KEY := [Or(Chain(SECRET), Or(Chain(PUBLIC), Chain(BEARER))), Run(KeyChar, 20, None)]

  const PATTERNS := map[
    "ssn" := SSN, "email" := EMAIL, "phone" := PHONE, "credit_card" := CREDIT_CARD, "api_key" := API_KEY]

  ghost predicate Finds(category: string, m: string) {
    category in PATTERNS && Matches(Chain(PATTERNS[category]), m)
  }

  /** What detection returns: some of the categories, each with matches of its pattern. */
  ghost predicate Detected(pii: map<string, seq<string>>) {
    forall c, m :: c in pii && m in pii[c] ==> Finds(c, m)
  }

  predicate SsnShape(m: string) {
    && |m| == 11 && m[3] == '-' && m[6] == '-'
    && forall i :: 0 <= i < 11 && i != 3 && i != 6 ==> Digit(m[i])
  }

  lemma SsnIsShaped(m: string)
    requires Finds("ssn", m)
    ensures SsnShape(m)
  {
    var parts := ChainParts(SSN, m);
    FiveParts(parts);
    assert Matches(Digits(3), parts[0]) && Matches(Just('-'), parts[1]) && Matches(Digits(2), parts[2]);
    assert Matches(Just('-'), parts[3]) && Matches(Digits(4), parts[4]);
    assert m == parts[0] + parts[1] + parts[2] + parts[3] + parts[4];
    forall i | 0 <= i < 11 && i != 3 && i != 6 ensures Digit(m[i]) {
      assert m[i] == if i < 3 then parts[0][i] else if i < 6 then parts[2][i - 4] else parts[4][i - 7];
    }
  }

  lemma ShapedIsSsn(m: string)
    requires SsnShape(m)
    ensures Finds("ssn", m)
  {
    var parts := [m[..3], m[3..4], m[4..6], m[6..7], m[7..]];
    assert Matches(SSN[0], parts[0]) && Matches(SSN[1], parts[1]) && Matches(SSN[2], parts[2]);
    assert Matches(SSN[3], parts[3]) && Matches(SSN[4], parts[4]);
    ChainMatches(SSN, parts);
    FiveParts(parts);
    assert m == parts[0] + parts[1] + parts[2] + parts[3] + parts[4];
  }

  /** A social security number is eleven characters, digits but for dashes at the fourth and seventh. */
  lemma SsnExactly(m: string)
    ensures Finds("ssn", m) <==> SsnShape(m)
  {
    if Finds("ssn", m) { SsnIsShaped(m); }
    if SsnShape(m) { ShapedIsSsn(m); }
  }

  lemma ConcatFrom(texts: seq<string>, k: nat)
    requires k < |texts|
    ensures Concat(texts[k..]) == texts[k] + Concat(texts[k + 1..])
  {
    assert texts[k..][1..] == texts[k + 1..];
  }

  lemma FiveParts(t: seq<string>)
    requires |t| == 5
    ensures Concat(t) == t[0] + t[1] + t[2] + t[3] + t[4]
  {
    ConcatFrom(t, 0);
    ConcatFrom(t, 1);
    ConcatFrom(t, 2);
    ConcatFrom(t, 3);
    ConcatFrom(t, 4);
    assert t[0..] == t && t[5..] == [];
    assert Concat(t) == t[0] + (t[1] + (t[2] + (t[3] + (t[4] + "")))) == t[0] + t[1] + t[2] + t[3] + t[4];
  }

  /** The texts of a chain of at most eight parts, by length. */
  lemma ConcatLength(t: seq<string>)
    requires |t| == 8
    ensures |Concat(t)| == |t[0]| + |t[1]| + |t[2]| + |t[3]| + |t[4]| + |t[5]| + |t[6]| + |t[7]|
  {
    ConcatFrom(t, 0);
    ConcatFrom(t, 1);
    ConcatFrom(t, 2);
    ConcatFrom(t, 3);
    ConcatFrom(t, 4);
    ConcatFrom(t, 5);
    ConcatFrom(t, 6);
    ConcatFrom(t, 7);
    assert t[0..] == t && t[8..] == [];
  }

  lemma {:induction false} ConcatSnocEmpty(t: seq<string>)
    ensures Concat(t + [""]) == Concat(t)
  {
    if t == [] {
      assert (t + [""])[1..] == [];
    } else {
      assert (t + [""])[1..] == t[1..] + [""];
      ConcatSnocEmpty(t[1..]);
    }
  }

  /** A phone number: ten digits, and at most eight characters for country, brackets and separators. */
  lemma PhoneLength(m: string)
    requires Finds("phone", m)
    ensures 10 <= |m| <= 18
  {
    var t := ChainParts(PHONE, m);
    ConcatLength(t);
    assert Matches(Or(NOTHING, Chain(COUNTRY)), t[0]) && Matches(Maybe(c => c == '('), t[1]);
    assert Matches(Digits(3), t[2]) && Matches(Maybe(c => c == ')'), t[3]) && Matches(Maybe(Separator), t[4]);
    assert Matches(Digits(3), t[5]) && Matches(Maybe(Separator), t[6]) && Matches(Digits(4), t[7]);
    if Matches(Chain(COUNTRY), t[0]) {
      var parts := ChainParts(COUNTRY, t[0]);
      assert Matches(COUNTRY[0], parts[0]) && Matches(COUNTRY[1], parts[1]) && Matches(COUNTRY[2], parts[2]);
      assert |Concat(parts)| <= 4 by {
        ConcatFrom(parts, 0);
        ConcatFrom(parts, 1);
        ConcatFrom(parts, 2);
        assert parts[0..] == parts && parts[3..] == [];
      }
    }
  }

  /** A card number: sixteen digits in four groups, with at most one separator between two of them. */
  lemma CardLength(m: string)
    requires Finds("credit_card", m)
    ensures 16 <= |m| <= 19
  {
    var t := ChainParts(CREDIT_CARD, m);
    ConcatSnocEmpty(t);
    ConcatLength(t + [""]);
    assert Matches(CREDIT_CARD[0], t[0]) && Matches(CREDIT_CARD[1], t[1]) && Matches(CREDIT_CARD[2], t[2]);
    assert Matches(CREDIT_CARD[3], t[3]) && Matches(CREDIT_CARD[4], t[4]) && Matches(CREDIT_CARD[5], t[5]);
    assert Matches(CREDIT_CARD[6], t[6]);
  }

  /** An address has an at-sign, a dot behind it, and a top-level domain of two letters or more. */
  lemma EmailShape(m: string) returns (i: nat, j: nat)
    requires Finds("email", m)
    ensures 0 < i && i + 1 < j && j + 2 < |m| && m[i] == '@' && m[j] == '.'
    ensures (forall k :: 0 <= k < i ==> LocalPart(m[k])) && (forall k :: i < k < j ==> Domain(m[k]))
    ensures forall k :: j < k < |m| ==> TopLevel(m[k])
  {
    var t := ChainParts(EMAIL, m);
    FiveParts(t);
    assert m == t[0] + t[1] + t[2] + t[3] + t[4];
    assert Matches(EMAIL[0], t[0]) && Matches(EMAIL[1], t[1]) && Matches(EMAIL[2], t[2]);
    assert Matches(EMAIL[3], t[3]) && Matches(EMAIL[4], t[4]);
    i, j := |t[0]|, |t[0]| + 1 + |t[2]|;
    forall k | 0 <= k < |m| && k != i && k != j
      ensures m[k] == if k < i then t[0][k] else if k < j then t[2][k - i - 1] else t[4][k - j - 1]
    {
    }
  }
}
