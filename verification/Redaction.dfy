/** PII redaction: every listed match is replaced by a placeholder, category by category, in map order. */
module Redaction {
  import opened Common
  import opened Text
  import opened Detection

  const PLACEHOLDER := "[REDACTED]"
  const CORE := "REDACTED"

  /** One replace-all per listed match, in the order of the list. */
  function RedactAll(text: string, matches: seq<string>): string
    decreases |matches|
  {
    if matches == [] then text
    else RedactAll(ReplaceAll(text, matches[0], PLACEHOLDER), matches[1..])
  }

  /** Some text without a square bracket, as every match of a detection pattern is. */
  predicate Plain(m: string) {
    m != "" && '[' !in m && ']' !in m
  }

  ghost predicate AllPlain(matches: seq<string>) {
    forall m :: m in matches ==> Plain(m)
  }

  ghost predicate CleanOf(text: string, matches: seq<string>) {
    forall m :: m in matches ==> !Contains(text, m)
  }

  // ---- One replacement ----

  /** A plain text that shows up around a placeholder was on one side of it, or is a piece of its word. */
  lemma AcrossPlaceholder(a: string, b: string, m: string)
    requires Plain(m) && Contains(a + PLACEHOLDER + b, m)
    ensures Contains(a, m) || Contains(b, m) || Contains(CORE, m)
  {
    var whole := a + PLACEHOLDER + b;
    var k :| 0 <= k <= |whole| && OccursAt(whole, m, k);
    var n := |a|;
    OccursBeside(whole, m, k, n);
    OccursBeside(whole, m, k, n + 9);
    assert whole[..n] == a && whole[n + 1..n + 9] == CORE && whole[n + 10..|whole|] == b;
    if k + |m| <= n {
      OccursInStretch(whole, m, k, 0, n);
    } else if k + |m| <= n + 9 {
      OccursInStretch(whole, m, k, n + 1, n + 9);
    } else {
      OccursInStretch(whole, m, k, n + 10, |whole|);
    }
  }

  lemma FoundIfContained(s: string, target: string)
    ensures Contains(s, target) <==> Find(s, target, 0).Some?
  {
    if Find(s, target, 0).Some? { ContainsAt(s, target, Find(s, target, 0).value); }
  }

  /** What is in a piece of the text on either side of the leftmost occurrence is in the text. */
  lemma FoundAround(s: string, target: string, m: string, head: string, rest: string)
    requires target != "" && CutsAtFind(s, target, head, rest)
    ensures Contains(head, m) ==> Contains(s, m) && m != target
    ensures Contains(rest, m) ==> Contains(s, m)
  {
    var k := Find(s, target, 0).value;
    if Contains(head, m) {
      PrefixIsFree(s, target, k);
      PieceContains(s, k, m);
    }
    if Contains(rest, m) { PieceContains(s, k + |target|, m); }
  }

  /** Replacing brings in no plain text but pieces of the word REDACTED, and leaves none of what it replaces. */
  lemma {:induction false} ReplaceBringsInNothing(s: string, target: string, m: string)
    requires target != "" && Plain(m) && !Contains(CORE, m)
    requires Contains(ReplaceAll(s, target, PLACEHOLDER), m)
    ensures Contains(s, m) && m != target
    decreases |s|
  {
    FoundIfContained(s, target);
    if Find(s, target, 0).None? {
      ReplaceNone(s, target, PLACEHOLDER);
    } else {
      var head, rest := s[..Find(s, target, 0).value], s[Find(s, target, 0).value + |target|..];
      ReplaceCut(s, target, PLACEHOLDER, head, rest);
      AcrossPlaceholder(head, ReplaceAll(rest, target, PLACEHOLDER), m);
      FoundAround(s, target, m, head, rest);
      if !Contains(head, m) { ReplaceBringsInNothing(rest, target, m); }
    }
  }

  lemma ReplaceOfNothing(s: string, target: string)
    requires target != "" && !Contains(s, target)
    ensures ReplaceAll(s, target, PLACEHOLDER) == s
  {
    var f := Find(s, target, 0);
    if f.Some? { ContainsAt(s, target, f.value); }
  }

  lemma ReplaceLeavesPlaceholder(s: string, target: string)
    requires target != "" && Contains(s, target)
    ensures Contains(ReplaceAll(s, target, PLACEHOLDER), PLACEHOLDER)
  {
    var f := Find(s, target, 0);
    var rest := ReplaceAll(s[f.value + |target|..], target, PLACEHOLDER);
    assert OccursAt(PLACEHOLDER, PLACEHOLDER, 0);
    ContainsWithin(s[..f.value], PLACEHOLDER, rest, PLACEHOLDER);
  }

  // ---- A whole redaction ----

  /** A plain text outside the word REDACTED that survives was in the prompt and was not on the list. */
  lemma {:induction false} RedactBringsInNothing(text: string, matches: seq<string>, m: string)
    requires AllPlain(matches) && Plain(m) && !Contains(CORE, m)
    requires Contains(RedactAll(text, matches), m)
    ensures Contains(text, m) && m !in matches
    decreases |matches|
  {
    if matches != [] {
      assert matches[0] in matches;
      RedactBringsInNothing(ReplaceAll(text, matches[0], PLACEHOLDER), matches[1..], m);
      ReplaceBringsInNothing(text, matches[0], m);
    }
  }

  lemma {:induction false} RedactOfClean(text: string, matches: seq<string>)
    requires AllPlain(matches) && CleanOf(text, matches)
    ensures RedactAll(text, matches) == text
    decreases |matches|
  {
    if matches != [] {
      assert matches[0] in matches;
      ReplaceOfNothing(text, matches[0]);
      RedactOfClean(text, matches[1..]);
    }
  }

  lemma {:induction false} PlaceholderStays(text: string, matches: seq<string>)
    requires AllPlain(matches) && Contains(text, PLACEHOLDER)
    ensures Contains(RedactAll(text, matches), PLACEHOLDER)
    decreases |matches|
  {
    if matches != [] {
      assert matches[0] in matches;
      if Contains(text, matches[0]) { ReplaceLeavesPlaceholder(text, matches[0]); }
      else { ReplaceOfNothing(text, matches[0]); }
      PlaceholderStays(ReplaceAll(text, matches[0], PLACEHOLDER), matches[1..]);
    }
  }

  lemma {:induction false} RedactLeavesPlaceholder(text: string, matches: seq<string>)
    requires AllPlain(matches) && !CleanOf(text, matches)
    ensures Contains(RedactAll(text, matches), PLACEHOLDER)
    decreases |matches|
  {
    assert matches[0] in matches;
    if Contains(text, matches[0]) {
      ReplaceLeavesPlaceholder(text, matches[0]);
      PlaceholderStays(ReplaceAll(text, matches[0], PLACEHOLDER), matches[1..]);
    } else {
      ReplaceOfNothing(text, matches[0]);
      RedactLeavesPlaceholder(text, matches[1..]);
    }
  }

  /**
   For every prompt and every list of plain matches in any order: the result is free of all of them
   exactly when none of them is a piece of the word REDACTED, or none of them was there to begin with.
   */
  lemma RedactedIsClean(text: string, matches: seq<string>)
    requires AllPlain(matches)
    ensures CleanOf(RedactAll(text, matches), matches) <==> CleanOf(CORE, matches) || CleanOf(text, matches)
  {
    var result := RedactAll(text, matches);
    if CleanOf(text, matches) {
      RedactOfClean(text, matches);
    } else if CleanOf(CORE, matches) {
      forall m | m in matches ensures !Contains(result, m) {
        if Contains(result, m) { RedactBringsInNothing(text, matches, m); }
      }
    } else {
      RedactLeavesPlaceholder(text, matches);
      var m :| m in matches && Contains(CORE, m);
      assert PLACEHOLDER == "[" + CORE + "]";
      ContainsWithin("[", CORE, "]", m);
      ContainsTransitive(result, PLACEHOLDER, m);
    }
  }

  /** Plainness is needed: a match with a bracket can be rebuilt from the placeholder and the text beside it. */
  lemma BracketsCanBeRebuilt()
    ensures CleanOf(CORE, ["]a"]) && !CleanOf(RedactAll("]aa", ["]a"]), ["]a"])
  {
    var m, text := "]a", "]aa";
    OutsideCore(m, 0);
    assert OccursAt(text, m, 0);
    assert !Contains("a", m);
    ReplaceOfNothing("a", m);
    assert text[2..] == "a" && text[..0] == "";
    var result := ReplaceAll(text, m, PLACEHOLDER);
    assert result == "[REDACTED]a";
    assert OccursAt(result, m, 9);
    assert RedactAll(text, [m]) == result;
    ContainsAt(result, m, 9);
  }

  /** Redacting again, with the same matches in any other order, changes nothing. */
  lemma RedactIsIdempotent(text: string, matches: seq<string>, again: seq<string>)
    requires AllPlain(matches) && CleanOf(CORE, matches)
    requires forall m :: m in again ==> m in matches
    ensures RedactAll(RedactAll(text, matches), again) == RedactAll(text, matches)
  {
    RedactedIsClean(text, matches);
    RedactOfClean(RedactAll(text, matches), again);
  }

  function Brackets(s: string): nat {
    if s == "" then 0 else Brackets(s[..|s| - 1]) + One(s[|s| - 1] == '[')
  }

  lemma {:induction false} BracketsConcat(a: string, b: string)
    ensures Brackets(a + b) == Brackets(a) + Brackets(b)
    decreases |b|
  {
    if b == "" {
      assert a + b == a;
    } else {
      assert (a + b)[..|a + b| - 1] == a + b[..|b| - 1];
      BracketsConcat(a, b[..|b| - 1]);
    }
  }

  lemma {:induction false} NoBrackets(m: string)
    requires '[' !in m
    ensures Brackets(m) == 0
  {
    if m != "" { NoBrackets(m[..|m| - 1]); }
  }

  lemma BracketsOfPlaceholder(s: string)
    requires s == PLACEHOLDER
    ensures Brackets(s) == 1
  {
    assert s[..1] == "[" && s[1..] == CORE + "]" && s == s[..1] + s[1..];
    BracketsConcat(s[..1], s[1..]);
    NoBrackets(s[1..]);
    NoBrackets(s[..1][..0]);
  }

  lemma BracketsOfThree(a: string, b: string, c: string)
    ensures Brackets(a + b + c) == Brackets(a) + Brackets(b) + Brackets(c)
  {
    BracketsConcat(a + b, c);
    BracketsConcat(a, b);
  }

  /** A match cut out and a text with one opening bracket put in: one more. */
  lemma BracketsOfCut(head: string, target: string, tail: string, fill: string, rest: string)
    requires '[' !in target && Brackets(fill) == 1
    ensures Brackets(head + fill + rest) == Brackets(head + target + tail) - Brackets(tail) + 1 + Brackets(rest)
  {
    BracketsOfThree(head, target, tail);
    NoBrackets(target);
    BracketsOfThree(head, fill, rest);
  }

  /** Replacing a plain target never lowers the number of opening brackets, and raises it if the target occurs. */
  lemma {:induction false} ReplaceAddsBrackets(s: string, target: string, fill: string)
    requires Plain(target) && Brackets(fill) == 1
    ensures Brackets(ReplaceAll(s, target, fill)) >= Brackets(s)
    ensures Find(s, target, 0).Some? ==> Brackets(ReplaceAll(s, target, fill)) > Brackets(s)
    decreases |s|
  {
    if Find(s, target, 0).Some? {
      var k := Find(s, target, 0).value;
      var head, tail := s[..k], s[k + |target|..];
      CutAt(s, target, k);
      ReplaceCut(s, target, fill, head, tail);
      ReplaceAddsBrackets(tail, target, fill);
      BracketsOfCut(head, target, tail, fill, ReplaceAll(tail, target, fill));
    }
  }

  lemma {:induction false} RedactAddsBrackets(text: string, matches: seq<string>)
    requires AllPlain(matches)
    ensures Brackets(RedactAll(text, matches)) >= Brackets(text) + One(!CleanOf(text, matches))
    decreases |matches|
  {
    if matches != [] {
      var m := matches[0];
      assert m in matches;
      var next := ReplaceAll(text, m, PLACEHOLDER);
      BracketsOfPlaceholder(PLACEHOLDER);
      ReplaceAddsBrackets(text, m, PLACEHOLDER);
      FoundIfContained(text, m);
      RedactAddsBrackets(next, matches[1..]);
      if !Contains(text, m) { ReplaceOfNothing(text, m); }
    }
  }

  /** A second redaction, in any order, changes nothing exactly when the first left nothing to find. */
  lemma RedactTwiceExactly(text: string, matches: seq<string>, again: seq<string>)
    requires AllPlain(matches) && forall m :: m in again <==> m in matches
    ensures RedactAll(RedactAll(text, matches), again) == RedactAll(text, matches) <==>
              CleanOf(CORE, matches) || CleanOf(text, matches)
  {
    var once := RedactAll(text, matches);
    RedactedIsClean(text, matches);
    if CleanOf(once, again) { RedactOfClean(once, again); } else { RedactAddsBrackets(once, again); }
  }

  lemma OutsideCore(m: string, i: nat)
    requires i < |m| && m[i] !in CORE
    ensures !Contains(CORE, m)
  {
    if Contains(CORE, m) {
      var k :| 0 <= k <= |CORE| && OccursAt(CORE, m, k);
      LetterOf(CORE, m, k, i);
    }
  }

  // ---- The text outside the matches is kept ----

  /** Where a plain text outside the word can occur around a placeholder. */
  lemma OccursOnOneSide(a: string, b: string, m: string, k: nat)
    requires Plain(m) && !Contains(CORE, m) && OccursAt(a + PLACEHOLDER + b, m, k)
    ensures k + |m| <= |a| || |a| + 10 <= k
  {
    var whole, n := a + PLACEHOLDER + b, |a|;
    OccursBeside(whole, m, k, n);
    OccursBeside(whole, m, k, n + 9);
    if n < k && k + |m| <= n + 9 {
      assert whole[n + 1..n + 9] == CORE;
      OccursInStretch(whole, m, k, n + 1, n + 9);
    }
  }

  lemma SeamAtPlaceholder(a: string, b: string, hole: string, m: string)
    requires Plain(m) && !Contains(CORE, m) && hole == PLACEHOLDER
    ensures SeamIsClear(a, hole + b, m) && NoneFromFront(hole, b, m)
  {
    forall j | 0 <= j < |a| < j + |m| ensures !OccursAt(a + (hole + b), m, j) {
      assert a + (hole + b) == a + hole + b;
      if OccursAt(a + (hole + b), m, j) { OccursOnOneSide(a, b, m, j); }
    }
    forall j | 0 <= j < |hole| ensures !OccursAt(hole + b, m, j) {
      assert "" + hole + b == hole + b;
      if OccursAt(hole + b, m, j) { OccursOnOneSide("", b, m, j); }
    }
  }

  /** A replacement works on each side of a placeholder by itself. */
  lemma ReplaceAcross(a: string, b: string, hole: string, m: string)
    requires Plain(m) && !Contains(CORE, m) && hole == PLACEHOLDER
    ensures ReplaceAll(a + hole + b, m, hole) == ReplaceAll(a, m, hole) + hole + ReplaceAll(b, m, hole)
  {
    SeamAtPlaceholder(a, b, hole, m);
    assert a + hole + b == a + (hole + b);
    ReplaceConcat(a, hole + b, m, hole);
    ReplaceInBack(hole, b, m, hole);
  }

  /** The stretches that are kept, with those that go between them. */
  function Interleave(kept: seq<string>, gone: seq<string>): string
    requires |kept| == |gone| + 1
  {
    if gone == [] then kept[0] else kept[0] + gone[0] + Interleave(kept[1..], gone[1..])
  }

  function Same(m: string, n: nat): seq<string> { seq(n, _ => m) }

  lemma {:induction false} InterleaveSame(parts: seq<string>, m: string)
    requires parts != []
    ensures Interleave(parts, Same(m, |parts| - 1)) == Join(parts, m)
  {
    if |parts| > 1 {
      InterleaveSame(parts[1..], m);
      assert Same(m, |parts| - 1)[1..] == Same(m, |parts| - 2);
    }
  }

  lemma {:induction false} InterleaveConcat(k1: seq<string>, g1: seq<string>, g: string,
                                            k2: seq<string>, g2: seq<string>)
    requires |k1| == |g1| + 1 && |k2| == |g2| + 1
    ensures Interleave(k1 + k2, g1 + [g] + g2) == Interleave(k1, g1) + g + Interleave(k2, g2)
  {
    if g1 == [] {
      assert (k1 + k2)[1..] == k2 && (g1 + [g] + g2)[1..] == g2;
    } else {
      InterleaveConcat(k1[1..], g1[1..], g, k2, g2);
      assert (k1 + k2)[1..] == k1[1..] + k2 && (g1 + [g] + g2)[1..] == g1[1..] + [g] + g2;
    }
  }

  lemma {:induction false} JoinConcat(first: seq<string>, second: seq<string>, sep: string)
    requires first != [] && second != []
    ensures Join(first + second, sep) == Join(first, sep) + sep + Join(second, sep)
  {
    if |first| == 1 {
      assert (first + second)[1..] == second;
    } else {
      JoinConcat(first[1..], second, sep);
      assert (first + second)[1..] == first[1..] + second;
    }
  }

  ghost predicate AllIn(gone: seq<string>, matches: seq<string>) {
    forall i :: 0 <= i < |gone| ==> gone[i] in matches
  }

  /** One more match cuts every kept stretch where it occurs. */
  lemma {:induction false} CutKept(kept: seq<string>, gone: seq<string>, m: string, matches: seq<string>)
    returns (kept': seq<string>, gone': seq<string>)
    requires |kept| == |gone| + 1 && Plain(m) && !Contains(CORE, m) && m in matches && AllIn(gone, matches)
    ensures |kept'| == |gone'| + 1 && AllIn(gone', matches)
    ensures Interleave(kept', gone') == Interleave(kept, gone)
    ensures Join(kept', PLACEHOLDER) == ReplaceAll(Join(kept, PLACEHOLDER), m, PLACEHOLDER)
    decreases |kept|
  {
    var parts := Split(kept[0], m);
    var ms := Same(m, |parts| - 1);
    InterleaveSame(parts, m);
    SplitJoin(kept[0], m);
    ReplaceAllJoins(kept[0], m, PLACEHOLDER);
    if gone == [] {
      kept', gone' := parts, ms;
    } else {
      var restKept, restGone := CutKept(kept[1..], gone[1..], m, matches);
      kept', gone' := parts + restKept, ms + [gone[0]] + restGone;
      InterleaveConcat(parts, ms, gone[0], restKept, restGone);
      JoinOfCut(kept[0], Join(kept[1..], PLACEHOLDER), parts, restKept, PLACEHOLDER, m);
    }
  }

  lemma JoinOfCut(a: string, b: string, parts: seq<string>, rest: seq<string>, hole: string, m: string)
    requires Plain(m) && !Contains(CORE, m) && hole == PLACEHOLDER && parts != [] && rest != []
    requires Join(parts, hole) == ReplaceAll(a, m, hole) && Join(rest, hole) == ReplaceAll(b, m, hole)
    ensures Join(parts + rest, hole) == ReplaceAll(a + hole + b, m, hole)
  {
    JoinConcat(parts, rest, hole);
    ReplaceAcross(a, b, hole, m);
  }

  lemma {:induction false} KeptFrom(kept: seq<string>, gone: seq<string>, left: seq<string>, matches: seq<string>)
    returns (kept': seq<string>, gone': seq<string>)
    requires |kept| == |gone| + 1 && AllPlain(matches) && CleanOf(CORE, matches) && AllIn(gone, matches)
    requires forall m :: m in left ==> m in matches
    ensures |kept'| == |gone'| + 1 && AllIn(gone', matches)
    ensures Interleave(kept', gone') == Interleave(kept, gone)
    ensures Join(kept', PLACEHOLDER) == RedactAll(Join(kept, PLACEHOLDER), left)
    decreases |left|
  {
    if left == [] {
      kept', gone' := kept, gone;
    } else {
      assert left[0] in left;
      var k, g := CutKept(kept, gone, left[0], matches);
      kept', gone' := KeptFrom(k, g, left[1..], matches);
    }
  }

  /**
   Redaction replaces disjoint stretches of the prompt, each of them a listed match, by one placeholder each, keeps
   everything between them in place, and no kept stretch holds a listed match.
   */
  lemma TheRestIsKept(text: string, matches: seq<string>) returns (kept: seq<string>, gone: seq<string>)
    requires AllPlain(matches) && CleanOf(CORE, matches)
    ensures |kept| == |gone| + 1 && AllIn(gone, matches)
    ensures text == Interleave(kept, gone) && RedactAll(text, matches) == Join(kept, PLACEHOLDER)
    ensures forall i :: 0 <= i < |kept| ==> CleanOf(kept[i], matches)
  {
    kept, gone := KeptFrom([text], [], matches, matches);
    RedactedIsClean(text, matches);
    forall i, m | 0 <= i < |kept| && m in matches ensures !Contains(kept[i], m) {
      if Contains(kept[i], m) { JoinContains(kept, PLACEHOLDER, i, m); }
    }
  }

  lemma {:induction false} JoinContains(parts: seq<string>, sep: string, i: nat, m: string)
    requires i < |parts| && Contains(parts[i], m)
    ensures Contains(Join(parts, sep), m)
    decreases |parts|
  {
    if i > 0 {
      JoinContains(parts[1..], sep, i - 1, m);
      ContainsWithin(parts[0] + sep, Join(parts[1..], sep), "", m);
      assert parts[0] + sep + Join(parts[1..], sep) + "" == Join(parts, sep);
    } else if |parts| > 1 {
      ContainsWithin("", parts[0], sep + Join(parts[1..], sep), m);
      assert "" + parts[0] + (sep + Join(parts[1..], sep)) == Join(parts, sep);
    }
  }

  // ---- What detection finds is safe to list ----

  predicate Bracket(c: char) { c == '[' || c == ']' }

  predicate Foreign(c: char) { c !in CORE }

  lemma PartsExcludeBrackets(category: string)
    requires category in PATTERNS
    ensures forall i :: 0 <= i < |PATTERNS[category]| ==> Excludes(PATTERNS[category][i], Bracket)
  {
    ChainExcludes(COUNTRY, Bracket);
    ChainExcludes(SECRET, Bracket);
    ChainExcludes(PUBLIC, Bracket);
    ChainExcludes(BEARER, Bracket);
  }

  /** Each pattern forces a digit, an at-sign or the head of a key, none of which the word REDACTED has. */
  lemma SomePartIsForeign(category: string) returns (i: nat)
    requires category in PATTERNS
    ensures i < |PATTERNS[category]| && Forces(PATTERNS[category][i], Foreign)
  {
    assert CORE == ['R', 'E', 'D', 'A', 'C', 'T', 'E', 'D'];
    ChainForces(SECRET, Foreign, 0);
    ChainForces(PUBLIC, Foreign, 0);
    ChainForces(BEARER, Foreign, 0);
    i := if category == "email" then 1 else if category == "phone" then 2 else 0;
  }

  lemma DetectedIsOutsideCore(category: string, m: string)
    requires Finds(category, m)
    ensures Plain(m) && !Contains(CORE, m)
  {
    var parts := PATTERNS[category];
    PartsExcludeBrackets(category);
    ChainExcludes(parts, Bracket);
    ExcludesAll(Chain(parts), m, Bracket);
    var k := SomePartIsForeign(category);
    ChainForces(parts, Foreign, k);
    var i := ForcesOne(Chain(parts), m, Foreign);
    OutsideCore(m, i);
  }

  /** So whatever detection found, redaction leaves none of it, in whatever order the map comes. */
  lemma DetectedIsRedacted(prompt: string, pii: map<string, seq<string>>, order: seq<string>)
    requires Detected(pii) && forall c :: c in order <==> c in pii
    ensures SafeToList(pii)
    ensures forall m :: Listed(pii, m) ==> !Contains(RedactAll(prompt, Flatten(pii, order)), m)
  {
    forall m | Listed(pii, m) ensures Plain(m) && !Contains(CORE, m) {
      var c :| c in pii && m in pii[c];
      DetectedIsOutsideCore(c, m);
    }
    ListedIsGone(prompt, pii, order);
  }

  // ---- The method, over a map in whatever order its keys come ----

  predicate Listed(pii: map<string, seq<string>>, m: string) {
    exists c :: c in pii && m in pii[c]
  }

  function Flatten(pii: map<string, seq<string>>, order: seq<string>): seq<string>
    requires forall c :: c in order ==> c in pii
  {
    if order == [] then []
    else Flatten(pii, order[..|order| - 1]) + pii[order[|order| - 1]]
  }

  lemma {:induction false} FlattenLists(pii: map<string, seq<string>>, order: seq<string>, m: string)
    requires forall c :: c in order ==> c in pii
    ensures m in Flatten(pii, order) <==> exists c :: c in order && m in pii[c]
  {
    if order != [] {
      var n := |order| - 1;
      FlattenLists(pii, order[..n], m);
      assert order == order[..n] + [order[n]];
    }
  }

  lemma {:induction false} RedactAllAppends(text: string, first: seq<string>, second: seq<string>)
    ensures RedactAll(text, first + second) == RedactAll(RedactAll(text, first), second)
    decreases |first|
  {
    if first == [] {
      assert first + second == second;
    } else {
      assert (first + second)[1..] == first[1..] + second;
      RedactAllAppends(ReplaceAll(text, first[0], PLACEHOLDER), first[1..], second);
    }
  }

  method RedactCategory(text: string, matches: seq<string>) returns (result: string)
    ensures result == RedactAll(text, matches)
  {
    result := text;
    for i := 0 to |matches|
      invariant result == RedactAll(text, matches[..i])
    {
      RedactAllAppends(text, matches[..i], [matches[i]]);
      assert matches[..i + 1] == matches[..i] + [matches[i]];
      result := ReplaceAll(result, matches[i], PLACEHOLDER);
    }
    assert matches[..|matches|] == matches;
  }

  /** The categories come in some order; `order` reports the one this run took. */
  method RedactPII(prompt: string, pii: map<string, seq<string>>) returns (result: string, order: seq<string>)
    ensures (forall c :: c in order <==> c in pii) && |order| == |pii|
    ensures result == RedactAll(prompt, Flatten(pii, order))
    ensures SafeToList(pii) ==> forall m :: Listed(pii, m) ==> !Contains(result, m)
  {
    result, order := prompt, [];
    var left := pii.Keys;
    while left != {}
      invariant left <= pii.Keys && |order| + |left| == |pii.Keys|
      invariant forall c :: c in order <==> c in pii.Keys - left
      invariant result == RedactAll(prompt, Flatten(pii, order))
      decreases |left|
    {
      var category :| category in left;
      RedactAllAppends(prompt, Flatten(pii, order), pii[category]);
      result := RedactCategory(result, pii[category]);
      assert (order + [category])[..|order|] == order;
      left, order := left - {category}, order + [category];
    }
    ListedIsGone(prompt, pii, order);
  }

  ghost predicate SafeToList(pii: map<string, seq<string>>) {
    forall m :: Listed(pii, m) ==> Plain(m) && !Contains(CORE, m)
  }

  lemma ListedIsGone(prompt: string, pii: map<string, seq<string>>, order: seq<string>)
    requires forall c :: c in order <==> c in pii
    ensures SafeToList(pii) ==>
              forall m :: Listed(pii, m) ==> !Contains(RedactAll(prompt, Flatten(pii, order)), m)
  {
    if SafeToList(pii) {
      var all := Flatten(pii, order);
      forall m ensures m in all <==> Listed(pii, m) {
        FlattenLists(pii, order, m);
      }
      RedactedIsClean(prompt, all);
    }
  }
}
