/** Substring search, splitting, joining and replace-all, as Go's `strings` and Rust's `str` define them. */
module Text {
  import opened Common

  predicate OccursAt(s: string, t: string, k: nat) {
    k + |t| <= |s| && s[k..k + |t|] == t
  }

  predicate Contains(s: string, t: string) {
    exists k :: 0 <= k <= |s| && OccursAt(s, t, k)
  }

  /** The leftmost occurrence of `t` at or after `from`. */
  function Find(s: string, t: string, from: nat): (r: Option<nat>)
    requires from <= |s|
    ensures r.Some? ==> from <= r.value && OccursAt(s, t, r.value)
    ensures r.Some? ==> forall k :: from <= k < r.value ==> !OccursAt(s, t, k)
    ensures r.None? ==> forall k :: from <= k <= |s| ==> !OccursAt(s, t, k)
    decreases |s| - from
  {
    if OccursAt(s, t, from) then Some(from)
    else if from == |s| then None
    else Find(s, t, from + 1)
  }

  function Join(parts: seq<string>, sep: string): string {
    if |parts| == 0 then ""
    else if |parts| == 1 then parts[0]
    else parts[0] + sep + Join(parts[1..], sep)
  }

  /** Cuts at the leftmost occurrences of `sep`, left to right. */
  function Split(s: string, sep: string): (parts: seq<string>)
    requires sep != ""
    ensures |parts| >= 1
    decreases |s|
  {
    match Find(s, sep, 0)
    case None => [s]
    case Some(k) => [s[..k]] + Split(s[k + |sep|..], sep)
  }

  /** Go's replacement of the empty string: `fill` goes before every character and at the end. */
  function Weave(s: string, fill: string): string {
    if s == "" then fill else fill + s[..1] + Weave(s[1..], fill)
  }

  function ReplaceAll(s: string, target: string, fill: string): string
    decreases |s|
  {
    if target == "" then Weave(s, fill) else
    match Find(s, target, 0)
    case None => s
    case Some(k) => s[..k] + fill + ReplaceAll(s[k + |target|..], target, fill)
  }

  lemma ContainsAt(s: string, t: string, k: nat)
    requires OccursAt(s, t, k)
    ensures Contains(s, t)
  {
  }

  lemma JoinCons(head: string, tail: seq<string>, sep: string)
    requires tail != []
    ensures Join([head] + tail, sep) == head + sep + Join(tail, sep)
  {
    assert ([head] + tail)[1..] == tail;
  }

  /** Nothing before the leftmost occurrence holds an occurrence. */
  lemma PrefixIsFree(s: string, t: string, k: nat)
    requires k <= |s| && forall j :: 0 <= j < k ==> !OccursAt(s, t, j)
    requires t != ""
    ensures !Contains(s[..k], t)
  {
    assert forall j: nat :: OccursAt(s[..k], t, j) ==> j < k && OccursAt(s, t, j);
  }

  lemma CutAt(s: string, t: string, k: nat)
    requires OccursAt(s, t, k)
    ensures s == s[..k] + t + s[k + |t|..]
  {
  }

  /** Joining undoes splitting. */
  lemma {:induction false} SplitJoin(s: string, sep: string)
    requires sep != ""
    ensures Join(Split(s, sep), sep) == s
    decreases |s|
  {
    match Find(s, sep, 0)
    case None =>
    case Some(k) =>
      CutAt(s, sep, k);
      var rest := s[k + |sep|..];
      SplitJoin(rest, sep);
      JoinCons(s[..k], Split(rest, sep), sep);
  }

  /** No part holds the separator. */
  lemma {:induction false} SplitPartsFree(s: string, sep: string, i: nat)
    requires sep != "" && i < |Split(s, sep)|
    ensures !Contains(Split(s, sep)[i], sep)
    decreases |s|
  {
    var f := Find(s, sep, 0);
    if f.Some? {
      var k, rest := f.value, s[f.value + |sep|..];
      if i == 0 { PrefixIsFree(s, sep, k); } else { SplitPartsFree(rest, sep, i - 1); }
    }
  }

  /** Replace-all keeps the parts between the leftmost occurrences and changes only what joins them. */
  lemma {:induction false} ReplaceAllJoins(s: string, target: string, fill: string)
    requires target != ""
    ensures ReplaceAll(s, target, fill) == Join(Split(s, target), fill)
    decreases |s|
  {
    match Find(s, target, 0)
    case None =>
      assert Split(s, target) == [s];
    case Some(k) =>
      var rest := s[k + |target|..];
      var parts := Split(rest, target);
      ReplaceAllJoins(rest, target, fill);
      JoinCons(s[..k], parts, fill);
      assert Split(s, target) == [s[..k]] + parts;
  }

  /** An occurrence that fits into a stretch is an occurrence in that stretch. */
  lemma OccursInStretch(s: string, t: string, k: nat, lo: nat, hi: nat)
    requires OccursAt(s, t, k) && lo <= k && k + |t| <= hi <= |s|
    ensures Contains(s[lo..hi], t)
  {
    ContainsAt(s[lo..hi], t, k - lo);
  }

  /** What a prefix or a suffix holds, the whole holds. */
  lemma PieceContains(s: string, k: nat, t: string)
    requires k <= |s| && (Contains(s[..k], t) || Contains(s[k..], t))
    ensures Contains(s, t)
  {
    if Contains(s[..k], t) {
      var j :| 0 <= j <= k && OccursAt(s[..k], t, j);
      ContainsAt(s, t, j);
    } else {
      var j :| 0 <= j <= |s| - k && OccursAt(s[k..], t, j);
      ContainsAt(s, t, k + j);
    }
  }

  lemma LetterAt(s: string, t: string, k: nat, p: nat)
    requires OccursAt(s, t, k) && k <= p < k + |t|
    ensures s[p] in t
  {
    assert t[p - k] == s[k + (p - k)];
  }

  lemma LetterOf(s: string, t: string, k: nat, i: nat)
    requires OccursAt(s, t, k) && i < |t|
    ensures t[i] in s
  {
    assert t[i] == s[k + i];
  }

  /** An occurrence does not cover a position whose letter it does not have. */
  lemma OccursBeside(s: string, t: string, k: nat, p: nat)
    requires OccursAt(s, t, k) && p < |s| && s[p] !in t
    ensures p < k || k + |t| <= p
  {
    if k <= p < k + |t| { LetterAt(s, t, k, p); }
  }

  lemma OccursWithin(a: string, mid: string, b: string, t: string, k: nat)
    requires OccursAt(mid, t, k)
    ensures OccursAt(a + mid + b, t, |a| + k)
  {
  }

  /** A text keeps its substrings when other text is put around it. */
  lemma ContainsWithin(a: string, mid: string, b: string, t: string)
    requires Contains(mid, t)
    ensures Contains(a + mid + b, t)
  {
    var k :| 0 <= k <= |mid| && OccursAt(mid, t, k);
    OccursWithin(a, mid, b, t, k);
  }

  lemma ContainsTransitive(s: string, t: string, u: string)
    requires Contains(s, t) && Contains(t, u)
    ensures Contains(s, u)
  {
    var k :| 0 <= k <= |s| && OccursAt(s, t, k);
    assert s == s[..k] + t + s[k + |t|..];
    ContainsWithin(s[..k], t, s[k + |t|..], u);
  }

  // ---- Replacing in two texts put together ----

  lemma FindIs(s: string, t: string, k: nat)
    requires OccursAt(s, t, k) && forall j :: 0 <= j < k ==> !OccursAt(s, t, j)
    ensures Find(s, t, 0).Some? && Find(s, t, 0).value == k
  {
  }

  lemma OccursInFront(a: string, b: string, t: string, k: nat)
    ensures k + |t| <= |a| ==> (OccursAt(a + b, t, k) <==> OccursAt(a, t, k))
  {
  }

  lemma OccursInBack(a: string, b: string, t: string, k: nat)
    ensures OccursAt(a + b, t, |a| + k) <==> OccursAt(b, t, k)
  {
  }

  /** What the front holds first, the whole holds first. */
  lemma FindInFront(a: string, b: string, t: string)
    requires Find(a, t, 0).Some?
    ensures Find(a + b, t, 0).Some? && Find(a + b, t, 0).value == Find(a, t, 0).value
  {
    var k := Find(a, t, 0).value;
    forall j | 0 <= j <= k ensures OccursAt(a + b, t, j) <==> OccursAt(a, t, j) { OccursInFront(a, b, t, j); }
    FindIs(a + b, t, k);
  }

  /** No occurrence begins in the front part. */
  ghost predicate NoneFromFront(a: string, b: string, t: string) {
    forall j :: 0 <= j < |a| ==> !OccursAt(a + b, t, j)
  }

  lemma NoneBefore(a: string, b: string, t: string, n: nat)
    requires NoneFromFront(a, b, t) && forall j :: 0 <= j < n ==> !OccursAt(b, t, j)
    ensures forall j :: 0 <= j < |a| + n ==> !OccursAt(a + b, t, j)
  {
    forall j | 0 <= j < |a| + n ensures !OccursAt(a + b, t, j) {
      if j >= |a| { OccursInBack(a, b, t, j - |a|); }
    }
  }

  lemma FindIsNone(s: string, t: string)
    requires forall j :: 0 <= j < |s| + 1 ==> !OccursAt(s, t, j)
    ensures Find(s, t, 0).None?
  {
  }

  /** What begins in the back is found there, shifted by the front. */
  ghost predicate FoundBehind(a: string, b: string, t: string) {
    && (Find(b, t, 0).None? ==> Find(a + b, t, 0).None?)
    && (Find(b, t, 0).Some? ==> Find(a + b, t, 0).Some? && Find(a + b, t, 0).value == |a| + Find(b, t, 0).value)
  }

  lemma FindInBack(a: string, b: string, t: string)
    requires NoneFromFront(a, b, t)
    ensures FoundBehind(a, b, t)
  {
    if Find(b, t, 0).Some? {
      NoneBefore(a, b, t, Find(b, t, 0).value);
      OccursInBack(a, b, t, Find(b, t, 0).value);
      FindIs(a + b, t, |a| + Find(b, t, 0).value);
    } else {
      NoneBefore(a, b, t, |b| + 1);
      FindIsNone(a + b, t);
    }
  }

  /** The text is cut at the leftmost occurrence. */
  ghost predicate CutsAtFind(s: string, t: string, head: string, rest: string) {
    Find(s, t, 0).Some? && head == s[..Find(s, t, 0).value] && rest == s[Find(s, t, 0).value + |t|..]
  }

  lemma ReplaceCut(s: string, t: string, fill: string, head: string, rest: string)
    requires t != "" && CutsAtFind(s, t, head, rest)
    ensures ReplaceAll(s, t, fill) == head + fill + ReplaceAll(rest, t, fill)
  {
  }

  lemma ReplaceNone(s: string, t: string, fill: string)
    requires t != "" && Find(s, t, 0).None?
    ensures ReplaceAll(s, t, fill) == s
  {
  }

  lemma SlicesInBack(a: string, b: string, k: nat, n: nat)
    requires k <= n <= |b|
    ensures (a + b)[..|a| + k] == a + b[..k] && (a + b)[|a| + n..] == b[n..]
  {
  }

  lemma SlicesInFront(a: string, b: string, k: nat, n: nat)
    requires k <= n <= |a|
    ensures (a + b)[..k] == a[..k] && (a + b)[n..] == a[n..] + b && a == a[..n] + a[n..]
  {
  }

  lemma Associates(a: string, b: string, c: string, d: string)
    ensures a + b + c + d == a + (b + c + d) && a + b + c + d == a + b + (c + d)
  {
  }

  lemma CutInBack(a: string, b: string, t: string, head: string, rest: string)
    requires CutsAtFind(b, t, head, rest) && FoundBehind(a, b, t)
    ensures CutsAtFind(a + b, t, a + head, rest)
  {
    var k := Find(b, t, 0).value;
    SlicesInBack(a, b, k, k + |t|);
  }

  lemma CutInFront(a: string, b: string, t: string, head: string, rest: string)
    requires CutsAtFind(a, t, head, rest)
    ensures CutsAtFind(a + b, t, head, rest + b)
  {
    var k := Find(a, t, 0).value;
    FindInFront(a, b, t);
    SlicesInFront(a, b, k, k + |t|);
  }

  lemma ReplaceShifted(a: string, b: string, t: string, fill: string, head: string, rest: string)
    requires t != "" && CutsAtFind(b, t, head, rest) && CutsAtFind(a + b, t, a + head, rest)
    ensures ReplaceAll(a + b, t, fill) == a + ReplaceAll(b, t, fill)
  {
    ReplaceCut(b, t, fill, head, rest);
    ReplaceCut(a + b, t, fill, a + head, rest);
    Associates(a, head, fill, ReplaceAll(rest, t, fill));
  }

  lemma ReplaceInBack(a: string, b: string, t: string, fill: string)
    requires t != "" && NoneFromFront(a, b, t)
    ensures ReplaceAll(a + b, t, fill) == a + ReplaceAll(b, t, fill)
  {
    FindInBack(a, b, t);
    if Find(b, t, 0).Some? {
      var head, rest := b[..Find(b, t, 0).value], b[Find(b, t, 0).value + |t|..];
      CutInBack(a, b, t, head, rest);
      ReplaceShifted(a, b, t, fill, head, rest);
    } else {
      ReplaceNone(b, t, fill);
      ReplaceNone(a + b, t, fill);
    }
  }

  /** No occurrence straddles the seam. */
  ghost predicate SeamIsClear(a: string, b: string, t: string) {
    forall j :: 0 <= j < |a| < j + |t| ==> !OccursAt(a + b, t, j)
  }

  lemma SeamOfSuffix(front: string, a: string, b: string, t: string)
    requires SeamIsClear(front + a, b, t)
    ensures SeamIsClear(a, b, t)
  {
    assert front + a + b == front + (a + b);
    forall j | 0 <= j < |a| < j + |t| ensures !OccursAt(a + b, t, j) {
      OccursInBack(front, a + b, t, j);
      assert !OccursAt(front + a + b, t, |front| + j);
    }
  }

  lemma FreeFront(a: string, b: string, t: string)
    requires SeamIsClear(a, b, t) && Find(a, t, 0).None?
    ensures NoneFromFront(a, b, t)
  {
    forall j | 0 <= j < |a| ensures !OccursAt(a + b, t, j) { OccursInFront(a, b, t, j); }
  }

  /** Across a clear seam a replacement works on each side by itself. */
  lemma {:induction false} ReplaceConcat(a: string, b: string, t: string, fill: string)
    requires t != "" && SeamIsClear(a, b, t)
    ensures ReplaceAll(a + b, t, fill) == ReplaceAll(a, t, fill) + ReplaceAll(b, t, fill)
    decreases |a|
  {
    if Find(a, t, 0).Some? {
      var k := Find(a, t, 0).value;
      var head, rest := a[..k], a[k + |t|..];
      assert a == a[..k + |t|] + rest;
      SeamOfSuffix(a[..k + |t|], rest, b, t);
      ReplaceConcat(rest, b, t, fill);
      ReplaceStep(a, b, t, fill, head, rest);
    } else {
      FreeFront(a, b, t);
      ReplaceInBack(a, b, t, fill);
      ReplaceNone(a, t, fill);
    }
  }

  lemma ReplaceStep(a: string, b: string, t: string, fill: string, head: string, rest: string)
    requires t != "" && CutsAtFind(a, t, head, rest)
    requires ReplaceAll(rest + b, t, fill) == ReplaceAll(rest, t, fill) + ReplaceAll(b, t, fill)
    ensures ReplaceAll(a + b, t, fill) == ReplaceAll(a, t, fill) + ReplaceAll(b, t, fill)
  {
    CutInFront(a, b, t, head, rest);
    ReplaceCut(a, t, fill, head, rest);
    ReplaceCut(a + b, t, fill, head, rest + b);
    Associates(head, fill, ReplaceAll(rest, t, fill), ReplaceAll(b, t, fill));
  }

  // ---- Replacing the empty string ----

  function Letters(s: string): seq<string> {
    seq(|s|, i requires 0 <= i < |s| => [s[i]])
  }

  /** The fill goes before every character and at the end. */
  lemma {:induction false} WeaveJoins(s: string, fill: string)
    ensures ReplaceAll(s, "", fill) == Join([""] + Letters(s) + [""], fill)
  {
    WeaveIsJoin(s, fill);
    JoinCons("", Letters(s) + [""], fill);
    assert [""] + Letters(s) + [""] == [""] + (Letters(s) + [""]);
  }

  lemma {:induction false} WeaveIsJoin(s: string, fill: string)
    ensures Weave(s, fill) == fill + Join(Letters(s) + [""], fill)
    decreases |s|
  {
    if s != "" {
      WeaveIsJoin(s[1..], fill);
      var tail := Letters(s[1..]) + [""];
      assert Letters(s) + [""] == [[s[0]]] + tail;
      JoinCons([s[0]], tail, fill);
    }
  }
}
