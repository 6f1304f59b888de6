/** The APPGATE_ROUTES parser of the gateway's router, and route selection. */
module RouteTable {
  import opened Common
  import opened Text

  datatype Route = Route(prefix: string, provider: string, upstream: string)

  datatype Router = Router(routes: seq<Route>, defaultUpstream: string)

  /** At most `n` pieces; the last one keeps what is left, separators and all. */
  function SplitN(s: string, n: nat, sep: string): (parts: seq<string>)
    requires n > 0 && sep != ""
    ensures 1 <= |parts| <= n
    decreases n
  {
    if n == 1 then [s] else
    match Find(s, sep, 0)
    case None => [s]
    case Some(k) => [s[..k]] + SplitN(s[k + |sep|..], n - 1, sep)
  }

  function ParseEntry(entry: string): Option<Route> {
    var parts := SplitN(entry, 3, "=");
    if |parts| == 3 then Some(Route(parts[0], parts[1], parts[2])) else None
  }

  /** The routes of the entries that have all three fields, in order. */
  function Collect(entries: seq<string>): seq<Route> {
    if entries == [] then []
    else
      var before := Collect(entries[..|entries| - 1]);
      match ParseEntry(entries[|entries| - 1])
      case Some(r) => before + [r]
      case None => before
  }

  function Parse(text: string): seq<Route> { Collect(Split(text, ",")) }

  method NewRouter(env: Option<string>, defaultUrl: string) returns (router: Router)
    ensures router.defaultUpstream == defaultUrl
    ensures env.Some? && Parse(env.value) != [] ==> router.routes == Parse(env.value)
    ensures env.None? || Parse(env.value) == [] ==>
              router.routes == [Route("/v1/chat/completions", "openai", defaultUrl)]
  {
    var routes := [];
    if env.Some? {
      var entries := Split(env.value, ",");
      for i := 0 to |entries|
        invariant routes == Collect(entries[..i])
      {
        assert entries[..i + 1][..i] == entries[..i];
        var parts := SplitN(entries[i], 3, "=");
        if |parts| == 3 {
          routes := routes + [Route(parts[0], parts[1], parts[2])];
        }
      }
      assert entries[..|entries|] == entries;
    }
    if routes == [] {
      routes := [Route("/v1/chat/completions", "openai", defaultUrl)];
    }
    return Router(routes, defaultUrl);
  }

  ghost predicate FirstFor(routes: seq<Route>, path: string, i: nat)
    requires i < |routes|
  {
    routes[i].prefix <= path && forall j :: 0 <= j < i ==> !(routes[j].prefix <= path)
  }

  /** The upstream of the first route whose prefix starts the path, else the default. */
  method Select(router: Router, path: string) returns (upstream: string)
    ensures (forall i :: 0 <= i < |router.routes| ==> !(router.routes[i].prefix <= path)) ==>
              upstream == router.defaultUpstream
    ensures forall i :: 0 <= i < |router.routes| && FirstFor(router.routes, path, i) ==>
              upstream == router.routes[i].upstream
  {
    for i := 0 to |router.routes|
      invariant forall j :: 0 <= j < i ==> !(router.routes[j].prefix <= path)
    {
      if router.routes[i].prefix <= path {
        return router.routes[i].upstream;
      }
    }
    return router.defaultUpstream;
  }

  // ---- Splitting at one character ----

  lemma OneLetter(s: string, c: char, k: nat)
    ensures OccursAt(s, [c], k) <==> k < |s| && s[k] == c
  {
    assert [c][0] == c;
  }

  lemma FindFirst(a: string, c: char, b: string)
    requires c !in a
    ensures Find(a + [c] + b, [c], 0) == Some(|a|)
  {
    var s := a + [c] + b;
    OneLetter(s, c, |a|);
    forall k | 0 <= k < |a| ensures !OccursAt(s, [c], k) {
      OneLetter(s, c, k);
      assert s[k] == a[k];
    }
  }

  lemma FindNone(s: string, c: char)
    ensures Find(s, [c], 0).None? <==> c !in s
    ensures Find(s, [c], 0).Some? ==> c !in s[..Find(s, [c], 0).value]
  {
    forall k | 0 <= k <= |s| ensures OccursAt(s, [c], k) <==> k < |s| && s[k] == c { OneLetter(s, c, k); }
  }

  lemma SplitFirst(a: string, c: char, b: string)
    requires c !in a
    ensures Split(a + [c] + b, [c]) == [a] + Split(b, [c])
  {
    var s := a + [c] + b;
    FindFirst(a, c, b);
    assert s[..|a|] == a && s[|a| + 1..] == b;
  }

  lemma CutAtFirst(a: string, c: char) returns (head: string, rest: string)
    requires c in a
    ensures a == head + [c] + rest && c !in head
  {
    FindNone(a, c);
    var k := Find(a, [c], 0).value;
    CutAt(a, [c], k);
    head, rest := a[..k], a[k + 1..];
  }

  lemma SplitNowhere(a: string, c: char)
    requires c !in a
    ensures Split(a, [c]) == [a]
  {
    FindNone(a, c);
  }

  /** Splitting distributes over a separator put between two texts. */
  lemma {:induction false} SplitConcat(a: string, c: char, b: string)
    ensures Split(a + [c] + b, [c]) == Split(a, [c]) + Split(b, [c])
    decreases |a|
  {
    if c !in a {
      SplitNowhere(a, c);
      SplitFirst(a, c, b);
    } else {
      var head, rest := CutAtFirst(a, c);
      SplitConcat(rest, c, b);
      calc {
        Split(a + [c] + b, [c]);
        { Regroup(head, [c], rest, b); }
        Split(head + [c] + (rest + [c] + b), [c]);
        { SplitFirst(head, c, rest + [c] + b); }
        [head] + (Split(rest, [c]) + Split(b, [c]));
        ([head] + Split(rest, [c])) + Split(b, [c]);
        { SplitFirst(head, c, rest); }
        Split(a, [c]) + Split(b, [c]);
      }
    }
  }

  lemma Regroup(head: string, sep: string, rest: string, b: string)
    ensures head + sep + rest + sep + b == head + sep + (rest + sep + b)
  {
  }

  lemma CollectSnoc(xs: seq<string>, x: string)
    ensures Collect(xs + [x]) == Collect(xs) + match ParseEntry(x) case Some(r) => [r] case None => []
  {
    assert (xs + [x])[..|xs + [x]| - 1] == xs;
  }

  lemma {:induction false} CollectConcat(xs: seq<string>, ys: seq<string>)
    ensures Collect(xs + ys) == Collect(xs) + Collect(ys)
  {
    if ys == [] {
      assert xs + ys == xs;
    } else {
      assert (xs + ys)[..|xs + ys| - 1] == xs + ys[..|ys| - 1];
      CollectConcat(xs, ys[..|ys| - 1]);
    }
  }

  // ---- Main results ----

  /** Entries do not disturb each other: parsing distributes over the comma, for any two texts. */
  lemma ParseConcat(a: string, b: string)
    ensures Parse(a + "," + b) == Parse(a) + Parse(b)
  {
    SplitConcat(a, ',', b);
    CollectConcat(Split(a, ","), Split(b, ","));
  }

  predicate WellFormed(r: Route) {
    && '=' !in r.prefix && ',' !in r.prefix
    && '=' !in r.provider && ',' !in r.provider
    && ',' !in r.upstream
  }

  function Render(r: Route): string { r.prefix + "=" + r.provider + "=" + r.upstream }

  function RenderAll(rs: seq<Route>): string {
    if rs == [] then ""
    else if |rs| == 1 then Render(rs[0])
    else Render(rs[0]) + "," + RenderAll(rs[1..])
  }

  lemma SplitNFirst(a: string, b: string, n: nat)
    requires '=' !in a && n > 1
    ensures SplitN(a + "=" + b, n, "=") == [a] + SplitN(b, n - 1, "=")
  {
    var s := a + "=" + b;
    FindFirst(a, '=', b);
    assert s[..|a|] == a && s[|a| + 1..] == b;
  }

  lemma SplitThree(a: string, b: string, c: string)
    requires '=' !in a && '=' !in b
    ensures SplitN(a + "=" + (b + "=" + c), 3, "=") == [a, b, c]
  {
    calc {
      SplitN(a + "=" + (b + "=" + c), 3, "=");
      { SplitNFirst(a, b + "=" + c, 3); }
      [a] + SplitN(b + "=" + c, 2, "=");
      { SplitNFirst(b, c, 2); }
      [a] + ([b] + SplitN(c, 1, "="));
      [a, b, c];
    }
  }

  lemma EntryRoundTrip(r: Route)
    requires '=' !in r.prefix && '=' !in r.provider
    ensures ParseEntry(Render(r)) == Some(r)
  {
    Regroup(r.prefix, "=", r.provider, r.upstream);
    SplitThree(r.prefix, r.provider, r.upstream);
  }

  /**
   Exactly which entries are routes: an entry parses to a route exactly when it is that route's three fields with equal
   signs between them, none in the first two; an entry parses to nothing exactly when it has fewer than two.
   */
  lemma EntryExactly(entry: string, r: Route)
    ensures ParseEntry(entry) == Some(r) <==> entry == Render(r) && '=' !in r.prefix && '=' !in r.provider
    ensures ParseEntry(entry) == None <==> !TwoSigns(entry)
  {
    if entry == Render(r) && '=' !in r.prefix && '=' !in r.provider { EntryRoundTrip(r); }
    if TwoSigns(entry) {
      var head, provider, upstream := CutTwice(entry);
      EntryRoundTrip(Route(head, provider, upstream));
    } else {
      FewSigns(entry);
    }
    if ParseEntry(entry).Some? { EntryRendered(entry); }
  }

  ghost predicate TwoSigns(entry: string) {
    exists i, j :: 0 <= i < j < |entry| && entry[i] == '=' && entry[j] == '='
  }

  lemma CutTwice(entry: string) returns (a: string, b: string, c: string)
    requires TwoSigns(entry)
    ensures entry == a + "=" + b + "=" + c && '=' !in a && '=' !in b
  {
    var i, j :| 0 <= i < j < |entry| && entry[i] == '=' && entry[j] == '=';
    var head, rest := CutAtFirst(entry, '=');
    assert rest == entry[|head| + 1..];
    assert j >= |head| + 1 && rest[j - |head| - 1] == '=';
    b, c := CutAtFirst(rest, '=');
    a := head;
    Regroup(a, "=", b, c);
  }

  lemma FewSigns(entry: string)
    requires !TwoSigns(entry)
    ensures ParseEntry(entry) == None
  {
    FindNone(entry, '=');
    if '=' in entry {
      var head, rest := CutAtFirst(entry, '=');
      assert entry[|head|] == '=';
      forall j | 0 <= j < |rest| ensures rest[j] != '=' { assert rest[j] == entry[|head| + 1 + j]; }
      SplitNFirst(head, rest, 3);
      FindNone(rest, '=');
      assert SplitN(rest, 2, "=") == [rest];
    }
  }

  lemma EntryRendered(entry: string)
    requires ParseEntry(entry).Some?
    ensures var r := ParseEntry(entry).value; entry == Render(r) && '=' !in r.prefix && '=' !in r.provider
  {
    if !TwoSigns(entry) { FewSigns(entry); }
    var a, b, c := CutTwice(entry);
    EntryRoundTrip(Route(a, b, c));
  }

  lemma ParseOne(entry: string)
    requires ',' !in entry
    ensures Parse(entry) == match ParseEntry(entry) case Some(r) => [r] case None => []
  {
    FindNone(entry, ',');
    CollectSnoc([], entry);
    assert Split(entry, ",") == [] + [entry];
  }

  lemma ParseRendered(r: Route)
    requires WellFormed(r)
    ensures Parse(Render(r)) == [r]
  {
    EntryRoundTrip(r);
    ParseOne(Render(r));
  }

  lemma {:induction false} RoundTrip(rs: seq<Route>)
    requires forall i :: 0 <= i < |rs| ==> WellFormed(rs[i])
    ensures Parse(RenderAll(rs)) == rs
  {
    if rs == [] {
      ParseNothing();
    } else {
      ParseRendered(rs[0]);
      if |rs| > 1 {
        RoundTrip(rs[1..]);
        ParseConcat(Render(rs[0]), RenderAll(rs[1..]));
      }
    }
  }

  lemma ParseNothing()
    ensures Parse("") == []
  {
    var empty := "";
    FindNone(empty, '=');
    ParseOne(empty);
  }

  /** A parsed entry is made of pieces of its text, cut at the first two equal signs. */
  lemma ParsedEntry(entry: string)
    requires ',' !in entry && ParseEntry(entry).Some?
    ensures WellFormed(ParseEntry(entry).value)
  {
    FindNone(entry, '=');
    var k := Find(entry, "=", 0).value;
    FindNone(entry[k + 1..], '=');
  }

  lemma {:induction false} CollectedWellFormed(entries: seq<string>, i: nat)
    requires (forall k :: 0 <= k < |entries| ==> ',' !in entries[k]) && i < |Collect(entries)|
    ensures WellFormed(Collect(entries)[i])
  {
    var n := |entries| - 1;
    if i < |Collect(entries[..n])| {
      CollectedWellFormed(entries[..n], i);
    } else {
      ParsedEntry(entries[n]);
    }
  }

  lemma ParsedWellFormed(text: string, i: nat)
    requires i < |Parse(text)|
    ensures WellFormed(Parse(text)[i])
  {
    var entries := Split(text, ",");
    forall k | 0 <= k < |entries| ensures ',' !in entries[k] {
      SplitPartsFree(text, ",", k);
      FindNone(entries[k], ',');
      if ',' in entries[k] { ContainsAt(entries[k], ",", Find(entries[k], ",", 0).value); }
    }
    CollectedWellFormed(entries, i);
  }

  /** Rendering a route list and parsing it gives the list back exactly when every route is well formed. */
  lemma RoundTripExactly(rs: seq<Route>)
    ensures Parse(RenderAll(rs)) == rs <==> forall i :: 0 <= i < |rs| ==> WellFormed(rs[i])
  {
    if forall i :: 0 <= i < |rs| ==> WellFormed(rs[i]) {
      RoundTrip(rs);
    }
    forall i | 0 <= i < |Parse(RenderAll(rs))| ensures WellFormed(Parse(RenderAll(rs))[i]) {
      ParsedWellFormed(RenderAll(rs), i);
    }
  }
}
