/**
 Prompt-injection scoring and the order of checks in `InspectPrompt`.

 Scores are in tenths. `lower` is the per-character lower-casing that `strings.ToLower` applies; the
 theorems hold for every such map. What PII was found is an input.
 */
module PromptInspection {
  import opened Common
  import opened Text

  const MARKERS := [
    "ignore previous instructions",
    "ignore your previous",
    "disregard all prior",
    "system override",
    "you are now in",
    "new instruction:",
    "developer mode",
    "jailbreak",
    "DAN mode",
    "do anything now"]

  function Lower(s: string, lower: char -> char): (r: string)
    ensures |r| == |s| && forall i :: 0 <= i < |s| ==> r[i] == lower(s[i])
  {
    seq(|s|, i requires 0 <= i < |s| => lower(s[i]))
  }

  function CountOf(s: string, c: char): nat {
    if s == "" then 0 else CountOf(s[..|s| - 1], c) + if s[|s| - 1] == c then 1 else 0
  }

  /** How many of the listed markers the lower-cased prompt holds. */
  function Hits(markers: seq<string>, lowered: string): nat {
    if markers == [] then 0
    else Hits(markers[..|markers| - 1], lowered) + if Contains(lowered, markers[|markers| - 1]) then 1 else 0
  }

  function QuoteTenths(prompt: string): nat {
    if CountOf(prompt, '"') > 20 || CountOf(prompt, '\'') > 20 then 2 else 0
  }

  function NewlineTenths(prompt: string): nat {
    if CountOf(prompt, '\n') > 10 then 1 else 0
  }

  /** Three tenths per marker, two for many quotes, one for many newlines, capped at ten. */
  function Score(prompt: string, lower: char -> char): (tenths: nat)
    ensures tenths <= 10
  {
    var raw := 3 * Hits(MARKERS, Lower(prompt, lower)) + QuoteTenths(prompt) + NewlineTenths(prompt);
    if raw > 10 then 10 else raw
  }

  method DetectPromptInjection(prompt: string, lower: char -> char) returns (score: nat)
    ensures score == Score(prompt, lower)
  {
    score := 0;
    var lowered := Lower(prompt, lower);
    for i := 0 to |MARKERS|
      invariant score == 3 * Hits(MARKERS[..i], lowered)
    {
      assert MARKERS[..i + 1][..i] == MARKERS[..i];
      if Contains(lowered, MARKERS[i]) {
        score := score + 3;
      }
    }
    assert MARKERS[..|MARKERS|] == MARKERS;
    if CountOf(prompt, '"') > 20 || CountOf(prompt, '\'') > 20 {
      score := score + 2;
    }
    if CountOf(prompt, '\n') > 10 {
      score := score + 1;
    }
    if score > 10 {
      score := 10;
    }
  }

  /** The accumulated marker score counts each marker that occurs, once, however often it occurs. */
  lemma {:induction false} HitsIsCardinality(markers: seq<string>, lowered: string)
    ensures Hits(markers, lowered) == |set i | 0 <= i < |markers| && Contains(lowered, markers[i])|
  {
    if markers != [] {
      var n := |markers| - 1;
      HitsIsCardinality(markers[..n], lowered);
      var before := set i | 0 <= i < n && Contains(lowered, markers[..n][i]);
      var all := set i | 0 <= i < |markers| && Contains(lowered, markers[i]);
      assert all == before + if Contains(lowered, markers[n]) then {n} else {};
    }
  }

  /** Counting over prefixes counts the positions of the character. */
  lemma {:induction false} CountOfIsCardinality(s: string, c: char)
    ensures CountOf(s, c) == |Positions(s, c)|
  {
    if s != "" {
      var n := |s| - 1;
      CountOfIsCardinality(s[..n], c);
      assert Positions(s, c) == Positions(s[..n], c) + if s[n] == c then {n} else {};
    }
  }

  function Positions(s: string, c: char): set<nat> {
    set i: nat | i < |s| && s[i] == c
  }

  function Found(prompt: string, lower: char -> char): set<nat> {
    set i: nat | i < |MARKERS| && Contains(Lower(prompt, lower), MARKERS[i])
  }

  /** The sum before the cap, over what can be found in the prompt. */
  function RawTenths(prompt: string, lower: char -> char): nat {
    3 * |Found(prompt, lower)|
    + (if |Positions(prompt, '"')| > 20 || |Positions(prompt, '\'')| > 20 then 2 else 0)
    + (if |Positions(prompt, '\n')| > 10 then 1 else 0)
  }

  function Capped(prompt: string, lower: char -> char): nat {
    if RawTenths(prompt, lower) >= 10 then 10 else RawTenths(prompt, lower)
  }

  /** The score is that sum, and ten from there on. */
  lemma ScoreExactly(prompt: string, lower: char -> char)
    ensures Score(prompt, lower) == Capped(prompt, lower)
    ensures Score(prompt, lower) == 10 <==> RawTenths(prompt, lower) >= 10
  {
    var lowered := Lower(prompt, lower);
    HitsIsCardinality(MARKERS, lowered);
    assert Found(prompt, lower) == set i | 0 <= i < |MARKERS| && Contains(lowered, MARKERS[i]);
    CountOfIsCardinality(prompt, '"');
    CountOfIsCardinality(prompt, '\'');
    CountOfIsCardinality(prompt, '\n');
  }

  // ---- Adding text never lowers the score ----

  lemma {:induction false} CountOfConcat(a: string, b: string, c: char)
    ensures CountOf(a + b, c) == CountOf(a, c) + CountOf(b, c)
  {
    if b == "" {
      assert a + b == a;
    } else {
      var n := |b| - 1;
      CountOfConcat(a, b[..n], c);
      assert (a + b)[..|a + b| - 1] == a + b[..n];
    }
  }

  lemma {:induction false} HitsGrow(markers: seq<string>, before: string, mid: string, after: string)
    ensures Hits(markers, mid) <= Hits(markers, before + mid + after)
  {
    if markers != [] {
      var last := markers[|markers| - 1];
      HitsGrow(markers[..|markers| - 1], before, mid, after);
      if Contains(mid, last) { ContainsWithin(before, mid, after, last); }
    }
  }

  lemma ScoreGrows(before: string, prompt: string, after: string, lower: char -> char)
    ensures Score(prompt, lower) <= Score(before + prompt + after, lower)
  {
    var whole := before + prompt + after;
    assert Lower(whole, lower) == Lower(before, lower) + Lower(prompt, lower) + Lower(after, lower);
    HitsGrow(MARKERS, Lower(before, lower), Lower(prompt, lower), Lower(after, lower));
    forall c: char ensures CountOf(prompt, c) <= CountOf(whole, c) {
      CountOfConcat(before + prompt, after, c);
      CountOfConcat(before, prompt, c);
    }
  }

  ghost predicate Producible(c: char, lower: char -> char) {
    exists original :: lower(original) == c
  }

  ghost predicate Matchable(marker: string, lower: char -> char) {
    exists prompt :: Contains(Lower(prompt, lower), marker)
  }

  /** A marker can be matched by some prompt exactly when lower-casing can produce each of its characters. */
  lemma MarkerIsLive(marker: string, lower: char -> char)
    ensures Matchable(marker, lower) <==> forall c :: c in marker ==> Producible(c, lower)
  {
    if Matchable(marker, lower) {
      var prompt :| Contains(Lower(prompt, lower), marker);
      var k :| 0 <= k <= |prompt| && OccursAt(Lower(prompt, lower), marker, k);
      forall c | c in marker ensures Producible(c, lower) {
        var i :| 0 <= i < |marker| && marker[i] == c;
        assert lower(prompt[k + i]) == Lower(prompt, lower)[k + i] == c;
      }
    }
    if forall c :: c in marker ==> Producible(c, lower) {
      var prompt := Preimage(marker, lower);
      assert OccursAt(Lower(prompt, lower), marker, 0);
      ContainsAt(Lower(prompt, lower), marker, 0);
    }
  }

  ghost function Preimage(marker: string, lower: char -> char): (prompt: string)
    requires forall c :: c in marker ==> Producible(c, lower)
    ensures Lower(prompt, lower) == marker
  {
    if marker == "" then ""
    else
      var n := |marker| - 1;
      assert marker[n] in marker && Producible(marker[n], lower);
      var c :| lower(c) == marker[n];
      Preimage(marker[..n], lower) + [c]
  }

  /** The listed marker "DAN mode" is dead: lower-casing yields no capital D, so no prompt ever matches it. */
  lemma DanModeIsNeverMatched(prompt: string, lower: char -> char)
    requires forall c :: lower(c) != 'D'
    ensures "DAN mode" in MARKERS && !Contains(Lower(prompt, lower), "DAN mode")
  {
    assert MARKERS[8] == "DAN mode";
    MarkerIsLive("DAN mode", lower);
    assert "DAN mode"[0] == 'D' && !Producible('D', lower);
  }

  // ---- The order of checks ----

  datatype Config = Config(
    injectionEnabled: bool, injectionThreshold: real, piiEnabled: bool, piiMode: string, maxPromptLength: int)

  datatype Violation = PromptInjection(tenths: nat) | PiiDetected(found: map<string, seq<string>>)

  predicate Injected(cfg: Config, prompt: string, lower: char -> char) {
    cfg.injectionEnabled && Score(prompt, lower) as real / 10.0 > cfg.injectionThreshold
  }

  /** The length of the UTF-8 encoding, which is what `len` measures. */
  function ByteLength(text: string): nat {
    if text == "" then 0
    else
      var c := text[|text| - 1] as int;
      ByteLength(text[..|text| - 1]) + if c < 0x80 then 1 else if c < 0x800 then 2 else if c < 0x1_0000 then 3 else 4
  }

  predicate TooLong(cfg: Config, prompt: string) {
    cfg.maxPromptLength > 0 && ByteLength(prompt) > cfg.maxPromptLength
  }

  predicate PiiSeen(cfg: Config, found: map<string, seq<string>>) {
    cfg.piiEnabled && |found| > 0
  }

  method InspectPrompt(cfg: Config, prompt: string, found: map<string, seq<string>>, lower: char -> char)
    returns (allowed: bool, reason: string, violations: set<Violation>)
    ensures reason == "prompt_injection_detected" <==> Injected(cfg, prompt, lower)
    ensures reason == "pii_blocked" <==>
              !Injected(cfg, prompt, lower) && PiiSeen(cfg, found) && cfg.piiMode == "block"
    ensures reason == "pii_masked" <==>
              !Injected(cfg, prompt, lower) && PiiSeen(cfg, found) && cfg.piiMode == "mask"
    ensures reason == "prompt_too_long" <==>
              !Injected(cfg, prompt, lower) && TooLong(cfg, prompt)
              && !(PiiSeen(cfg, found) && cfg.piiMode in {"block", "mask"})
    ensures !allowed <==> reason in {"prompt_injection_detected", "pii_blocked", "prompt_too_long"}
    // The two thresholds are exclusive.
    ensures reason == "prompt_injection_detected" ==>
              cfg.injectionEnabled && Capped(prompt, lower) as real / 10.0 > cfg.injectionThreshold
    ensures cfg.injectionEnabled && reason != "prompt_injection_detected" ==>
              Capped(prompt, lower) as real / 10.0 <= cfg.injectionThreshold
    ensures reason == "prompt_too_long" ==> ByteLength(prompt) > cfg.maxPromptLength > 0
    ensures reason == "ok" ==> cfg.maxPromptLength <= 0 || ByteLength(prompt) <= cfg.maxPromptLength
    // A prompt over the length limit gets through exactly when its PII is only masked.
    ensures allowed && TooLong(cfg, prompt) <==> reason == "pii_masked" && TooLong(cfg, prompt)
    ensures violations ==
              if Injected(cfg, prompt, lower) then {PromptInjection(Score(prompt, lower))}
              else if PiiSeen(cfg, found) then {PiiDetected(found)} else {}
  {
    violations := {};
    ScoreExactly(prompt, lower);
    if cfg.injectionEnabled {
      var score := DetectPromptInjection(prompt, lower);
      if score as real / 10.0 > cfg.injectionThreshold {
        return false, "prompt_injection_detected", {PromptInjection(score)};
      }
    }
    if cfg.piiEnabled {
      if |found| > 0 {
        violations := {PiiDetected(found)};
        if cfg.piiMode == "block" {
          return false, "pii_blocked", violations;
        } else if cfg.piiMode == "mask" {
          return true, "pii_masked", violations;
        }
      }
    }
    if cfg.maxPromptLength > 0 && ByteLength(prompt) > cfg.maxPromptLength {
      return false, "prompt_too_long", violations;
    }
    return true, "ok", violations;
  }

  /** A prompt that holds a prompt rejected for injection is itself rejected for injection. */
  lemma RejectionSpreads(cfg: Config, before: string, prompt: string, after: string, lower: char -> char)
    requires Injected(cfg, prompt, lower)
    ensures Injected(cfg, before + prompt + after, lower)
  {
    ScoreGrows(before, prompt, after, lower);
  }

  lemma {:induction false} ByteLengthConcat(a: string, b: string)
    ensures ByteLength(a + b) == ByteLength(a) + ByteLength(b)
    decreases |b|
  {
    if b == "" {
      assert a + b == a;
    } else {
      assert (a + b)[..|a + b| - 1] == a + b[..|b| - 1];
      ByteLengthConcat(a, b[..|b| - 1]);
    }
  }

  predicate Beyond(c: char, limit: int) { c as int >= limit }

  function PlacesBeyond(text: string, limit: int): set<nat> {
    set i: nat | i < |text| && Beyond(text[i], limit)
  }

  lemma PlacesSnoc(text: string, limit: int)
    requires text != ""
    ensures var n := |text| - 1;
            |PlacesBeyond(text, limit)| == |PlacesBeyond(text[..n], limit)| + One(Beyond(text[n], limit))
  {
    var n := |text| - 1;
    assert PlacesBeyond(text, limit) == PlacesBeyond(text[..n], limit) + if Beyond(text[n], limit) then {n} else {};
  }

  /** One byte a character, and one more for each of three bounds that its code reaches. */
  lemma {:induction false} ByteLengthExactly(text: string)
    ensures ByteLength(text)
            == |text| + |PlacesBeyond(text, 0x80)| + |PlacesBeyond(text, 0x800)| + |PlacesBeyond(text, 0x1_0000)|
  {
    if text != "" {
      ByteLengthExactly(text[..|text| - 1]);
      PlacesSnoc(text, 0x80);
      PlacesSnoc(text, 0x800);
      PlacesSnoc(text, 0x1_0000);
    }
  }

  /** A prompt is over the limit whenever a part of it is, and whenever it has more characters than the limit. */
  lemma TooLongSpreads(cfg: Config, before: string, prompt: string, after: string)
    ensures TooLong(cfg, prompt) ==> TooLong(cfg, before + prompt + after)
    ensures 0 < cfg.maxPromptLength < |prompt| ==> TooLong(cfg, prompt)
  {
    ByteLengthConcat(before + prompt, after);
    ByteLengthConcat(before, prompt);
    ByteLengthAtLeast(prompt);
  }

  lemma {:induction false} ByteLengthAtLeast(text: string)
    ensures |text| <= ByteLength(text) <= 4 * |text|
  {
    if text != "" { ByteLengthAtLeast(text[..|text| - 1]); }
  }
}
