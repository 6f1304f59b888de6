/** The Redis sorted-set commands the gateway's limiter issues, on the one key of one identity. Times are in ms. */
module SortedSetKey {
  import opened Common
  import opened StoredKey

  /** Scores only: members carry a fresh UUID, so two additions never collide. */
  type Key = Stored<seq<nat>>

  function Scores(key: Key): seq<nat> {
    if key.Missing? then [] else key.content
  }

  /** The elements above `cut`, in order. */
  function After(log: seq<nat>, cut: int): (kept: seq<nat>)
    ensures |kept| <= |log|
  {
    if log == [] then []
    else
      var last, kept := log[|log| - 1], After(log[..|log| - 1], cut);
      if last > cut then kept + [last] else kept
  }

  /** ZREMRANGEBYSCORE key 0 upTo; an emptied set is a missing key. */
  function RemoveUpTo(key: Key, upTo: nat): (left: Key)
    ensures left.ZSet? ==> left.content != [] && key.ZSet? && left.deadline == key.deadline
  {
    var kept := After(Scores(key), upTo);
    if kept == [] then Missing else key.(content := kept)
  }

  function Add(key: Key, score: nat): Key {
    if key.Missing? then ZSet([score], None) else key.(content := key.content + [score])
  }

  /** EXPIRE key seconds at time `now`; a lifetime of zero deletes the key. */
  function ExpireIn(key: Key, now: nat, seconds: nat): Key {
    if key.Missing? || seconds == 0 then Missing else key.(deadline := Some(now + 1000 * seconds))
  }

  function PlacesAfter(log: seq<nat>, cut: int): set<nat> {
    set i: nat | i < |log| && log[i] > cut
  }

  /** What is kept are the elements above the cut, as many as there are, each of them one of the log. */
  lemma {:induction false} AfterExactly(log: seq<nat>, cut: int)
    ensures |After(log, cut)| == |PlacesAfter(log, cut)|
    ensures forall x :: x in After(log, cut) <==> x in log && x > cut
  {
    if log != [] {
      var n := |log| - 1;
      AfterExactly(log[..n], cut);
      assert PlacesAfter(log, cut) == PlacesAfter(log[..n], cut) + if log[n] > cut then {n} else {};
      assert log == log[..n] + [log[n]];
    }
  }

  lemma AfterSnoc(log: seq<nat>, x: nat, cut: int)
    ensures After(log + [x], cut) == if x > cut then After(log, cut) + [x] else After(log, cut)
  {
    assert (log + [x])[..|log + [x]| - 1] == log;
  }

  lemma {:induction false} AfterAfter(log: seq<nat>, cut: int, cut': int)
    requires cut <= cut'
    ensures After(After(log, cut), cut') == After(log, cut')
  {
    if log != [] {
      var front, last := log[..|log| - 1], log[|log| - 1];
      AfterAfter(front, cut, cut');
      if last > cut { AfterSnoc(After(front, cut), last, cut'); }
    }
  }

  lemma {:induction false} AfterNone(log: seq<nat>, cut: int)
    requires forall i :: 0 <= i < |log| ==> log[i] <= cut
    ensures After(log, cut) == []
  {
    if log != [] { AfterNone(log[..|log| - 1], cut); }
  }

  /** A saturated cut is as good as the exact one on a positive log. */
  lemma {:induction false} AfterSaturated(log: seq<nat>, cut: int)
    requires forall i :: 0 <= i < |log| ==> 0 < log[i]
    ensures After(log, cut) == After(log, if cut < 0 then 0 else cut)
  {
    if log != [] { AfterSaturated(log[..|log| - 1], cut); }
  }
}

/**
 The sliding-window limiter with each check taken as one atomic step.

 The reference keeps every admission for ever and counts those in the last window; the limiter prunes and
 lets the key expire. Limit and window are those of one identity and stay the same over a run.
 */
module SlidingWindow {
  import opened Common
  import opened StoredKey
  import opened SortedSetKey

  const U64 := 0x1_0000_0000_0000_0000
  const I64 := 0x8000_0000_0000_0000
  const F64_EXACT := 0x20_0000_0000_0000

  /** Both numbers of a configuration are unsigned 64-bit. */
  datatype Quota = Quota(limit: nat, window: nat)

  /** Within this range no product and no deadline overflows. */
  predicate InRange(q: Quota, now: nat) {
    q.limit < U64 && now < F64_EXACT && now + 1000 * q.window < I64
  }

  /** `x as i64`. */
  function Signed(x: nat): int {
    if x < I64 then x else x - U64
  }

  function SignedLimit(q: Quota): int { Signed(q.limit) }

  function WindowStart(now: nat, q: Quota): nat {
    if now >= 1000 * q.window then now - 1000 * q.window else 0
  }

  function Check(key: Key, now: nat, q: Quota): (Key, bool) {
    var pruned := RemoveUpTo(Visible(key, now), WindowStart(now, q));
    if |Scores(pruned)| >= SignedLimit(q) then (pruned, false)
    else (ExpireIn(Add(pruned, now), now, q.window), true)
  }

  // ---- The check on the whole 64-bit range ----

  const MAX_EXPIRE := 9223372036854775

  /** EXPIRE with a signed lifetime: refused when the deadline leaves 64 bits, a deletion when it is not ahead. */
  function ExpireSigned(key: Key, now: nat, seconds: int): Option<Key> {
    if seconds > MAX_EXPIRE || seconds < -MAX_EXPIRE || 1000 * seconds + now >= I64 then None
    else if seconds <= 0 then Some(Missing)
    else Some(ExpireIn(key, now, seconds))
  }

  /** A lifetime that turns into zero or a small negative one. */
  predicate Forgets(q: Quota) {
    q.window == 0 || (q.window < U64 && U64 - q.window <= MAX_EXPIRE)
  }

  /** The start of the window with the product as it wraps. */
  function WideStart(now: nat, q: Quota): nat {
    var span := 1000 * q.window % U64;
    if now >= span then now - span else 0
  }

  /** The product wraps, both casts may turn negative, and a refused EXPIRE fails the check after its ZADD. */
  function CheckWide(key: Key, now: nat, q: Quota): (Key, Option<bool>) {
    var pruned := RemoveUpTo(Visible(key, now), WideStart(now, q));
    if |Scores(pruned)| >= SignedLimit(q) then (pruned, Some(false))
    else
      var added := Add(pruned, now);
      match ExpireSigned(added, now, Signed(q.window))
      case None => (added, None)
      case Some(kept) => (kept, Some(true))
  }

  /** The service of one identity; its stored key changes command by command. */
  class RateLimiterService {
    var key: Key

    constructor ()
      ensures key == Missing
    {
      key := Missing;
    }

    /** `None` is an error from Redis, passed on to the caller. */
    method CheckRedis(now: nat, q: Quota) returns (answer: Option<bool>)
      requires q.limit < U64 && q.window < U64 && now < F64_EXACT
      modifies this
      ensures (key, answer) == CheckWide(old(key), now, q)
      ensures InRange(q, now) ==> (key, answer) == (Check(old(key), now, q).0, Some(Check(old(key), now, q).1))
    {
      var windowStart := WideStart(now, q);
      if InRange(q, now) { WideCheck(key, now, q); }
      key := RemoveUpTo(Visible(key, now), windowStart);
      var count := |Scores(key)|;
      if count >= SignedLimit(q) {
        return Some(false);
      }
      key := Add(key, now);
      var expired := ExpireSigned(key, now, Signed(q.window));
      if expired.None? {
        return None;
      }
      key := expired.value;
      return Some(true);
    }
  }

  /** One wide check at each listed time: the key left, and the answers. */
  function PlayWide(clock: seq<nat>, q: Quota): (r: (Key, seq<Option<bool>>))
    ensures |r.1| == |clock|
  {
    if clock == [] then (Missing, [])
    else
      var (before, answers) := PlayWide(clock[..|clock| - 1], q);
      var (key, answer) := CheckWide(before, clock[|clock| - 1], q);
      (key, answers + [answer])
  }

  lemma WideCheck(key: Key, now: nat, q: Quota)
    requires InRange(q, now)
    ensures CheckWide(key, now, q) == (Check(key, now, q).0, Some(Check(key, now, q).1))
  {
    assert 1000 * q.window % U64 == 1000 * q.window;
  }

  /** In range, whole runs of the two checks agree, so what is proved of `Play` holds of the service. */
  lemma {:induction false} WideIsPlain(clock: seq<nat>, q: Quota)
    requires forall i :: 0 <= i < |clock| ==> InRange(q, clock[i])
    ensures PlayWide(clock, q).0 == Play(clock, q).key
    ensures forall i :: 0 <= i < |clock| ==> PlayWide(clock, q).1[i] == Some(Play(clock, q).answers[i])
  {
    if clock != [] {
      WideIsPlain(clock[..|clock| - 1], q);
      WideCheck(Play(clock[..|clock| - 1], q).key, clock[|clock| - 1], q);
    }
  }

  /** What a window does to a limiter whose limit is positive. */
  lemma WindowKinds(key: Key, now: nat, q: Quota)
    requires 0 < q.limit < I64 && q.window < U64 && now < F64_EXACT
    ensures var (key', answer) := CheckWide(key, now, q);
            && (Forgets(q) ==> answer != None && (answer == Some(true) ==> key' == Missing))
            && (MAX_EXPIRE < q.window < U64 - MAX_EXPIRE ==> answer != Some(true))
  {
  }

  /** A window of zero, or one that turns into a small negative lifetime, forgets each entry: everything is admitted. */
  lemma {:induction false} ForgetfulWindow(clock: seq<nat>, q: Quota)
    requires 0 < q.limit < I64 && Forgets(q)
    requires forall i :: 0 <= i < |clock| ==> clock[i] < F64_EXACT
    ensures PlayWide(clock, q).0 == Missing
    ensures forall i :: 0 <= i < |clock| ==> PlayWide(clock, q).1[i] == Some(true)
  {
    if clock != [] {
      ForgetfulWindow(clock[..|clock| - 1], q);
      WindowKinds(Missing, clock[|clock| - 1], q);
    }
  }

  /** A window between those two ranges is refused by EXPIRE: nobody is ever told yes. */
  lemma {:induction false} RefusedWindow(clock: seq<nat>, q: Quota)
    requires 0 < q.limit < I64 && MAX_EXPIRE < q.window < U64 - MAX_EXPIRE
    requires forall i :: 0 <= i < |clock| ==> clock[i] < F64_EXACT
    ensures forall i :: 0 <= i < |clock| ==> PlayWide(clock, q).1[i] != Some(true)
  {
    if clock != [] {
      RefusedWindow(clock[..|clock| - 1], q);
      WindowKinds(PlayWide(clock[..|clock| - 1], q).0, clock[|clock| - 1], q);
    }
  }

  // ---- Runs ----

  datatype Run = Run(key: Key, admitted: seq<nat>, answers: seq<bool>)

  /** One check at each listed time. */
  function Play(clock: seq<nat>, q: Quota): (r: Run)
    ensures |r.answers| == |clock|
  {
    if clock == [] then Run(Missing, [], [])
    else
      var before, now := Play(clock[..|clock| - 1], q), clock[|clock| - 1];
      var (key, ok) := Check(before.key, now, q);
      Run(key, Extend(before.admitted, now, ok), before.answers + [ok])
  }

  /** Fewer than `limit` admissions lie in the last window. */
  predicate HasRoom(log: seq<nat>, now: nat, q: Quota) {
    |After(log, now - 1000 * q.window)| < q.limit
  }

  /** There is room exactly when fewer than `limit` admissions are less than a window old. */
  lemma HasRoomExactly(log: seq<nat>, now: nat, q: Quota)
    ensures HasRoom(log, now, q) <==> |PlacesAfter(log, now - 1000 * q.window)| < q.limit
  {
    AfterExactly(log, now - 1000 * q.window);
  }

  function Extend(log: seq<nat>, now: nat, ok: bool): seq<nat> {
    if ok then log + [now] else log
  }

  /** What the limiter promises, with every admission kept for ever. */
  function Reference(clock: seq<nat>, q: Quota): (r: (seq<nat>, seq<bool>))
    ensures |r.1| == |clock|
  {
    if clock == [] then ([], [])
    else
      var (log, answers) := Reference(clock[..|clock| - 1], q);
      var now := clock[|clock| - 1];
      (Extend(log, now, HasRoom(log, now, q)), answers + [HasRoom(log, now, q)])
  }

  ghost predicate Clock(clock: seq<nat>) {
    && (forall i :: 0 <= i < |clock| ==> 0 < clock[i])
    && (forall i, j :: 0 <= i < j < |clock| ==> clock[i] <= clock[j])
  }

  ghost predicate AllUpTo(log: seq<nat>, t: int) {
    forall i :: 0 <= i < |log| ==> 0 < log[i] <= t
  }

  /** The store holds the admissions of the last window; a deadline lies a window after all of them. */
  ghost predicate Holds(key: Key, log: seq<nat>, now: nat, q: Quota) {
    && Scores(key) == After(log, now - 1000 * q.window)
    && AllUpTo(log, now)
    && (key.ZSet? ==> key.deadline.Some? && AllUpTo(log, key.deadline.value - 1000 * q.window))
  }

  lemma {:induction false} AfterPositive(log: seq<nat>, cut: int)
    requires forall i :: 0 <= i < |log| ==> 0 < log[i]
    ensures forall i :: 0 <= i < |After(log, cut)| ==> 0 < After(log, cut)[i]
  {
    if log != [] { AfterPositive(log[..|log| - 1], cut); }
  }

  /** A check prunes exactly to the last window, whether or not the key has expired meanwhile. */
  lemma PruneShowsTheWindow(key: Key, log: seq<nat>, prev: nat, now: nat, q: Quota)
    requires Holds(key, log, prev, q) && prev <= now
    ensures Scores(RemoveUpTo(Visible(key, now), WindowStart(now, q))) == After(log, now - 1000 * q.window)
  {
    var cut := now - 1000 * q.window;
    if Visible(key, now) != key {
      AfterNone(log, cut);
    } else {
      PruneLive(log, prev - 1000 * q.window, cut, WindowStart(now, q));
    }
  }

  lemma PruneLive(log: seq<nat>, cut: int, cut': int, saturated: nat)
    requires cut <= cut' && (forall i :: 0 <= i < |log| ==> 0 < log[i])
    requires saturated == if cut' < 0 then 0 else cut'
    ensures After(After(log, cut), saturated) == After(log, cut')
  {
    AfterAfter(log, cut, cut');
    AfterPositive(log, cut);
    AfterSaturated(After(log, cut), cut');
  }

  lemma AdmitAppends(pruned: Key, log: seq<nat>, now: nat, q: Quota)
    requires Scores(pruned) == After(log, now - 1000 * q.window) && q.window > 0
    ensures Scores(ExpireIn(Add(pruned, now), now, q.window)) == After(log + [now], now - 1000 * q.window)
  {
    AfterSnoc(log, now, now - 1000 * q.window);
  }

  lemma AllUpToSnoc(log: seq<nat>, x: nat, t: int)
    requires AllUpTo(log, t) && 0 < x <= t
    ensures AllUpTo(log + [x], t)
  {
  }

  lemma NothingAfterNow(log: seq<nat>, now: nat)
    requires AllUpTo(log, now)
    ensures After(log, now) == []
  {
    AfterNone(log, now);
  }

  lemma AdmitKeeps(pruned: Key, log: seq<nat>, now: nat, q: Quota)
    requires Scores(pruned) == After(log, now - 1000 * q.window) && AllUpTo(log, now) && 0 < now
    ensures Holds(ExpireIn(Add(pruned, now), now, q.window), log + [now], now, q)
  {
    var key, log' := ExpireIn(Add(pruned, now), now, q.window), log + [now];
    AllUpToSnoc(log, now, now);
    if q.window > 0 {
      AdmitAppends(pruned, log, now, q);
      assert key.ZSet? && key.deadline == Some(now + 1000 * q.window);
    } else {
      NothingAfterNow(log', now);
    }
  }

  lemma DenyKeeps(key: Key, pruned: Key, log: seq<nat>, prev: nat, now: nat, q: Quota)
    requires Holds(key, log, prev, q) && prev <= now
    requires pruned == RemoveUpTo(Visible(key, now), WindowStart(now, q))
    requires Scores(pruned) == After(log, now - 1000 * q.window)
    ensures Holds(pruned, log, now, q)
  {
    assert pruned.ZSet? ==> pruned.deadline == key.deadline;
  }

  /** How an answer stands to the promised limit: never too generous, exact below 2^63, and always no from there on. */
  predicate AnswerFits(ok: bool, log: seq<nat>, now: nat, q: Quota) {
    && (ok ==> HasRoom(log, now, q))
    && (q.limit < I64 ==> ok == HasRoom(log, now, q))
    && (I64 <= q.limit < U64 ==> !ok)
  }

  lemma CheckKeeps(key: Key, log: seq<nat>, prev: nat, now: nat, q: Quota)
    requires Holds(key, log, prev, q) && prev <= now && 0 < now
    ensures var (key', ok) := Check(key, now, q);
            && AnswerFits(ok, log, now, q)
            && Holds(key', Extend(log, now, ok), now, q)
  {
    PruneShowsTheWindow(key, log, prev, now, q);
    var pruned := RemoveUpTo(Visible(key, now), WindowStart(now, q));
    if |Scores(pruned)| < SignedLimit(q) { AdmitKeeps(pruned, log, now, q); }
    else { DenyKeeps(key, pruned, log, prev, now, q); }
  }

  function Latest(clock: seq<nat>): nat {
    if clock == [] then 0 else clock[|clock| - 1]
  }

  /** After every run the store holds the admissions of the last window. */
  lemma {:induction false} HoldsAlways(clock: seq<nat>, q: Quota)
    requires Clock(clock)
    ensures Holds(Play(clock, q).key, Play(clock, q).admitted, Latest(clock), q)
  {
    if clock != [] {
      var earlier := clock[..|clock| - 1];
      HoldsAlways(earlier, q);
      CheckKeeps(Play(earlier, q).key, Play(earlier, q).admitted, Latest(earlier), Latest(clock), q);
    }
  }

  /** The latest answer, against the admissions before it. */
  lemma LatestAnswer(clock: seq<nat>, q: Quota) returns (ok: bool)
    requires Clock(clock) && clock != []
    ensures var earlier, now := Play(clock[..|clock| - 1], q), Latest(clock);
            && AnswerFits(ok, earlier.admitted, now, q)
            && Play(clock, q).admitted == Extend(earlier.admitted, now, ok)
            && Play(clock, q).answers == earlier.answers + [ok]
  {
    var earlier := clock[..|clock| - 1];
    ok := Check(Play(earlier, q).key, Latest(clock), q).1;
    HoldsAlways(earlier, q);
    CheckKeeps(Play(earlier, q).key, Play(earlier, q).admitted, Latest(earlier), Latest(clock), q);
  }

  lemma LatestOfReference(clock: seq<nat>, q: Quota)
    requires clock != []
    ensures var log, now := Reference(clock[..|clock| - 1], q).0, Latest(clock);
            && Reference(clock, q).0 == Extend(log, now, HasRoom(log, now, q))
            && Reference(clock, q).1 == Reference(clock[..|clock| - 1], q).1 + [HasRoom(log, now, q)]
  {
  }

  lemma {:induction false} SmallLimitIsReference(clock: seq<nat>, q: Quota)
    requires Clock(clock) && q.limit < I64
    ensures Play(clock, q).admitted == Reference(clock, q).0
    ensures Play(clock, q).answers == Reference(clock, q).1
  {
    if clock != [] {
      SmallLimitIsReference(clock[..|clock| - 1], q);
      var ok := LatestAnswer(clock, q);
      LatestOfReference(clock, q);
    }
  }

  /** A limit of 2^63 or more turns negative in the comparison: every answer of every run is no. */
  lemma {:induction false} HugeLimitDenies(clock: seq<nat>, q: Quota)
    requires I64 <= q.limit < U64
    ensures Play(clock, q).admitted == []
    ensures forall i :: 0 <= i < |clock| ==> !Play(clock, q).answers[i]
  {
    if clock != [] { HugeLimitDenies(clock[..|clock| - 1], q); }
  }

  /** The reference admits the first check of a run unless the limit is zero. */
  lemma {:induction false} ReferenceAdmitsFirst(clock: seq<nat>, q: Quota)
    requires clock != [] && q.limit > 0
    ensures |Reference(clock, q).0| > 0 && Reference(clock, q).1[0]
  {
    if |clock| > 1 { ReferenceAdmitsFirst(clock[..|clock| - 1], q); }
  }

  /** The admissions are the reference's exactly when the limit is below 2^63 (or there was no check). */
  lemma AdmittedAsReference(clock: seq<nat>, q: Quota)
    requires Clock(clock) && q.limit < U64
    ensures Play(clock, q).admitted == Reference(clock, q).0 <==> clock == [] || q.limit < I64
  {
    if q.limit < I64 { SmallLimitIsReference(clock, q); }
    else if clock != [] {
      HugeLimitDenies(clock, q);
      ReferenceAdmitsFirst(clock, q);
    }
  }

  /**
   Neither pruning nor expiry is ever observable: every answer of every run is the reference's answer, exactly when
   the limit is below 2^63 (or there was no check).
   */
  lemma AnswersAsReference(clock: seq<nat>, q: Quota)
    requires Clock(clock) && q.limit < U64
    ensures Play(clock, q).answers == Reference(clock, q).1 <==> clock == [] || q.limit < I64
  {
    if q.limit < I64 { SmallLimitIsReference(clock, q); }
    else if clock != [] {
      HugeLimitDenies(clock, q);
      ReferenceAdmitsFirst(clock, q);
    }
  }

  // ---- At most `limit` admissions in any window ----

  /** Admissions at times in [from, to). */
  function Within(log: seq<nat>, from: int, to: int): nat {
    if log == [] then 0
    else Within(log[..|log| - 1], from, to) + if from <= log[|log| - 1] < to then 1 else 0
  }

  /** Counting over prefixes counts the admissions in the interval. */
  lemma {:induction false} WithinExactly(log: seq<nat>, from: int, to: int)
    ensures Within(log, from, to) == |PlacesWithin(log, from, to)|
  {
    if log != [] {
      var n := |log| - 1;
      WithinExactly(log[..n], from, to);
      assert PlacesWithin(log, from, to) == PlacesWithin(log[..n], from, to) + if from <= log[n] < to then {n} else {};
    }
  }

  function PlacesWithin(log: seq<nat>, from: int, to: int): set<nat> {
    set i: nat | i < |log| && from <= log[i] < to
  }

  /** In an interval no longer than a window that holds the latest admission, all lie in its last window. */
  lemma {:induction false} WithinIsAfter(log: seq<nat>, from: int, to: int, cut: int)
    requires cut < from
    ensures Within(log, from, to) <= |After(log, cut)|
  {
    if log != [] { WithinIsAfter(log[..|log| - 1], from, to, cut); }
  }

  lemma WithinSnoc(log: seq<nat>, x: nat, from: int, to: int)
    ensures Within(log + [x], from, to) == Within(log, from, to) + if from <= x < to then 1 else 0
  {
    assert (log + [x])[..|log + [x]| - 1] == log;
  }

  /** One more admission with room before it keeps an interval within the limit. */
  lemma ExtendWithin(log: seq<nat>, now: nat, ok: bool, q: Quota, from: int)
    requires ok ==> HasRoom(log, now, q)
    requires Within(log, from, from + 1000 * q.window) <= q.limit
    ensures Within(Extend(log, now, ok), from, from + 1000 * q.window) <= q.limit
  {
    var to := from + 1000 * q.window;
    WithinSnoc(log, now, from, to);
    if from <= now < to { WithinIsAfter(log, from, to, now - 1000 * q.window); }
  }

  /** Every half-open interval of `window` seconds holds at most `limit` admissions, over every run. */
  lemma {:induction false} WindowBound(clock: seq<nat>, q: Quota, from: int)
    requires Clock(clock)
    ensures Within(Play(clock, q).admitted, from, from + 1000 * q.window) <= q.limit
  {
    if clock != [] {
      WindowBound(clock[..|clock| - 1], q, from);
      var ok := LatestAnswer(clock, q);
      ExtendWithin(Play(clock[..|clock| - 1], q).admitted, Latest(clock), ok, q, from);
    }
  }

  // ---- When the service keeps the limit, over all 64-bit settings ----

  /** The times of the checks answered with yes. */
  function Admitted(clock: seq<nat>, answers: seq<Option<bool>>): seq<nat>
    requires |answers| == |clock|
  {
    if clock == [] then []
    else
      var n := |clock| - 1;
      Extend(Admitted(clock[..n], answers[..n]), clock[n], answers[n] == Some(true))
  }

  function AdmittedWide(clock: seq<nat>, q: Quota): seq<nat> { Admitted(clock, PlayWide(clock, q).1) }

  lemma AdmittedNext(clock: seq<nat>, q: Quota)
    requires clock != []
    ensures var n, answers := |clock| - 1, PlayWide(clock, q).1;
            AdmittedWide(clock, q) == Extend(AdmittedWide(clock[..n], q), clock[n], answers[n] == Some(true))
  {
    var n := |clock| - 1;
    assert PlayWide(clock, q).1[..n] == PlayWide(clock[..n], q).1;
  }

  lemma {:induction false} NoYesNoAdmission(clock: seq<nat>, answers: seq<Option<bool>>)
    requires |answers| == |clock| && Some(true) !in answers
    ensures Admitted(clock, answers) == []
  {
    if clock != [] { NoYesNoAdmission(clock[..|clock| - 1], answers[..|clock| - 1]); }
  }

  lemma {:induction false} AllYesAllAdmitted(clock: seq<nat>, answers: seq<Option<bool>>)
    requires |answers| == |clock| && forall i :: 0 <= i < |answers| ==> answers[i] == Some(true)
    ensures Admitted(clock, answers) == clock
  {
    if clock != [] {
      AllYesAllAdmitted(clock[..|clock| - 1], answers[..|clock| - 1]);
      assert clock == clock[..|clock| - 1] + [clock[|clock| - 1]];
    }
  }

  lemma {:induction false} NoRoomNoYes(clock: seq<nat>, q: Quota)
    requires SignedLimit(q) <= 0
    ensures forall i :: 0 <= i < |clock| ==> PlayWide(clock, q).1[i] == Some(false)
  {
    if clock != [] { NoRoomNoYes(clock[..|clock| - 1], q); }
  }

  ghost predicate AllInRange(clock: seq<nat>, q: Quota) {
    forall i :: 0 <= i < |clock| ==> InRange(q, clock[i])
  }

  lemma {:induction false} AdmittedInRange(clock: seq<nat>, q: Quota)
    requires AllInRange(clock, q)
    ensures AdmittedWide(clock, q) == Play(clock, q).admitted
  {
    if clock != [] {
      WideIsPlain(clock, q);
      AdmittedNext(clock, q);
      AdmittedInRange(clock[..|clock| - 1], q);
    }
  }

  /** Where nothing overflows, the service answers as the reference exactly when the limit is below 2^63. */
  lemma ServiceAnswersAsReference(clock: seq<nat>, q: Quota)
    requires Clock(clock) && AllInRange(clock, q) && q.limit < U64
    ensures (forall i :: 0 <= i < |clock| ==> PlayWide(clock, q).1[i] == Some(Reference(clock, q).1[i])) <==>
              clock == [] || q.limit < I64
  {
    WideIsPlain(clock, q);
    AnswersAsReference(clock, q);
    if forall i :: 0 <= i < |clock| ==> PlayWide(clock, q).1[i] == Some(Reference(clock, q).1[i]) {
      forall i | 0 <= i < |clock| ensures Play(clock, q).answers[i] == Reference(clock, q).1[i] {
        assert PlayWide(clock, q).1[i] == Some(Reference(clock, q).1[i]);
      }
      assert Play(clock, q).answers == Reference(clock, q).1;
    }
  }

  /** The clock of a run whose values a 64-bit float holds exactly. */
  ghost predicate ExactClock(clock: seq<nat>) {
    Clock(clock) && forall i :: 0 <= i < |clock| ==> clock[i] < F64_EXACT
  }

  /** Out of range, a lifetime that is still positive is refused. */
  lemma LateIsRefused(key: Key, now: nat, q: Quota)
    requires q.window <= MAX_EXPIRE && q.limit < U64 && now < F64_EXACT && !InRange(q, now)
    ensures CheckWide(key, now, q).1 != Some(true)
  {
  }

  lemma RefusedLast(clock: seq<nat>, q: Quota)
    requires clock != [] && q.window <= MAX_EXPIRE && q.limit < U64
    requires clock[|clock| - 1] < F64_EXACT && !InRange(q, clock[|clock| - 1])
    ensures AdmittedWide(clock, q) == AdmittedWide(clock[..|clock| - 1], q)
  {
    AdmittedNext(clock, q);
    LateIsRefused(PlayWide(clock[..|clock| - 1], q).0, clock[|clock| - 1], q);
  }

  lemma InRangeKeeps(clock: seq<nat>, q: Quota, from: int)
    requires Clock(clock) && AllInRange(clock, q)
    ensures YesWithin(clock, from, q) <= q.limit
  {
    var log := Play(clock, q).admitted;
    assert AdmittedWide(clock, q) == log by { AdmittedInRange(clock, q); }
    assert Within(log, from, from + 1000 * q.window) <= q.limit by { WindowBound(clock, q, from); }
  }

  lemma RangeIsAPrefix(clock: seq<nat>, q: Quota)
    requires Clock(clock) && clock != [] && InRange(q, clock[|clock| - 1])
    ensures AllInRange(clock, q)
  {
    forall i | 0 <= i < |clock| ensures InRange(q, clock[i]) {
      assert clock[i] <= clock[|clock| - 1];
    }
  }

  /** Up to the last check in range the service is the plain limiter; after it nobody is told yes. */
  lemma {:induction false} PositiveLifetimeKeeps(clock: seq<nat>, q: Quota, from: int)
    requires ExactClock(clock) && q.limit < U64 && q.window <= MAX_EXPIRE
    ensures YesWithin(clock, from, q) <= q.limit
  {
    if clock == [] {
      NothingWithin(AdmittedWide(clock, q), from, from + 1000 * q.window);
    } else if InRange(q, clock[|clock| - 1]) {
      RangeIsAPrefix(clock, q);
      InRangeKeeps(clock, q, from);
    } else {
      PositiveLifetimeKeeps(clock[..|clock| - 1], q, from);
      RefusedLast(clock, q);
    }
  }

  function YesWithin(clock: seq<nat>, from: int, q: Quota): nat {
    Within(AdmittedWide(clock, q), from, from + 1000 * q.window)
  }

  ghost predicate ServiceKeepsLimit(q: Quota) {
    forall clock, from :: ExactClock(clock) ==> YesWithin(clock, from, q) <= q.limit
  }

  lemma NothingWithin(log: seq<nat>, from: int, to: int)
    requires log == []
    ensures Within(log, from, to) == 0
  {
  }

  lemma NobodyAdmitted(clock: seq<nat>, q: Quota)
    requires ExactClock(clock) && q.limit < U64 && q.window < U64
    requires SignedLimit(q) <= 0 || MAX_EXPIRE < q.window < U64 - MAX_EXPIRE
    ensures AdmittedWide(clock, q) == []
  {
    if SignedLimit(q) <= 0 { NoRoomNoYes(clock, q); } else { RefusedWindow(clock, q); }
    NoYesNoAdmission(clock, PlayWide(clock, q).1);
  }

  lemma ServiceKeeps(clock: seq<nat>, q: Quota, from: int)
    requires ExactClock(clock) && q.limit < U64 && q.window < U64
    requires q.limit == 0 || q.limit >= I64 || q.window < U64 - MAX_EXPIRE
    ensures YesWithin(clock, from, q) <= q.limit
  {
    if q.window <= MAX_EXPIRE {
      PositiveLifetimeKeeps(clock, q, from);
    } else {
      NobodyAdmitted(clock, q);
      NothingWithin(AdmittedWide(clock, q), from, from + 1000 * q.window);
    }
  }

  function Ones(n: nat): seq<nat> { seq(n, _ => 1) }

  lemma {:induction false} WithinOnes(n: nat, to: int)
    requires to > 1
    ensures Within(Ones(n), 1, to) == n
  {
    if n > 0 {
      WithinOnes(n - 1, to);
      assert Ones(n)[..n - 1] == Ones(n - 1);
    }
  }

  /** One check more than the limit, all in one instant. */
  lemma ForgetfulExceeds(clock: seq<nat>, q: Quota)
    requires 0 < q.limit < I64 && Forgets(q) && q.window > 0 && clock == Ones(q.limit + 1)
    ensures YesWithin(clock, 1, q) > q.limit
  {
    ForgetfulWindow(clock, q);
    AllYesAllAdmitted(clock, PlayWide(clock, q).1);
    WithinOnes(q.limit + 1, 1 + 1000 * q.window);
  }

  /**
   The service, each check atomic, keeps every window within the limit on every clock exactly when nobody can pass,
   or the lifetime it sends does not turn into a small negative one.
   */
  lemma ServiceKeepsLimitExactly(q: Quota)
    requires q.limit < U64 && q.window < U64
    ensures ServiceKeepsLimit(q) <==> q.limit == 0 || q.limit >= I64 || q.window < U64 - MAX_EXPIRE
  {
    if q.limit == 0 || q.limit >= I64 || q.window < U64 - MAX_EXPIRE {
      forall clock, from | ExactClock(clock) ensures YesWithin(clock, from, q) <= q.limit {
        ServiceKeeps(clock, q, from);
      }
    } else {
      var clock := Ones(q.limit + 1);
      assert ExactClock(clock);
      ForgetfulExceeds(clock, q);
    }
  }
}

/**
 The same limiter with its commands interleaved: `check_redis` sends them one by one, so between two
 commands of one check any command of another may run. There are as many slots as checks in flight at once.
 */
module SlidingWindowRace {
  import opened Common
  import opened StoredKey
  import opened SortedSetKey
  import opened SlidingWindow

  datatype Slot = Free | Started(now: nat) | Pruned(now: nat) | Passed(now: nat) | Added(now: nat)

  datatype State = State(key: Key, slots: seq<Slot>)

  /** `at` is the server's time when it runs the command. */
  datatype Action =
    | Start(i: nat, now: nat)
    | Prune(i: nat, at: nat)
    | Count(i: nat, at: nat)
    | Store(i: nat, at: nat)
    | Expire(i: nat, at: nat)

  /** A refused EXPIRE leaves the key as it is and fails its check. */
  function AfterExpire(key: Key, at: nat, q: Quota): Key {
    match ExpireSigned(key, at, Signed(q.window)) case None => key case Some(kept) => kept
  }

  function Step(s: State, a: Action, q: Quota): State {
    if a.i >= |s.slots| then s else
    var slot := s.slots[a.i];
    match a
    case Start(i, now) =>
      if !slot.Free? then s else s.(slots := s.slots[i := Started(now)])
    case Prune(i, at) =>
      if !slot.Started? then s else
      State(RemoveUpTo(Visible(s.key, at), WideStart(slot.now, q)), s.slots[i := Pruned(slot.now)])
    case Count(i, at) =>
      if !slot.Pruned? then s else
      var key := Visible(s.key, at);
      State(key, s.slots[i := if |Scores(key)| >= SignedLimit(q) then Free else Passed(slot.now)])
    case Store(i, at) =>
      if !slot.Passed? then s else
      State(Add(Visible(s.key, at), slot.now), s.slots[i := Added(slot.now)])
    case Expire(i, at) =>
      if !slot.Added? then s else
      State(AfterExpire(Visible(s.key, at), at, q), s.slots[i := Free])
  }

  function Exec(s: State, actions: seq<Action>, q: Quota): State
    decreases |actions|
  {
    if actions == [] then s else Exec(Step(s, actions[0], q), actions[1..], q)
  }

  function Initial(c: nat): State {
    State(Missing, seq(c, _ => Free))
  }

  /** How many slots satisfy `p`. */
  function Tally(slots: seq<Slot>, p: Slot -> bool): nat {
    if slots == [] then 0
    else Tally(slots[..|slots| - 1], p) + One(p(slots[|slots| - 1]))
  }

  predicate IsPassed(slot: Slot) { slot.Passed? }

  predicate IsAdded(slot: Slot) { slot.Added? }

  lemma {:induction false} TallyUpdate(slots: seq<Slot>, p: Slot -> bool, i: nat, slot: Slot)
    requires i < |slots|
    ensures Tally(slots[i := slot], p) == Tally(slots, p) - One(p(slots[i])) + One(p(slot))
  {
    var n := |slots| - 1;
    if i == n {
      assert slots[i := slot][..n] == slots[..n];
    } else {
      TallyUpdate(slots[..n], p, i, slot);
      assert slots[i := slot][..n] == slots[..n][i := slot];
    }
  }

  lemma {:induction false} TallyBound(slots: seq<Slot>, p: Slot -> bool)
    ensures Tally(slots, p) <= |slots|
  {
    if slots != [] { TallyBound(slots[..|slots| - 1], p); }
  }

  /** Stored entries, plus checks that have counted but not stored yet. */
  function Committed(s: State): nat {
    |Scores(s.key)| + Tally(s.slots, IsPassed)
  }

  lemma StepKeepsBound(s: State, a: Action, q: Quota)
    requires |s.slots| > 0 && Committed(s) < q.limit + |s.slots|
    ensures |Step(s, a, q).slots| == |s.slots| && Committed(Step(s, a, q)) < q.limit + |s.slots|
  {
    if a.i < |s.slots| {
      var slot := s.slots[a.i];
      var slot' := Step(s, a, q).slots[a.i];
      TallyUpdate(s.slots, IsPassed, a.i, slot');
      if a.Count? && slot.Pruned? && slot'.Passed? {
        TallyBound(s.slots[a.i := slot'], IsPassed);
      }
      assert Step(s, a, q).slots == s.slots[a.i := slot'];
    }
  }

  /** With at most `c` checks in flight, entries plus pending checks never exceed limit + c - 1. */
  lemma {:induction false} RaceBoundFrom(s: State, actions: seq<Action>, q: Quota)
    requires |s.slots| > 0 && Committed(s) < q.limit + |s.slots|
    ensures Committed(Exec(s, actions, q)) < q.limit + |s.slots|
    decreases |actions|
  {
    if actions != [] {
      StepKeepsBound(s, actions[0], q);
      RaceBoundFrom(Step(s, actions[0], q), actions[1..], q);
    }
  }

  lemma {:induction false} FreshTally(c: nat, p: Slot -> bool)
    requires !p(Free)
    ensures Tally(Initial(c).slots, p) == 0
  {
    if c > 0 {
      FreshTally(c - 1, p);
      assert Initial(c).slots[..c - 1] == Initial(c - 1).slots;
    }
  }

  lemma RaceBound(c: nat, actions: seq<Action>, q: Quota)
    requires c > 0
    ensures Committed(Exec(Initial(c), actions, q)) <= q.limit + c - 1
  {
    FreshTally(c, IsPassed);
    RaceBoundFrom(Initial(c), actions, q);
  }

  /** A limit of zero, or one that turns negative, lets nobody pass and nothing is stored. */
  lemma {:induction false} RaceDeniesAll(s: State, actions: seq<Action>, q: Quota)
    requires SignedLimit(q) <= 0 && s.key == Missing
    requires forall i :: 0 <= i < |s.slots| ==> s.slots[i].Free? || s.slots[i].Started? || s.slots[i].Pruned?
    ensures Exec(s, actions, q).key == Missing
    decreases |actions|
  {
    if actions != [] { RaceDeniesAll(Step(s, actions[0], q), actions[1..], q); }
  }

  lemma {:induction false} TallyDisjoint(slots: seq<Slot>)
    ensures Tally(slots, IsPassed) + Tally(slots, IsAdded) <= |slots|
  {
    if slots != [] { TallyDisjoint(slots[..|slots| - 1]); }
  }

  /** Where every EXPIRE deletes the key, each entry in it belongs to a check that has not sent its own yet. */
  lemma ForgetfulKeeps(s: State, a: Action, q: Quota)
    requires Forgets(q) && (a.Expire? ==> a.at < I64) && |Scores(s.key)| <= Tally(s.slots, IsAdded)
    ensures |Step(s, a, q).slots| == |s.slots|
    ensures |Scores(Step(s, a, q).key)| <= Tally(Step(s, a, q).slots, IsAdded)
  {
    if a.i < |s.slots| {
      var slot' := Step(s, a, q).slots[a.i];
      TallyUpdate(s.slots, IsAdded, a.i, slot');
      assert Step(s, a, q).slots == s.slots[a.i := slot'];
    }
  }

  lemma {:induction false} ForgetfulFrom(s: State, actions: seq<Action>, q: Quota)
    requires Forgets(q) && |Scores(s.key)| <= Tally(s.slots, IsAdded)
    requires forall k :: 0 <= k < |actions| && actions[k].Expire? ==> actions[k].at < I64
    ensures Committed(Exec(s, actions, q)) <= |s.slots|
    decreases |actions|
  {
    if actions == [] {
      TallyDisjoint(s.slots);
    } else {
      ForgetfulKeeps(s, actions[0], q);
      ForgetfulFrom(Step(s, actions[0], q), actions[1..], q);
    }
  }

  /** There, entries plus pending checks never exceed the checks in flight. */
  lemma ForgetfulRaceBound(c: nat, actions: seq<Action>, q: Quota)
    requires Forgets(q) && forall k :: 0 <= k < |actions| && actions[k].Expire? ==> actions[k].at < I64
    ensures Committed(Exec(Initial(c), actions, q)) <= c
  {
    var s := Initial(c);
    FreshTally(c, IsAdded);
    ForgetfulFrom(s, actions, q);
  }

  // ---- The bound is reached, so it is exact and the strict limit fails for two checks in flight ----

  lemma {:induction false} ExecConcat(s: State, first: seq<Action>, second: seq<Action>, q: Quota)
    ensures Exec(s, first + second, q) == Exec(Exec(s, first, q), second, q)
    decreases |first|
  {
    if first == [] {
      assert first + second == second;
    } else {
      assert (first + second)[1..] == first[1..] + second;
      ExecConcat(Step(s, first[0], q), first[1..], second, q);
    }
  }

  lemma ExecOne(s: State, actions: seq<Action>, a: Action, q: Quota)
    ensures Exec(s, actions + [a], q) == Step(Exec(s, actions, q), a, q)
  {
    ExecConcat(s, actions, [a], q);
  }

  /** A key that holds `n` admissions of time 1 and is not about to expire. */
  ghost predicate Fresh(key: Key, n: nat) {
    && |Scores(key)| == n && (forall i :: 0 <= i < n ==> Scores(key)[i] == 1)
    && (key.ZSet? ==> n > 0 && (key.deadline.Some? ==> key.deadline.value >= 1))
  }

  lemma {:induction false} AfterAll(log: seq<nat>, cut: int)
    requires forall i :: 0 <= i < |log| ==> log[i] > cut
    ensures After(log, cut) == log
  {
    if log != [] { AfterAll(log[..|log| - 1], cut); }
  }

  /** Slot `i` starts, prunes and passes the count at time 1. */
  lemma Passes(s: State, i: nat, n: nat, q: Quota) returns (actions: seq<Action>)
    requires i < |s.slots| && s.slots[i].Free? && Fresh(s.key, n) && n < SignedLimit(q)
    requires n == 0 || 1000 * q.window % U64 > 0
    ensures Exec(s, actions, q) == s.(slots := s.slots[i := Passed(1)])
  {
    var a1, a2 := [Start(i, 1)], [Start(i, 1), Prune(i, 1)];
    actions := a2 + [Count(i, 1)];
    ExecOne(s, [], Start(i, 1), q);
    ExecOne(s, a1, Prune(i, 1), q);
    ExecOne(s, a2, Count(i, 1), q);
    assert [] + [Start(i, 1)] == a1 && a1 + [Prune(i, 1)] == a2;
    AfterAll(Scores(s.key), 0);
    assert Visible(s.key, 1) == s.key && (n > 0 ==> WideStart(1, q) == 0);
    assert RemoveUpTo(s.key, WideStart(1, q)) == s.key;
  }

  /** One check after the other, in slot 0, fills the window to `n` entries. */
  lemma {:induction false} Fill(c: nat, n: nat, q: Quota) returns (actions: seq<Action>)
    requires c > 0 && n <= SignedLimit(q) && q.window < U64 && !Forgets(q) && 1000 * q.window % U64 > 0
    ensures var s := Exec(Initial(c), actions, q); s.slots == Initial(c).slots && Fresh(s.key, n)
  {
    if n == 0 {
      actions := [];
    } else {
      var earlier := Fill(c, n - 1, q);
      var s := Exec(Initial(c), earlier, q);
      var pass := Passes(s, 0, n - 1, q);
      ExecConcat(Initial(c), earlier, pass, q);
      ExecOne(Initial(c), earlier + pass, Store(0, 1), q);
      ExecOne(Initial(c), earlier + pass + [Store(0, 1)], Expire(0, 1), q);
      actions := earlier + pass + [Store(0, 1)] + [Expire(0, 1)];
    }
  }

  /** All slots below `c` pass the count before any of them stores. */
  lemma {:induction false} AllPass(s: State, k: nat, n: nat, q: Quota) returns (actions: seq<Action>)
    requires k <= |s.slots| && (forall i :: 0 <= i < |s.slots| ==> s.slots[i].Free?)
    requires Fresh(s.key, n) && n < SignedLimit(q) && (n == 0 || 1000 * q.window % U64 > 0)
    ensures var t := Exec(s, actions, q);
            && t.key == s.key && |t.slots| == |s.slots|
            && forall i :: 0 <= i < |s.slots| ==> t.slots[i] == if i < k then Passed(1) else Free
  {
    if k == 0 {
      actions := [];
    } else {
      var earlier := AllPass(s, k - 1, n, q);
      var pass := Passes(Exec(s, earlier, q), k - 1, n, q);
      ExecConcat(s, earlier, pass, q);
      actions := earlier + pass;
    }
  }

  /** Then they all store. */
  lemma {:induction false} AllStore(s: State, k: nat, n: nat, q: Quota) returns (actions: seq<Action>)
    requires k <= |s.slots| && (forall i :: 0 <= i < |s.slots| ==> s.slots[i] == Passed(1)) && Fresh(s.key, n)
    ensures var t := Exec(s, actions, q);
            && |t.slots| == |s.slots| && Fresh(t.key, n + k)
            && forall i :: 0 <= i < |s.slots| ==> t.slots[i] == if i < k then Added(1) else Passed(1)
  {
    if k == 0 {
      actions := [];
    } else {
      var earlier := AllStore(s, k - 1, n, q);
      ExecOne(s, earlier, Store(k - 1, 1), q);
      actions := earlier + [Store(k - 1, 1)];
    }
  }

  /** All pass and then all store, on a key with `n` entries. */
  lemma PassAndStore(s: State, n: nat, q: Quota) returns (actions: seq<Action>)
    requires (forall i :: 0 <= i < |s.slots| ==> s.slots[i].Free?) && Fresh(s.key, n) && n < SignedLimit(q)
    requires n == 0 || 1000 * q.window % U64 > 0
    ensures Fresh(Exec(s, actions, q).key, n + |s.slots|)
  {
    var pass := AllPass(s, |s.slots|, n, q);
    var store := AllStore(Exec(s, pass, q), |s.slots|, n, q);
    ExecConcat(s, pass, store, q);
    actions := pass + store;
  }

  /**
   For every limit that can pass somebody and every number of checks in flight, some interleaving stores limit + c - 1
   entries of one instant at once, unless the lifetime is one that deletes the key or the product wraps to zero.
   */
  lemma RaceBoundIsReached(c: nat, q: Quota) returns (actions: seq<Action>)
    requires c > 0 && 0 < q.limit < I64 && q.window < U64 && !Forgets(q) && 1000 * q.window % U64 > 0
    ensures var s := Exec(Initial(c), actions, q);
            && |Scores(s.key)| == q.limit + c - 1
            && forall i :: 0 <= i < |Scores(s.key)| ==> Scores(s.key)[i] == 1
  {
    var fill := Fill(c, q.limit - 1, q);
    var more := PassAndStore(Exec(Initial(c), fill, q), q.limit - 1, q);
    ExecConcat(Initial(c), fill, more, q);
    actions := fill + more;
  }

  /** Where the key is deleted each time, some interleaving stores `c` entries at once. */
  lemma ForgetfulRaceBoundIsReached(c: nat, q: Quota) returns (actions: seq<Action>)
    requires 0 < q.limit < I64
    ensures |Scores(Exec(Initial(c), actions, q).key)| == c
  {
    actions := PassAndStore(Initial(c), 0, q);
  }

  // ---- Every check gets exactly one answer ----

  datatype Answer = Yes | No | Error

  /** What a caller sees of one slot: a check begins, and its answer comes. */
  datatype Event = Began(now: nat) | Got(now: nat, answer: Answer)

  /** What the next command of a slot makes known. */
  function Seen(s: State, a: Action, i: nat, q: Quota): seq<Event> {
    if a.i != i || i >= |s.slots| then [] else
    match (a, s.slots[i])
    case (Start(_, now), Free) => [Began(now)]
    case (Count(_, at), Pruned(now)) => if |Scores(Visible(s.key, at))| >= SignedLimit(q) then [Got(now, No)] else []
    case (Expire(_, at), Added(now)) =>
      [Got(now, if ExpireSigned(Missing, at, Signed(q.window)).Some? then Yes else Error)]
    case _ => []
  }

  function History(s: State, actions: seq<Action>, i: nat, q: Quota): seq<Event>
    decreases |actions|
  {
    if actions == [] then [] else Seen(s, actions[0], i, q) + History(Step(s, actions[0], q), actions[1..], i, q)
  }

  /** The check that is open after the events, if each began when none was open and each answer is to the open one. */
  function Replay(open: Option<nat>, events: seq<Event>): Option<Option<nat>>
    decreases |events|
  {
    if events == [] then Some(open) else
    match events[0]
    case Began(now) => if open == None then Replay(Some(now), events[1..]) else None
    case Got(now, _) => if open == Some(now) then Replay(None, events[1..]) else None
  }

  function OpenIn(s: State, i: nat): Option<nat> {
    if i < |s.slots| && !s.slots[i].Free? then Some(s.slots[i].now) else None
  }

  lemma SeenStep(s: State, a: Action, i: nat, q: Quota)
    ensures Replay(OpenIn(s, i), Seen(s, a, i, q)) == Some(OpenIn(Step(s, a, q), i))
  {
  }

  lemma {:induction false} ReplayConcat(open: Option<nat>, first: seq<Event>, second: seq<Event>)
    requires Replay(open, first).Some?
    ensures Replay(open, first + second) == Replay(Replay(open, first).value, second)
    decreases |first|
  {
    if first == [] {
      assert first + second == second;
    } else {
      assert (first + second)[1..] == first[1..] + second;
      match first[0]
      case Began(now) => ReplayConcat(Some(now), first[1..], second);
      case Got(_, _) => ReplayConcat(None, first[1..], second);
    }
  }

  /**
   In every interleaving, each check of each slot is answered at most once, with its own time, before the next one
   begins, and it is in flight exactly as long as it has no answer.
   */
  lemma {:induction false} AnsweredOnce(s: State, actions: seq<Action>, i: nat, q: Quota)
    ensures Replay(OpenIn(s, i), History(s, actions, i, q)) == Some(OpenIn(Exec(s, actions, q), i))
    decreases |actions|
  {
    if actions != [] {
      var s' := Step(s, actions[0], q);
      SeenStep(s, actions[0], i, q);
      AnsweredOnce(s', actions[1..], i, q);
      ReplayConcat(OpenIn(s, i), Seen(s, actions[0], i, q), History(s', actions[1..], i, q));
    }
  }

  /** A check is answered no exactly when its count finds the promised limit reached, or a limit of 2^63 and more. */
  lemma DeniedExactly(s: State, a: Action, i: nat, now: nat, q: Quota)
    requires q.limit < U64
    ensures Seen(s, a, i, q) == [Got(now, No)] <==>
              && i < |s.slots| && s.slots[i] == Pruned(now) && a.Count? && a.i == i
              && (q.limit >= I64 || |Scores(Visible(s.key, a.at))| >= q.limit)
  {
  }

  // ---- What is stored ----

  /** The command is the next one of its slot. */
  predicate IsNext(s: State, a: Action) {
    && a.i < |s.slots|
    && match a
       case Start(i, _) => s.slots[i].Free?
       case Prune(i, _) => s.slots[i].Started?
       case Count(i, _) => s.slots[i].Pruned?
       case Store(i, _) => s.slots[i].Passed?
       case Expire(i, _) => s.slots[i].Added?
  }

  /** No command finds anything in a key whose deadline has passed: at most its own entry is there afterwards. */
  lemma ExpiredIsGone(s: State, a: Action, q: Quota)
    requires IsNext(s, a) && !a.Start? && s.key.ZSet? && s.key.deadline.Some? && s.key.deadline.value < a.at
    ensures Scores(Step(s, a, q).key) == if a.Store? then [s.slots[a.i].now] else []
  {
    assert [] + [s.slots[a.i].now] == [s.slots[a.i].now];
  }

  /** Up to its deadline everything in the key is still found. */
  lemma UnexpiredIsSeen(s: State, a: Action, q: Quota)
    requires IsNext(s, a) && a.Store?
    requires s.key.ZSet? && (s.key.deadline.Some? ==> a.at <= s.key.deadline.value)
    ensures Scores(Step(s, a, q).key) == Scores(s.key) + [s.slots[a.i].now]
    ensures Step(s, a, q).key.deadline == s.key.deadline
  {
  }

  /** A slot that has started carries the time of a check that began. */
  ghost predicate TimesBegan(s: State, began: set<nat>) {
    && (forall i :: 0 <= i < |s.slots| && !s.slots[i].Free? ==> s.slots[i].now in began)
    && (forall x :: x in Scores(s.key) ==> x in began)
  }

  function BeganIn(actions: seq<Action>): set<nat> {
    set k | 0 <= k < |actions| && actions[k].Start? :: actions[k].now
  }

  lemma StepKeepsTimes(s: State, a: Action, began: set<nat>, q: Quota)
    requires TimesBegan(s, began) && (a.Start? ==> a.now in began)
    ensures TimesBegan(Step(s, a, q), began)
  {
    if IsNext(s, a) && a.Prune? { AfterExactly(Scores(Visible(s.key, a.at)), WideStart(s.slots[a.i].now, q)); }
  }

  lemma {:induction false} TimesFrom(s: State, actions: seq<Action>, began: set<nat>, q: Quota)
    requires TimesBegan(s, began) && forall k :: 0 <= k < |actions| && actions[k].Start? ==> actions[k].now in began
    ensures TimesBegan(Exec(s, actions, q), began)
    decreases |actions|
  {
    if actions != [] {
      StepKeepsTimes(s, actions[0], began, q);
      TimesFrom(Step(s, actions[0], q), actions[1..], began, q);
    }
  }

  /** In every interleaving, each stored score is the time at which some check began. */
  lemma EntriesAreChecks(c: nat, actions: seq<Action>, q: Quota)
    ensures forall x :: x in Scores(Exec(Initial(c), actions, q).key) ==>
              exists k :: 0 <= k < |actions| && actions[k].Start? && actions[k].now == x
  {
    var began := BeganIn(actions);
    TimesFrom(Initial(c), actions, began, q);
    forall x | x in Scores(Exec(Initial(c), actions, q).key)
      ensures exists k :: 0 <= k < |actions| && actions[k].Start? && actions[k].now == x
    {
      assert x in began;
    }
  }

  // ---- Commands back to back are the atomic check ----

  function Commands(i: nat, now: nat): seq<Action> {
    [Start(i, now), Prune(i, now), Count(i, now), Store(i, now), Expire(i, now)]
  }

  function AsAnswer(answer: Option<bool>): Answer {
    match answer case None => Error case Some(ok) => if ok then Yes else No
  }

  lemma ExecFive(s: State, s1: State, s2: State, s3: State, s4: State, actions: seq<Action>, i: nat, q: Quota)
    requires |actions| == 5 && s1 == Step(s, actions[0], q) && s2 == Step(s1, actions[1], q)
    requires s3 == Step(s2, actions[2], q) && s4 == Step(s3, actions[3], q)
    ensures Exec(s, actions, q) == Step(s4, actions[4], q)
    ensures History(s, actions, i, q) == Seen(s, actions[0], i, q) + (Seen(s1, actions[1], i, q)
              + (Seen(s2, actions[2], i, q) + (Seen(s3, actions[3], i, q) + (Seen(s4, actions[4], i, q) + []))))
  {
    Unfold(s, actions, 0, i, q);
    Unfold(s1, actions, 1, i, q);
    Unfold(s2, actions, 2, i, q);
    Unfold(s3, actions, 3, i, q);
    Unfold(s4, actions, 4, i, q);
    assert actions[0..] == actions && actions[5..] == [];
  }

  lemma Unfold(s: State, actions: seq<Action>, k: nat, i: nat, q: Quota)
    requires k < |actions|
    ensures Exec(s, actions[k..], q) == Exec(Step(s, actions[k], q), actions[k + 1..], q)
    ensures History(s, actions[k..], i, q)
            == Seen(s, actions[k], i, q) + History(Step(s, actions[k], q), actions[k + 1..], i, q)
  {
    assert actions[k..][1..] == actions[k + 1..];
  }

  /** A slot that runs its check alone leaves the key of `CheckWide` and gets its answer. */
  lemma BackToBack(s: State, i: nat, now: nat, q: Quota)
    requires i < |s.slots| && s.slots[i].Free?
    ensures var (key, answer) := CheckWide(s.key, now, q);
            && Exec(s, Commands(i, now), q) == State(key, s.slots)
            && History(s, Commands(i, now), i, q) == [Began(now), Got(now, AsAnswer(answer))]
  {
    var s1 := Step(s, Start(i, now), q);
    var s2 := Step(s1, Prune(i, now), q);
    var s3 := Step(s2, Count(i, now), q);
    ExecFive(s, s1, s2, s3, Step(s3, Store(i, now), q), Commands(i, now), i, q);
    var pruned := RemoveUpTo(Visible(s.key, now), WideStart(now, q));
    assert Visible(pruned, now) == pruned;
    assert s.slots[i := Free] == s.slots;
    AlonePasses(s, i, now, q);
  }

  lemma AlonePasses(s: State, i: nat, now: nat, q: Quota)
    requires i < |s.slots| && s.slots[i].Free?
    ensures var pruned := RemoveUpTo(Visible(s.key, now), WideStart(now, q));
            var s1 := Step(s, Start(i, now), q);
            var s2 := Step(s1, Prune(i, now), q);
            && s1 == State(s.key, s.slots[i := Started(now)])
            && s2 == State(pruned, s.slots[i := Pruned(now)])
  {
  }

  /** One slot, one check after the other. */
  function OneByOne(clock: seq<nat>, i: nat): seq<Action> {
    if clock == [] then [] else OneByOne(clock[..|clock| - 1], i) + Commands(i, clock[|clock| - 1])
  }

  function Answers(clock: seq<nat>, answers: seq<Option<bool>>): seq<Event>
    requires |answers| == |clock|
  {
    if clock == [] then []
    else
      var n := |clock| - 1;
      Answers(clock[..n], answers[..n]) + [Began(clock[n]), Got(clock[n], AsAnswer(answers[n]))]
  }

  lemma {:induction false} HistoryConcat(s: State, first: seq<Action>, second: seq<Action>, i: nat, q: Quota)
    ensures History(s, first + second, i, q) == History(s, first, i, q) + History(Exec(s, first, q), second, i, q)
    decreases |first|
  {
    if first == [] {
      assert first + second == second;
    } else {
      assert (first + second)[1..] == first[1..] + second;
      HistoryConcat(Step(s, first[0], q), first[1..], second, i, q);
    }
  }

  /** Whole runs of such checks are the runs of the atomic service: same key, same answers. */
  lemma {:induction false} SequentialIsAtomic(s: State, clock: seq<nat>, i: nat, q: Quota)
    requires s.key == Missing && i < |s.slots| && s.slots[i].Free?
    ensures Exec(s, OneByOne(clock, i), q) == State(PlayWide(clock, q).0, s.slots)
    ensures History(s, OneByOne(clock, i), i, q) == Answers(clock, PlayWide(clock, q).1)
  {
    if clock != [] {
      var n := |clock| - 1;
      var before := OneByOne(clock[..n], i);
      SequentialIsAtomic(s, clock[..n], i, q);
      ExecConcat(s, before, Commands(i, clock[n]), q);
      HistoryConcat(s, before, Commands(i, clock[n]), i, q);
      BackToBack(Exec(s, before, q), i, clock[n], q);
      assert PlayWide(clock, q).1[..n] == PlayWide(clock[..n], q).1;
    }
  }
}
