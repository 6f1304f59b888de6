/**
 The control plane's sorted-set limiter. Its member is the current second itself, so a second pass in the same
 second overwrites it: the set holds active seconds, not requests. The clock is in ms; scores are in seconds.
 */
module ActiveSeconds {
  import opened Common
  import opened StoredKey

  const WINDOW := 60
  const LIMIT := 100

  type Key = Stored<set<nat>>

  datatype Answer = Answer(allowed: bool, remaining: int, reset: nat)

  function Seconds(key: Key): set<nat> { if key.Missing? then {} else key.content }

  /** ZREMRANGEBYSCORE key 0 (now - 60). */
  function Recent(seconds: set<nat>, now: nat): set<nat> {
    set s | s in seconds && s > now - WINDOW
  }

  /** The count is read first, before pruning and adding. */
  function Check(key: Key, clock: nat): (Key, Answer) {
    var now := clock / 1000;
    var count := |Seconds(Visible(key, clock))|;
    (ZSet(Recent(Seconds(Visible(key, clock)), now) + {now}, Some(clock + 1000 * WINDOW)),
     Answer(count < LIMIT, if LIMIT - count < 0 then 0 else LIMIT - count, now + WINDOW))
  }

  /** The limiter for one API key; the stored set changes command by command. */
  class RedisRateLimiter {
    var key: Key

    constructor ()
      ensures key == Missing
    {
      key := Missing;
    }

    method CheckKey(clock: nat) returns (answer: Answer)
      modifies this
      ensures (key, answer) == Check(old(key), clock)
    {
      var now := clock / 1000;
      key := Visible(key, clock);
      var count := |Seconds(key)|;
      var kept := Recent(Seconds(key), now);
      key := ZSet(kept + {now}, Some(clock + 1000 * WINDOW));
      var remaining := LIMIT - count;
      if remaining < 0 {
        remaining := 0;
      }
      return Answer(count < LIMIT, remaining, now + WINDOW);
    }
  }

  // ---- Runs ----

  /** One check at each listed time. */
  function Play(clocks: seq<nat>): Key {
    if clocks == [] then Missing else Check(Play(clocks[..|clocks| - 1]), clocks[|clocks| - 1]).0
  }

  function LastAnswer(clocks: seq<nat>): Answer
    requires clocks != []
  {
    Check(Play(clocks[..|clocks| - 1]), clocks[|clocks| - 1]).1
  }

  ghost predicate Clock(clocks: seq<nat>) {
    forall i, j :: 0 <= i < j < |clocks| ==> clocks[i] <= clocks[j]
  }

  /** The distinct seconds, among the last 60 up to `now`, in which a check ran. */
  ghost function Active(clocks: seq<nat>, now: nat): set<nat> {
    set i | 0 <= i < |clocks| && clocks[i] / 1000 > now - WINDOW :: clocks[i] / 1000
  }

  lemma ActiveHas(clocks: seq<nat>, now: nat, s: nat)
    ensures s in Active(clocks, now) <==> s > now - WINDOW && exists i :: 0 <= i < |clocks| && clocks[i] / 1000 == s
  {
  }

  /** Pruning at a later second keeps the active seconds; adding that second completes them. */
  lemma ActiveSnoc(clocks: seq<nat>, x: nat, prev: nat)
    requires prev <= x / 1000
    ensures Active(clocks + [x], x / 1000) == Recent(Active(clocks, prev), x / 1000) + {x / 1000}
  {
    var now := x / 1000;
    var all := clocks + [x];
    forall s: nat ensures s in Active(all, now) <==> s in Recent(Active(clocks, prev), now) + {now} {
      ActiveHas(all, now, s);
      ActiveHas(clocks, prev, s);
      if exists i :: 0 <= i < |all| && all[i] / 1000 == s {
        var i :| 0 <= i < |all| && all[i] / 1000 == s;
        assert i < |clocks| ==> clocks[i] / 1000 == s;
      }
      if exists i :: 0 <= i < |clocks| && clocks[i] / 1000 == s {
        var i :| 0 <= i < |clocks| && clocks[i] / 1000 == s;
        assert all[i] / 1000 == s;
      }
      assert all[|clocks|] / 1000 == now;
    }
  }

  /** Expired seconds would have been pruned anyway. */
  lemma ExpiryIsPruning(seconds: set<nat>, last: nat, clock: nat)
    requires clock > last + 1000 * WINDOW && forall s :: s in seconds ==> s <= last / 1000
    ensures Recent(seconds, clock / 1000) == {}
  {
  }

  ghost predicate Holds(key: Key, clocks: seq<nat>, last: nat) {
    key == ZSet(Active(clocks, last / 1000), Some(last + 1000 * WINDOW))
  }

  lemma CheckKeeps(key: Key, clocks: seq<nat>, last: nat, x: nat)
    requires Holds(key, clocks, last) && last <= x && forall i :: 0 <= i < |clocks| ==> clocks[i] <= last
    ensures Holds(Check(key, x).0, clocks + [x], x)
  {
    ActiveSnoc(clocks, x, last / 1000);
    if x > key.deadline.value {
      forall s | s in key.content ensures s <= last / 1000 { ActiveHas(clocks, last / 1000, s); }
      ExpiryIsPruning(key.content, last, x);
    }
  }

  lemma FirstCheck(x: nat)
    ensures Holds(Check(Missing, x).0, [x], x)
  {
    var none: seq<nat> := [];
    ActiveSnoc(none, x, 0);
    assert none + [x] == [x];
    assert Active(none, 0) == {} == Seconds(Missing);
    assert Recent(Seconds(Missing), x / 1000) == {} == Recent(Active(none, 0), x / 1000);
  }

  /** After every check the stored set is exactly the active seconds, and expires a minute after that check. */
  lemma {:induction false} StoreIsActive(clocks: seq<nat>)
    requires Clock(clocks) && clocks != []
    ensures Holds(Play(clocks), clocks, clocks[|clocks| - 1])
    decreases |clocks|
  {
    var front, x := clocks[..|clocks| - 1], clocks[|clocks| - 1];
    if front != [] { StoreIsActive(front); }
    NextCheck(front, x);
    assert clocks == front + [x];
  }

  lemma NextCheck(front: seq<nat>, x: nat)
    requires Clock(front) && (front != [] ==> front[|front| - 1] <= x && Holds(Play(front), front, front[|front| - 1]))
    ensures Holds(Play(front + [x]), front + [x], x)
  {
    assert (front + [x])[..|front + [x]| - 1] == front;
    if front == [] {
      FirstCheck(x);
      assert front + [x] == [x];
    } else {
      CheckKeeps(Play(front), front, front[|front| - 1], x);
    }
  }

  lemma {:induction false} IntervalSize(s: set<nat>, lo: int, n: nat)
    requires forall x :: x in s ==> lo < x <= lo + n
    ensures |s| <= n
    decreases n
  {
    if n == 0 {
      assert s == {};
    } else {
      IntervalSize(s - {lo + n}, lo, n - 1);
    }
  }

  lemma ActiveSize(clocks: seq<nat>)
    requires Clock(clocks) && clocks != []
    ensures |Active(clocks, clocks[|clocks| - 1] / 1000)| <= WINDOW
  {
    var now := clocks[|clocks| - 1] / 1000;
    forall s | s in Active(clocks, now) ensures now - WINDOW < s <= now {
      ActiveHas(clocks, now, s);
    }
    IntervalSize(Active(clocks, now), now - WINDOW, WINDOW);
  }

  /**
   Every check of every run reads the size the previous check left, or zero after a silent minute; that size is
   at most 60, so `remaining` stays between 40 and 100 and no check is ever denied.
   */
  lemma NeverDenies(clocks: seq<nat>)
    requires Clock(clocks) && clocks != []
    ensures var front, x := clocks[..|clocks| - 1], clocks[|clocks| - 1];
            var silent := front == [] || x > front[|front| - 1] + 1000 * WINDOW;
            LastAnswer(clocks).remaining == 100 - if silent then 0 else |Active(front, front[|front| - 1] / 1000)|
    ensures LastAnswer(clocks).allowed && 40 <= LastAnswer(clocks).remaining <= 100
    ensures LastAnswer(clocks).reset == clocks[|clocks| - 1] / 1000 + 60
  {
    var front := clocks[..|clocks| - 1];
    if front != [] {
      StoreIsActive(front);
      ActiveSize(front);
    }
  }

  /** Whatever the key holds, the answer is by its count against 100, and never announces less than nothing. */
  lemma AnswerByCount(key: Key, clock: nat)
    ensures var n, answer := |Seconds(Visible(key, clock))|, Check(key, clock).1;
            && (answer.allowed <==> n < 100) && answer.remaining >= 0
            && (n <= 100 ==> answer.remaining == 100 - n) && (n > 100 ==> answer.remaining == 0)
  {
  }

  /** The promised 100 requests a minute is not enforced: any number of checks passes in one instant. */
  lemma BurstPasses(n: nat, clock: nat, k: nat)
    requires 0 < k <= n
    ensures LastAnswer(seq(n, _ => clock)[..k]).allowed
  {
    NeverDenies(seq(n, _ => clock)[..k]);
  }
}
