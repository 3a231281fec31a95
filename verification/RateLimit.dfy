/** The sliding-window rate limiter (app/mojodns/ratelimit.py). Clock readings are real numbers
    and are inputs: a caller reads the clock before it takes the lock, so readings may reach
    the limiter out of order. Floating-point rounding is not modelled. */
module RateLimit {

  const WINDOW: real := 60.0

  datatype Answer = Answer(allowed: bool, retryAfter: nat)

  /** The hits still inside the window at time `now`, in order. */
  function Prune(hits: seq<real>, now: real): (kept: seq<real>)
    ensures |kept| <= |hits|
    ensures forall t :: t in kept <==> t in hits && now - t < WINDOW
  {
    if hits == [] then []
    else if now - hits[0] < WINDOW then [hits[0]] + Prune(hits[1..], now)
    else Prune(hits[1..], now)
  }

  /** The advertised wait: the rest of the oldest hit's window, rounded up to whole seconds unless
      it exceeds a whole second by less than a millisecond, and at least one second. */
  function RetryAfter(oldest: real, now: real): nat
    requires now - oldest < WINDOW
  {
    Rounded(WINDOW - (now - oldest))
  }

  function Rounded(remaining: real): (retry: nat)
    ensures retry >= 1
  {
    var whole := (remaining + 0.999).Floor;
    if whole < 1 then 1 else whole
  }

  /** One attempt against a key's stored hits: the answer and the hits stored back. */
  function Attempt(hits: seq<real>, limit: int, now: real): (Answer, seq<real>) {
    if limit <= 0 then (Answer(true, 0), hits)
    else
      var kept := Prune(hits, now);
      if |kept| >= limit then
        assert kept[0] in kept;
        (Answer(false, RetryAfter(kept[0], now)), kept)
      else (Answer(true, 0), kept + [now])
  }

  /** The process-wide table of hits. Each call runs under the lock, as one step. */
  class Limiter<Key(==)> {
    var hits: map<Key, seq<real>>

    constructor ()
      ensures hits == map[]
    {
      hits := map[];
    }

    function HitsOf(key: Key): seq<real>
      reads this
    {
      if key in hits then hits[key] else []
    }

    method Pruned(stored: seq<real>, now: real) returns (kept: seq<real>)
      ensures kept == Prune(stored, now)
    {
      kept := [];
      for i := 0 to |stored|
        invariant Prune(stored, now) == kept + Prune(stored[i..], now)
      {
        assert stored[i..][1..] == stored[i + 1..];
        if now - stored[i] < WINDOW {
          kept := kept + [stored[i]];
        }
      }
    }

    /** The answer and the new hits of `key` are those of `Attempt`; other keys are untouched. */
    method Allow(key: Key, limit: int, now: real) returns (answer: Answer)
      modifies this
      ensures answer == Attempt(old(HitsOf(key)), limit, now).0
      ensures limit <= 0 ==> answer == Answer(true, 0) && hits == old(hits)
      ensures limit > 0 ==> hits == old(hits)[key := Attempt(old(HitsOf(key)), limit, now).1]
    {
      hide Prune;
      if limit <= 0 { return Answer(true, 0); }
      var stored := if key in hits then hits[key] else [];
      var kept := Pruned(stored, now);
      if |kept| >= limit {
        assert kept[0] in Prune(stored, now);
        answer := Answer(false, RetryAfter(kept[0], now));
        hits := hits[key := kept];
      } else {
        answer := Answer(true, 0);
        hits := hits[key := kept + [now]];
      }
    }
  }

  // ---- runs of one key ---------------------------------------------------------------------

  datatype Call = Call(now: real, limit: int)

  /** The stored hits after the first `n` calls. */
  function HitsAfter(calls: seq<Call>, n: nat): seq<real>
    requires n <= |calls|
  {
    if n == 0 then [] else Attempt(HitsAfter(calls, n - 1), calls[n - 1].limit, calls[n - 1].now).1
  }

  function AnswerTo(calls: seq<Call>, n: nat): Answer
    requires n < |calls|
  {
    Attempt(HitsAfter(calls, n), calls[n].limit, calls[n].now).0
  }

  /** The whole history: the readings of every recorded call among the first `n`, never pruned. */
  function History(calls: seq<Call>, n: nat): seq<real>
    requires n <= |calls|
  {
    if n == 0 then []
    else if calls[n - 1].limit > 0 && AnswerTo(calls, n - 1).allowed then
      History(calls, n - 1) + [calls[n - 1].now]
    else History(calls, n - 1)
  }

  /** How many readings lie in `[from, to)`. */
  function CountIn(ts: seq<real>, from: real, to: real): nat {
    if ts == [] then 0
    else CountIn(ts[..|ts| - 1], from, to) + (if from <= ts[|ts| - 1] < to then 1 else 0)
  }

  lemma {:induction false} CountConcat(a: seq<real>, b: seq<real>, from: real, to: real)
    ensures CountIn(a + b, from, to) == CountIn(a, from, to) + CountIn(b, from, to)
  {
    if b == [] {
      assert a + b == a;
    } else {
      assert (a + b)[..|a + b| - 1] == a + b[..|b| - 1];
      CountConcat(a, b[..|b| - 1], from, to);
    }
  }

  lemma {:induction false} CountAtMost(ts: seq<real>, from: real, to: real)
    ensures CountIn(ts, from, to) <= |ts|
  {
    if ts != [] {
      CountAtMost(ts[..|ts| - 1], from, to);
    }
  }

  /** Pruning drops nothing from a range that starts after `now - WINDOW`. */
  lemma {:induction false} PruneKeepsRecent(hits: seq<real>, now: real, from: real, to: real)
    requires now - from < WINDOW
    ensures CountIn(Prune(hits, now), from, to) == CountIn(hits, from, to)
  {
    if hits != [] {
      PruneKeepsRecent(hits[1..], now, from, to);
      assert hits == [hits[0]] + hits[1..];
      CountConcat([hits[0]], hits[1..], from, to);
      CountConcat([hits[0]], Prune(hits[1..], now), from, to);
      assert [hits[0]][..0] == [];
    }
  }

  /** The stored list and the full history agree on every range no reading so far has outrun. */
  lemma {:induction false} StoredCountsAgree(calls: seq<Call>, n: nat, from: real, to: real)
    requires n <= |calls|
    requires forall i :: 0 <= i < n ==> calls[i].now - from < WINDOW
    ensures CountIn(HitsAfter(calls, n), from, to) == CountIn(History(calls, n), from, to)
  {
    if n > 0 {
      StoredCountsAgree(calls, n - 1, from, to);
      hide CountIn, Prune, HitsAfter, History, AnswerTo;
      RunNext(calls, n - 1);
      var now := calls[n - 1].now;
      PruneKeepsRecent(HitsAfter(calls, n - 1), now, from, to);
      CountConcat(Prune(HitsAfter(calls, n - 1), now), [now], from, to);
      CountConcat(History(calls, n - 1), [now], from, to);
    }
  }

  /** Every reading is at most `d` behind the latest one before it. */
  ghost predicate OutOfOrderBy(calls: seq<Call>, d: real) {
    forall i, j :: 0 <= i < j < |calls| ==> calls[i].now - calls[j].now <= d
  }

  lemma HistoryNext(calls: seq<Call>, n: nat, from: real, to: real)
    requires n < |calls|
    ensures var c := calls[n];
            CountIn(History(calls, n + 1), from, to) ==
              CountIn(History(calls, n), from, to)
              + (if c.limit > 0 && AnswerTo(calls, n).allowed && from <= c.now < to then 1 else 0)
  {
    hide HitsAfter, AnswerTo;
    assert (History(calls, n) + [calls[n].now])[..|History(calls, n)|] == History(calls, n);
  }

  lemma AllowedHasRoom(calls: seq<Call>, n: nat)
    requires n < |calls| && calls[n].limit > 0 && AnswerTo(calls, n).allowed
    ensures |Prune(HitsAfter(calls, n), calls[n].now)| < calls[n].limit
  {
    hide HitsAfter, Prune;
  }

  /** One more call keeps a window within the limit: if the call falls into the window and is
      allowed, the stored hits still hold all earlier ones in it. */
  lemma SafetyStep(calls: seq<Call>, n: nat, limit: int, d: real, from: real)
    requires n < |calls| && limit > 0 && calls[n].limit == limit && OutOfOrderBy(calls, d) && d >= 0.0
    requires CountIn(History(calls, n), from, from + (WINDOW - d)) <= limit
    ensures CountIn(History(calls, n + 1), from, from + (WINDOW - d)) <= limit
  {
    hide CountIn, Prune, HitsAfter, History, AnswerTo;
    var now, to := calls[n].now, from + (WINDOW - d);
    HistoryNext(calls, n, from, to);
    if AnswerTo(calls, n).allowed && from <= now < to {
      AllowedHasRoom(calls, n);
      assert forall i :: 0 <= i < n ==> calls[i].now - from < WINDOW;
      StoredCountsAgree(calls, n, from, to);
      PruneKeepsRecent(HitsAfter(calls, n), now, from, to);
      CountAtMost(Prune(HitsAfter(calls, n), now), from, to);
    }
  }

  /** Safety: with a constant positive limit and readings out of order by at most `d`, no window
      of `60 - d` seconds contains more than `limit` allowed calls. */
  lemma {:induction false} NeverMoreThanLimit(calls: seq<Call>, n: nat, limit: int, d: real, from: real)
    requires n <= |calls| && limit > 0 && d >= 0.0
    requires forall i :: 0 <= i < |calls| ==> calls[i].limit == limit
    requires OutOfOrderBy(calls, d)
    ensures CountIn(History(calls, n), from, from + (WINDOW - d)) <= limit
  {
    if n > 0 {
      hide CountIn, History, OutOfOrderBy;
      NeverMoreThanLimit(calls, n - 1, limit, d, from);
      SafetyStep(calls, n - 1, limit, d, from);
    }
  }

  // ---- exactness ---------------------------------------------------------------------------

  ghost predicate InOrder(calls: seq<Call>) {
    forall i, j :: 0 <= i < j < |calls| ==> calls[i].now <= calls[j].now
  }

  lemma {:induction false} PruneConcat(a: seq<real>, b: seq<real>, now: real)
    ensures Prune(a + b, now) == Prune(a, now) + Prune(b, now)
  {
    if a == [] {
      assert a + b == b;
    } else {
      assert (a + b)[1..] == a[1..] + b;
      PruneConcat(a[1..], b, now);
    }
  }

  lemma {:induction false} PruneAgain(hits: seq<real>, t: real, now: real)
    requires t <= now
    ensures Prune(Prune(hits, t), now) == Prune(hits, now)
  {
    if hits != [] {
      PruneAgain(hits[1..], t, now);
      PruneConcat([hits[0]], Prune(hits[1..], t), now);
      PruneConcat([hits[0]], hits[1..], now);
      assert hits == [hits[0]] + hits[1..];
      assert [hits[0]][1..] == [];
      if now - hits[0] < WINDOW {
        assert t - hits[0] < WINDOW;
      }
    }
  }

  lemma RunNext(calls: seq<Call>, n: nat)
    requires n < |calls|
    ensures var c, kept := calls[n], Prune(HitsAfter(calls, n), calls[n].now);
            if c.limit <= 0 then
              HitsAfter(calls, n + 1) == HitsAfter(calls, n) && History(calls, n + 1) == History(calls, n)
            else if AnswerTo(calls, n).allowed then
              HitsAfter(calls, n + 1) == kept + [c.now] && History(calls, n + 1) == History(calls, n) + [c.now]
            else HitsAfter(calls, n + 1) == kept && History(calls, n + 1) == History(calls, n)
  {
    hide Prune, RetryAfter;
  }

  lemma PruneStep(calls: seq<Call>, n: nat, now: real)
    requires n < |calls| && calls[n].now <= now
    requires Prune(HitsAfter(calls, n), calls[n].now) == Prune(History(calls, n), calls[n].now)
    requires Prune(HitsAfter(calls, n), now) == Prune(History(calls, n), now)
    ensures Prune(HitsAfter(calls, n + 1), now) == Prune(History(calls, n + 1), now)
  {
    hide Prune, HitsAfter, History, AnswerTo;
    RunNext(calls, n);
    var c := calls[n];
    PruneAgain(HitsAfter(calls, n), c.now, now);
    PruneConcat(Prune(HitsAfter(calls, n), c.now), [c.now], now);
    PruneConcat(History(calls, n), [c.now], now);
  }

  lemma NothingYet(calls: seq<Call>)
    ensures HitsAfter(calls, 0) == [] == History(calls, 0)
  {
  }

  lemma LatestReading(calls: seq<Call>, n: nat)
    requires 0 < n <= |calls| && InOrder(calls)
    ensures forall i :: 0 <= i < n ==> calls[i].now <= calls[n - 1].now
  {
  }

  /** With readings in order the pruned list agrees with the whole history. */
  lemma {:induction false} PrunedIsHistory(calls: seq<Call>, n: nat, now: real)
    requires n <= |calls| && InOrder(calls)
    requires forall i :: 0 <= i < n ==> calls[i].now <= now
    ensures Prune(HitsAfter(calls, n), now) == Prune(History(calls, n), now)
  {
    NothingYet(calls);
    if n > 0 { LatestReading(calls, n); }
    hide Prune, HitsAfter, History, AnswerTo, InOrder;
    if n > 0 {
      PrunedIsHistory(calls, n - 1, calls[n - 1].now);
      PrunedIsHistory(calls, n - 1, now);
      PruneStep(calls, n - 1, now);
    }
  }

  /** ... and so every decision is the one the whole history would give, for any limit. */
  lemma PrunedDecidesAsHistory(calls: seq<Call>, n: nat, limit: int)
    requires n < |calls| && InOrder(calls)
    ensures Attempt(HitsAfter(calls, n), limit, calls[n].now).0 == Attempt(History(calls, n), limit, calls[n].now).0
  {
    hide Prune, HitsAfter, History;
    PrunedIsHistory(calls, n, calls[n].now);
  }

  /** How many recorded readings are less than a minute old. */
  function Recent(ts: seq<real>, now: real): nat {
    if ts == [] then 0 else (if now - ts[0] < 60.0 then 1 else 0) + Recent(ts[1..], now)
  }

  lemma {:induction false} PruneCounts(ts: seq<real>, now: real)
    ensures |Prune(ts, now)| == Recent(ts, now)
  {
    if ts != [] { PruneCounts(ts[1..], now); }
  }

  /** A caller is let in exactly when the limit is zero or less, or fewer than `limit` calls were
      recorded in the last minute; a call is recorded exactly when it is let in under a positive
      limit. */
  lemma AllowedExactly(calls: seq<Call>, n: nat)
    requires n < |calls| && InOrder(calls)
    ensures var c, recorded := calls[n], History(calls, n);
            && (AnswerTo(calls, n).allowed <==> c.limit <= 0 || Recent(recorded, c.now) < c.limit)
            && History(calls, n + 1) == if 0 < c.limit && Recent(recorded, c.now) < c.limit then recorded + [c.now] else recorded
  {
    PrunedIsHistory(calls, n, calls[n].now);
    PruneCounts(History(calls, n), calls[n].now);
    RunNext(calls, n);
    hide Prune, HitsAfter, History, Recent, RetryAfter;
  }

  /** A limit of zero or less admits every caller, in any order, and records nothing. */
  lemma UnlimitedAdmits(calls: seq<Call>, n: nat)
    requires n < |calls| && calls[n].limit <= 0
    ensures AnswerTo(calls, n) == Answer(true, 0) && HitsAfter(calls, n + 1) == HitsAfter(calls, n)
  {
    hide Prune;
  }

  predicate Sorted(ts: seq<real>) {
    forall i, j :: 0 <= i < j < |ts| ==> ts[i] <= ts[j]
  }

  /** Recorded hits are in time order and never later than the last reading. */
  lemma {:induction false} HitsSorted(calls: seq<Call>, n: nat)
    requires n <= |calls| && InOrder(calls)
    ensures Sorted(HitsAfter(calls, n))
    ensures forall t :: t in HitsAfter(calls, n) ==> exists i :: 0 <= i < n && calls[i].now == t
  {
    if n > 0 {
      HitsSorted(calls, n - 1);
      var hits, now := HitsAfter(calls, n - 1), calls[n - 1].now;
      PruneSorted(hits, now);
      var kept := Prune(hits, now);
      forall k | 0 <= k < |kept| ensures kept[k] <= now {
        assert kept[k] in kept && kept[k] in hits;
        var i :| 0 <= i < n - 1 && calls[i].now == kept[k];
      }
      assert Sorted(kept + [now]);
      forall t | t in HitsAfter(calls, n) ensures exists i :: 0 <= i < n && calls[i].now == t {
        if t in HitsAfter(calls, n - 1) {
          var i :| 0 <= i < n - 1 && calls[i].now == t;
        } else {
          assert t == calls[n - 1].now;
        }
      }
    }
  }

  lemma {:induction false} PruneSorted(hits: seq<real>, now: real)
    requires Sorted(hits)
    ensures Sorted(Prune(hits, now))
  {
    if hits != [] {
      PruneSorted(hits[1..], now);
      var rest := Prune(hits[1..], now);
      forall j | 0 <= j < |rest| ensures hits[0] <= rest[j] {
        assert rest[j] in rest && rest[j] in hits[1..];
      }
    }
  }

  /** With a constant limit a key never stores more hits than the limit. */
  lemma {:induction false} NeverStoresMore(calls: seq<Call>, n: nat, limit: int)
    requires n <= |calls| && limit > 0
    requires forall i :: 0 <= i < |calls| ==> calls[i].limit == limit
    ensures |HitsAfter(calls, n)| <= limit
  {
    if n > 0 {
      NeverStoresMore(calls, n - 1, limit);
    }
  }

  /** When exactly `limit` hits fill the window, an undisturbed caller is let in again precisely
      once the oldest of them has aged out. */
  lemma FreedWhenOldestAges(hits: seq<real>, limit: int, now: real, wait: real)
    requires limit > 0 && |Prune(hits, now)| == limit && wait >= 0.0
    requires Sorted(hits)
    ensures Attempt(Attempt(hits, limit, now).1, limit, now + wait).0.allowed
            <==> wait >= WINDOW - (now - Prune(hits, now)[0])
  {
    var kept := Prune(hits, now);
    PruneSorted(hits, now);
    if wait >= WINDOW - (now - kept[0]) {
      assert |Prune(kept[1..], now + wait)| <= |kept| - 1;
    } else {
      PruneKeepsAll(kept, now + wait);
    }
  }

  lemma {:induction false} PruneKeepsAll(hits: seq<real>, now: real)
    requires forall t :: t in hits ==> now - t < WINDOW
    ensures Prune(hits, now) == hits
  {
    if hits != [] {
      assert hits[0] in hits && forall t :: t in hits[1..] ==> t in hits;
      PruneKeepsAll(hits[1..], now);
    }
  }

  /** The advertised wait of a refused call, against the true time until a slot frees: between
      1 and 60 seconds, less than a second too long, less than a millisecond too short. The true time is the
      one from which an undisturbed caller, after `wait` more seconds, is let in. */
  lemma RetryWithinBounds(calls: seq<Call>, n: nat, limit: int, wait: real)
    requires n < |calls| && limit > 0 && InOrder(calls) && wait >= 0.0
    requires forall i :: 0 <= i < |calls| ==> calls[i].limit == limit
    requires !AnswerTo(calls, n).allowed
    ensures var now, retry := calls[n].now, AnswerTo(calls, n).retryAfter;
            var kept := Prune(HitsAfter(calls, n), now);
            && |kept| == limit
            && var remaining := WINDOW - (now - kept[0]);
               && 1 <= retry <= 60
               && remaining - 0.001 < retry as real < remaining + 1.0
               && (Attempt(HitsAfter(calls, n + 1), limit, now + wait).0.allowed <==> wait >= remaining)
  {
    var now := calls[n].now;
    var hits := HitsAfter(calls, n);
    HitsSorted(calls, n);
    NeverStoresMore(calls, n, limit);
    var kept := Prune(hits, now);
    assert kept[0] in kept && kept[0] in hits;
    var i :| 0 <= i < n && calls[i].now == kept[0];
    assert calls[i].now <= now;
    assert HitsAfter(calls, n + 1) == Attempt(hits, limit, now).1;
    FreedWhenOldestAges(hits, limit, now, wait);
  }

  /** The part of a time beyond its whole seconds. */
  function Excess(t: real): real {
    t - t.Floor as real
  }

  /** Waiting as told suffices, if nobody else calls in between, exactly when the true remaining
      time is under a second or does not exceed a whole second by less than a millisecond. */
  predicate RoundsWell(remaining: real) {
    remaining < 1.0 || Excess(remaining) == 0.0 || Excess(remaining) >= 0.001
  }

  lemma RetrySufficesExactly(calls: seq<Call>, n: nat, limit: int)
    requires n < |calls| && limit > 0 && InOrder(calls)
    requires forall i :: 0 <= i < |calls| ==> calls[i].limit == limit
    requires !AnswerTo(calls, n).allowed
    ensures var now, retry := calls[n].now, AnswerTo(calls, n).retryAfter;
            var kept := Prune(HitsAfter(calls, n), now);
            && |kept| == limit
            && (Attempt(HitsAfter(calls, n + 1), limit, now + retry as real).0.allowed
                <==> RoundsWell(WINDOW - (now - kept[0])))
  {
    hide HitsAfter, Prune;
    var now, retry := calls[n].now, AnswerTo(calls, n).retryAfter;
    RetryWithinBounds(calls, n, limit, retry as real);
    var kept := Prune(HitsAfter(calls, n), now);
    assert kept[0] in kept;
    RoundedUp(WINDOW - (now - kept[0]));
  }

  /** The arithmetic of the rounding. */
  lemma RoundedUp(remaining: real)
    requires remaining > 0.0
    ensures Rounded(remaining) as real >= remaining <==> RoundsWell(remaining)
  {
    var whole, e := remaining.Floor, Excess(remaining);
    FloorIs(remaining + 0.999, if e < 0.001 then whole else whole + 1);
  }

  lemma FloorIs(t: real, n: int)
    requires n as real <= t < n as real + 1.0
    ensures t.Floor == n
  {
  }

  /** The rounding can come out short: a caller that waits exactly as told may be refused. */
  lemma RetryCanBeShort()
    ensures var calls := [Call(0.0, 1), Call(58.9995, 1), Call(59.9995, 1)];
            !AnswerTo(calls, 1).allowed && AnswerTo(calls, 1).retryAfter == 1 && !AnswerTo(calls, 2).allowed
  {
    var calls := [Call(0.0, 1), Call(58.9995, 1), Call(59.9995, 1)];
    assert HitsAfter(calls, 0) == [];
    assert Prune([], 0.0) == [];
    assert HitsAfter(calls, 1) == [0.0];
    PruneKeepsAll([0.0], 58.9995);
    PruneKeepsAll([0.0], 59.9995);
    assert HitsAfter(calls, 2) == [0.0];
  }
}
