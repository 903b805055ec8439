/**
  The cache of seen authenticators and the clock-skew check in front of it.
  Entries are evicted lazily, only when the cache has grown past a limit.
  Times are seconds on one clock; the skew check sees whole seconds of it.
 */
module ReplayCache {
  import opened Bytes

  const CLOCK_SKEW := 300

  const TTL: real := 600.0

  const EVICT_ABOVE := 1024

  type Seen = map<ByteString, real>

  predicate Fresh(stamp: real, now: real) { now - stamp < TTL }

  /** What `check_and_insert` leaves in the cache before it looks the key up. */
  function Evicted(seen: Seen, now: real): Seen
  {
    if |seen| > EVICT_ABOVE then map k | k in seen && Fresh(seen[k], now) :: seen[k] else seen
  }

  predicate Known(seen: Seen, key: ByteString, now: real) { key in seen && Fresh(seen[key], now) }

  function Inserted(seen: Seen, key: ByteString, now: real): Seen
  {
    if Known(seen, key, now) then seen else seen[key := now]
  }

  class Cache {
    var seen: Seen

    constructor ()
      ensures seen == map[]
    {
      seen := map[];
    }

    /** `check_and_insert` */
    method CheckAndInsert(key: ByteString, now: real) returns (passed: bool)
      modifies this
      ensures passed <==> !Known(Evicted(old(seen), now), key, now)
      ensures seen == Inserted(Evicted(old(seen), now), key, now)
    {
      if |seen| > EVICT_ABOVE {
        seen := map k | k in seen && Fresh(seen[k], now) :: seen[k];
      }
      if key in seen && now - seen[key] < TTL {
        return false;
      }
      seen := seen[key := now];
      return true;
    }
  }

  // ------------------------------------------------------------ runs

  /**
    An attempt to establish a context: the replay key of its authenticator,
    the client's time in it, the moment it is handled, and whether it passes
    the other checks that come before the cache.
   */
  datatype Attempt = Attempt(key: ByteString, ctime: int, at: real, genuine: bool)

  /** The skew check, on the whole seconds of the clock. */
  predicate InSkew(a: Attempt) { -CLOCK_SKEW <= a.ctime - a.at.Floor <= CLOCK_SKEW }

  predicate ReachesCache(a: Attempt) { a.genuine && InSkew(a) }

  function Step(seen: Seen, a: Attempt): (Seen, bool)
  {
    if !ReachesCache(a) then (seen, false)
    else
      var kept := Evicted(seen, a.at);
      (Inserted(kept, a.key, a.at), !Known(kept, a.key, a.at))
  }

  function Answers(seen: Seen, run: seq<Attempt>): (answers: seq<bool>)
    ensures |answers| == |run|
    decreases |run|
  {
    if run == [] then [] else [Step(seen, run[0]).1] + Answers(Step(seen, run[0]).0, run[1..])
  }

  /** Attempts are handled one after the other, none before `from`. */
  predicate Timed(from: real, run: seq<Attempt>)
    decreases |run|
  {
    run == [] || (from <= run[0].at && Timed(run[0].at, run[1..]))
  }

  /** The authenticator fixes the client's time in it. */
  predicate SameStamps(run: seq<Attempt>)
  {
    forall i, j :: 0 <= i < |run| && 0 <= j < |run| && run[i].key == run[j].key ==> run[i].ctime == run[j].ctime
  }

  // ------------------------------------------------------------ a cache that keeps everything

  /** The reference: it remembers every acceptance, for ever. */
  function KeepAll(past: seq<Attempt>, a: Attempt): (seq<Attempt>, bool)
  {
    if !ReachesCache(a) || RecentlyAccepted(past, a) then (past, false) else (past + [a], true)
  }

  predicate RecentlyAccepted(past: seq<Attempt>, a: Attempt)
  {
    exists i :: 0 <= i < |past| && past[i].key == a.key && Fresh(past[i].at, a.at)
  }

  function KeepAllAnswers(past: seq<Attempt>, run: seq<Attempt>): (answers: seq<bool>)
    ensures |answers| == |run|
    decreases |run|
  {
    if run == [] then [] else [KeepAll(past, run[0]).1] + KeepAllAnswers(KeepAll(past, run[0]).0, run[1..])
  }

  /** Cache and reference agree from `now` on. */
  predicate Agree(seen: Seen, past: seq<Attempt>, now: real)
  {
    && (forall k :: k in seen ==>
          seen[k] <= now && exists i :: 0 <= i < |past| && past[i].key == k && past[i].at == seen[k])
    && (forall i :: 0 <= i < |past| && Fresh(past[i].at, now) ==>
        past[i].key in seen && past[i].at <= seen[past[i].key])
  }

  lemma EvictionAgrees(seen: Seen, past: seq<Attempt>, now: real, later: real)
    requires Agree(seen, past, now) && now <= later
    ensures Agree(Evicted(seen, later), past, later)
  {
    var kept := Evicted(seen, later);
    forall i | 0 <= i < |past| && Fresh(past[i].at, later)
      ensures past[i].key in kept && past[i].at <= kept[past[i].key]
    {
      assert Fresh(past[i].at, now);
    }
  }

  lemma KnownIffRecent(seen: Seen, past: seq<Attempt>, a: Attempt)
    requires Agree(seen, past, a.at)
    ensures Known(seen, a.key, a.at) <==> RecentlyAccepted(past, a)
  {
  }

  lemma InsertionAgrees(seen: Seen, past: seq<Attempt>, a: Attempt)
    requires Agree(seen, past, a.at) && !RecentlyAccepted(past, a)
    ensures Agree(seen[a.key := a.at], past + [a], a.at)
  {
    var next, all := seen[a.key := a.at], past + [a];
    forall k | k in next
      ensures next[k] <= a.at && exists i :: 0 <= i < |all| && all[i].key == k && all[i].at == next[k]
    {
      if k == a.key {
        assert all[|past|] == a;
      } else {
        var i :| 0 <= i < |past| && past[i].key == k && past[i].at == seen[k];
        assert all[i] == past[i];
      }
    }
  }

  lemma StepAgrees(seen: Seen, past: seq<Attempt>, now: real, a: Attempt)
    requires Agree(seen, past, now) && now <= a.at
    ensures Step(seen, a).1 == KeepAll(past, a).1
    ensures Agree(Step(seen, a).0, KeepAll(past, a).0, a.at)
  {
    var kept := Evicted(seen, a.at);
    EvictionAgrees(seen, past, now, a.at);
    KnownIffRecent(kept, past, a);
    if ReachesCache(a) {
      if !RecentlyAccepted(past, a) {
        InsertionAgrees(kept, past, a);
      }
    } else {
      forall i | 0 <= i < |past| && Fresh(past[i].at, a.at)
        ensures past[i].key in seen && past[i].at <= seen[past[i].key]
      {
        assert Fresh(past[i].at, now);
      }
    }
  }

  /** Lazy eviction is never seen: the cache answers like one that keeps every acceptance. */
  lemma {:induction false} CacheRefinesKeepAll(seen: Seen, past: seq<Attempt>, now: real, run: seq<Attempt>)
    requires Agree(seen, past, now) && Timed(now, run)
    ensures Answers(seen, run) == KeepAllAnswers(past, run)
    decreases |run|
  {
    if run != [] {
      StepAgrees(seen, past, now, run[0]);
      CacheRefinesKeepAll(Step(seen, run[0]).0, KeepAll(past, run[0]).0, run[0].at, run[1..]);
    }
  }

  // ------------------------------------------------------------ what the answers mean

  /** An earlier acceptance in `past` or in the run so far, too recent for `run[j]`. */
  predicate Replayed(past: seq<Attempt>, run: seq<Attempt>, answers: seq<bool>, j: nat)
    requires j < |run| == |answers|
  {
    || RecentlyAccepted(past, run[j])
    || exists i :: 0 <= i < j && answers[i] && run[i].key == run[j].key && Fresh(run[i].at, run[j].at)
  }

  lemma {:induction false} KeepAllMeaning(past: seq<Attempt>, run: seq<Attempt>, j: nat)
    requires j < |run|
    ensures KeepAllAnswers(past, run)[j] <==>
            ReachesCache(run[j]) && !Replayed(past, run, KeepAllAnswers(past, run), j)
    decreases |run|
  {
    if j > 0 {
      var (next, ok) := KeepAll(past, run[0]);
      var tail, all := KeepAllAnswers(next, run[1..]), KeepAllAnswers(past, run);
      KeepAllMeaning(next, run[1..], j - 1);
      if Replayed(past, run, all, j) {
        ReplayedStays(past, run, ok, tail, j);
      }
      if Replayed(next, run[1..], tail, j - 1) {
        ReplayedWas(past, run, ok, tail, j);
      }
    }
  }

  lemma ReplayedStays(past: seq<Attempt>, run: seq<Attempt>, ok: bool, tail: seq<bool>, j: nat)
    requires 0 < j < |run| == |tail| + 1 && Replayed(past, run, [ok] + tail, j)
    ensures Replayed(if ok then past + [run[0]] else past, run[1..], tail, j - 1)
  {
    var next, all := if ok then past + [run[0]] else past, [ok] + tail;
    if RecentlyAccepted(past, run[j]) {
      var i :| 0 <= i < |past| && past[i].key == run[j].key && Fresh(past[i].at, run[j].at);
      assert next[i] == past[i];
    } else {
      var i :| 0 <= i < j && all[i] && run[i].key == run[j].key && Fresh(run[i].at, run[j].at);
      if i == 0 {
        assert next[|past|] == run[0];
      } else {
        assert tail[i - 1] && run[1..][i - 1] == run[i];
      }
    }
  }

  lemma ReplayedWas(past: seq<Attempt>, run: seq<Attempt>, ok: bool, tail: seq<bool>, j: nat)
    requires 0 < j < |run| == |tail| + 1
    requires Replayed(if ok then past + [run[0]] else past, run[1..], tail, j - 1)
    ensures Replayed(past, run, [ok] + tail, j)
  {
    var next, all := if ok then past + [run[0]] else past, [ok] + tail;
    if RecentlyAccepted(next, run[j]) {
      var i :| 0 <= i < |next| && next[i].key == run[j].key && Fresh(next[i].at, run[j].at);
      if i < |past| {
        assert past[i] == next[i];
      } else {
        assert all[0];
      }
    } else {
      var i :| 0 <= i < j - 1 && tail[i] && run[1..][i].key == run[j].key && Fresh(run[1..][i].at, run[j].at);
      assert all[i + 1] && run[i + 1] == run[1..][i];
    }
  }

  /**
    Over every run from an empty cache: an attempt that reaches the cache is
    refused exactly when the same authenticator was accepted less than twice
    the clock skew before.
   */
  lemma RefusedIffRecent(run: seq<Attempt>, start: real, j: nat)
    requires Timed(start, run) && j < |run|
    ensures Answers(map[], run)[j] <==>
            && ReachesCache(run[j])
            && !exists i :: 0 <= i < j && Answers(map[], run)[i]
                              && run[i].key == run[j].key && Fresh(run[i].at, run[j].at)
  {
    CacheRefinesKeepAll(map[], [], start, run);
    KeepAllMeaning([], run, j);
  }

  /** Two acceptances of one authenticator are at least twice the clock skew apart. */
  lemma AcceptancesApart(run: seq<Attempt>, start: real, i: nat, j: nat)
    requires Timed(start, run) && i < j < |run|
    requires run[i].key == run[j].key && Answers(map[], run)[i] && Answers(map[], run)[j]
    ensures run[j].at - run[i].at >= TTL
  {
    RefusedIffRecent(run, start, j);
  }

  /**
    With the skew check only the two exact ends of its window remain: the
    first acceptance in the very first second, the second in the very last.
   */
  lemma OnlyTheEndsRemain(run: seq<Attempt>, start: real, i: nat, j: nat)
    requires Timed(start, run) && SameStamps(run) && i < j < |run|
    requires run[i].key == run[j].key && Answers(map[], run)[i] && Answers(map[], run)[j]
    ensures run[i].at.Floor == run[i].ctime - CLOCK_SKEW
    ensures run[j].at.Floor == run[j].ctime + CLOCK_SKEW
  {
    AcceptancesApart(run, start, i, j);
    RefusedIffRecent(run, start, i);
    RefusedIffRecent(run, start, j);
  }

  lemma {:induction false} TimesRise(from: real, run: seq<Attempt>, i: nat, j: nat)
    requires Timed(from, run) && i <= j < |run|
    ensures from <= run[i].at <= run[j].at
    decreases |run|
  {
    if i > 0 {
      TimesRise(run[0].at, run[1..], i - 1, j - 1);
    } else if j > 0 {
      TimesRise(run[0].at, run[1..], 0, j - 1);
    }
  }

  /** `b` repeats `a` at the two ends of the window: first second, last second, and the whole time between. */
  predicate BothEnds(a: Attempt, b: Attempt)
  {
    && b.key == a.key && b.genuine
    && a.at.Floor == a.ctime - CLOCK_SKEW && b.at.Floor == a.ctime + CLOCK_SKEW
    && b.at - a.at >= TTL
  }

  /** After an acceptance and none since, a repetition is accepted exactly at both ends. */
  lemma NextAcceptanceIff(run: seq<Attempt>, start: real, i: nat, j: nat)
    requires Timed(start, run) && SameStamps(run) && i < j < |run| && run[i].key == run[j].key
    requires Answers(map[], run)[i]
    requires forall k :: i < k < j && run[k].key == run[i].key ==> !Answers(map[], run)[k]
    ensures Answers(map[], run)[j] <==> BothEnds(run[i], run[j])
  {
    RefusedIffRecent(run, start, i);
    RefusedIffRecent(run, start, j);
    if Answers(map[], run)[j] {
      AcceptancesApart(run, start, i, j);
      OnlyTheEndsRemain(run, start, i, j);
    } else {
      forall k | 0 <= k < i ensures run[k].at <= run[i].at {
        TimesRise(start, run, k, i);
      }
    }
  }

  /** Attempt `i` is the first of its authenticator that reaches the cache. */
  predicate FirstToReach(run: seq<Attempt>, i: nat)
    requires i < |run|
  {
    ReachesCache(run[i]) && forall k :: 0 <= k < i && run[k].key == run[i].key ==> !ReachesCache(run[k])
  }

  lemma FirstIsAccepted(run: seq<Attempt>, start: real, i: nat)
    requires Timed(start, run) && i < |run| && FirstToReach(run, i)
    ensures Answers(map[], run)[i]
  {
    RefusedIffRecent(run, start, i);
    forall k | 0 <= k < i && run[k].key == run[i].key ensures !Answers(map[], run)[k] {
      RefusedIffRecent(run, start, k);
    }
  }

  /**
    Said of the attempts alone: after the first one that reaches the cache, a
    later one is accepted exactly when it repeats it at both ends of the window
    and none before it does.
   */
  lemma {:induction false} RepetitionAcceptedIff(run: seq<Attempt>, start: real, i: nat, j: nat)
    requires Timed(start, run) && SameStamps(run) && i < j < |run| && run[i].key == run[j].key
    requires FirstToReach(run, i)
    ensures Answers(map[], run)[j] <==>
            BothEnds(run[i], run[j]) && forall k :: i < k < j ==> !BothEnds(run[i], run[k])
    decreases j
  {
    FirstIsAccepted(run, start, i);
    if k :| i < k < j && BothEnds(run[i], run[k]) {
      LastSecondOnce(run, start, i, k, j);
    } else {
      forall k | i < k < j && run[k].key == run[i].key ensures !Answers(map[], run)[k] {
        RepetitionAcceptedIff(run, start, i, k);
      }
      NextAcceptanceIff(run, start, i, j);
    }
  }

  /** One acceptance in the last second, and none after it. */
  lemma LastSecondOnce(run: seq<Attempt>, start: real, i: nat, k: nat, j: nat)
    requires Timed(start, run) && SameStamps(run) && i < k < j < |run| && run[i].key == run[j].key
    requires Answers(map[], run)[i] && BothEnds(run[i], run[k])
    ensures !Answers(map[], run)[j]
  {
    if Answers(map[], run)[j] {
      RefusedIffRecent(run, start, k);
      if Answers(map[], run)[k] {
        NeverThreeTimes(run, start, i, k, j);
      } else {
        RefusedIffRecent(run, start, i);
        RefusedIffRecent(run, start, j);
        var m :| 0 <= m < k && Answers(map[], run)[m] && run[m].key == run[k].key && Fresh(run[m].at, run[k].at);
        if i < m {
          NeverThreeTimes(run, start, i, m, j);
        }
        assert false;
      }
    }
  }

  /** An authenticator is accepted twice in a run exactly when some later attempt repeats its first at both ends. */
  lemma AcceptedTwiceIff(run: seq<Attempt>, start: real, i: nat)
    requires Timed(start, run) && SameStamps(run) && i < |run| && FirstToReach(run, i)
    ensures (exists j :: i < j < |run| && run[j].key == run[i].key && Answers(map[], run)[j]) <==>
            exists j :: i < j < |run| && BothEnds(run[i], run[j])
  {
    if j :| i < j < |run| && run[j].key == run[i].key && Answers(map[], run)[j] {
      RepetitionAcceptedIff(run, start, i, j);
    }
    if j :| i < j < |run| && BothEnds(run[i], run[j]) {
      SomeRepetitionAccepted(run, start, i, j);
    }
  }

  lemma {:induction false} SomeRepetitionAccepted(run: seq<Attempt>, start: real, i: nat, j: nat)
    requires Timed(start, run) && SameStamps(run) && i < j < |run| && FirstToReach(run, i) && BothEnds(run[i], run[j])
    ensures exists k :: i < k < |run| && run[k].key == run[i].key && Answers(map[], run)[k]
    decreases j
  {
    RepetitionAcceptedIff(run, start, i, j);
    if !Answers(map[], run)[j] {
      var k :| i < k < j && BothEnds(run[i], run[k]);
      SomeRepetitionAccepted(run, start, i, k);
    }
  }

  /** So of three acceptances of one authenticator there is no run. */
  lemma NeverThreeTimes(run: seq<Attempt>, start: real, i: nat, j: nat, k: nat)
    requires Timed(start, run) && SameStamps(run) && i < j < k < |run|
    requires run[i].key == run[j].key == run[k].key
    ensures !(Answers(map[], run)[i] && Answers(map[], run)[j] && Answers(map[], run)[k])
  {
    if Answers(map[], run)[i] && Answers(map[], run)[j] && Answers(map[], run)[k] {
      OnlyTheEndsRemain(run, start, i, j);
      OnlyTheEndsRemain(run, start, j, k);
      assert false;
    }
  }

  /** The two ends do happen: one authenticator accepted at both. */
  lemma BothEndsAccepted(key: ByteString)
    ensures var run := [Attempt(key, 300, 0.0, true), Attempt(key, 300, 600.0, true)];
            Timed(0.0, run) && SameStamps(run) && Answers(map[], run) == [true, true]
  {
    var run := [Attempt(key, 300, 0.0, true), Attempt(key, 300, 600.0, true)];
    var seen: Seen := map[];
    assert Step(seen, run[0]) == (seen[key := 0.0], true);
    assert run[1..] == [run[1]];
    assert Step(seen[key := 0.0], run[1]).1;
    assert Answers(seen[key := 0.0], run[1..]) == [true];
  }

  // ------------------------------------------------------------ size

  /** Once past the limit the cache holds only what it still needs. */
  lemma StepTrims(seen: Seen, a: Attempt)
    requires ReachesCache(a)
    ensures var kept := Step(seen, a).0; |kept| <= 1025 || forall k :: k in kept ==> a.at - kept[k] < 600.0
  {
    var kept := Evicted(seen, a.at);
    if |seen| <= EVICT_ABOVE {
      var next := Step(seen, a).0;
      if next != seen {
        assert next.Keys == seen.Keys + {a.key};
        assert |next.Keys| <= |seen.Keys| + 1;
        assert |next| == |next.Keys| && |seen| == |seen.Keys|;
      }
    }
  }
}
