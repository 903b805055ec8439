/**
  The per-export token-bucket limiter: one bucket for operations, one for
  bytes, refilled lazily.  An operation larger than the byte bucket passes
  once the bucket is full and leaves it in debt.  Token counts and times are
  real numbers here; the program keeps them as 64-bit floats.
 */
module RateLimiter {

  datatype QosConfig = QosConfig(maxOps: nat, maxBytes: nat)

  /** The limiter as a value: tokens at the time of the last refill. */
  datatype Limiter = Limiter(ops: real, bytes: real, last: real, config: QosConfig)

  function Min(a: real, b: real): real { if a <= b then a else b }

  function Max(a: real, b: real): real { if a >= b then a else b }

  /** What a bucket of capacity `cap` that refills at `cap` per second holds after `elapsed`. */
  function Filled(tokens: real, cap: nat, elapsed: real): real
  {
    if cap > 0 then Min(cap as real, tokens + elapsed * cap as real) else tokens
  }

  /** `refill` */
  function Refill(l: Limiter, now: real): Limiter
  {
    l.(ops := Filled(l.ops, l.config.maxOps, now - l.last),
       bytes := Filled(l.bytes, l.config.maxBytes, now - l.last),
       last := now)
  }

  /** `try_consume` */
  function TryConsume(l: Limiter, now: real, bytes: nat): (Limiter, bool)
  {
    var opsLimited := l.config.maxOps > 0;
    var bytesLimited := l.config.maxBytes > 0 && bytes > 0;
    if !opsLimited && !bytesLimited then (l, true)
    else
      var r := Refill(l, now);
      if opsLimited && r.ops < 1.0 then (r, false)
      else if bytesLimited && r.bytes < Min(bytes as real, r.config.maxBytes as real) then (r, false)
      else (r.(bytes := if bytesLimited then r.bytes - bytes as real else r.bytes,
               ops := if opsLimited then r.ops - 1.0 else r.ops), true)
  }

  /** `try_consume_op` */
  function TryConsumeOp(l: Limiter, now: real): (Limiter, bool)
  {
    if l.config.maxOps == 0 then (l, true)
    else
      var r := Refill(l, now);
      if r.ops >= 1.0 then (r.(ops := r.ops - 1.0), true) else (r, false)
  }

  /** `try_consume_bytes` */
  function TryConsumeBytes(l: Limiter, now: real, bytes: nat): (Limiter, bool)
  {
    if l.config.maxBytes == 0 then (l, true)
    else
      var r := Refill(l, now);
      if r.bytes >= bytes as real then (r.(bytes := r.bytes - bytes as real), true) else (r, false)
  }

  /** `update_config`: a changed limit starts with a full bucket. */
  function UpdateConfig(l: Limiter, now: real, config: QosConfig): Limiter
  {
    Limiter(if config.maxOps != l.config.maxOps then config.maxOps as real else l.ops,
            if config.maxBytes != l.config.maxBytes then config.maxBytes as real else l.bytes,
            now, config)
  }

  function New(now: real, config: QosConfig): Limiter
  {
    Limiter(config.maxOps as real, config.maxBytes as real, now, config)
  }

  /** What every operation keeps: no bucket over its capacity, no debt of operations. */
  predicate Reachable(l: Limiter)
  {
    && (l.config.maxOps > 0 ==> 0.0 <= l.ops <= l.config.maxOps as real)
    && (l.config.maxBytes > 0 ==> l.bytes <= l.config.maxBytes as real)
  }

  // ------------------------------------------------------------ bucket levels

  /** The level a bucket would show at time `t`. */
  function OpsLevel(l: Limiter, t: real): real { Filled(l.ops, l.config.maxOps, t - l.last) }

  function BytesLevel(l: Limiter, t: real): real { Filled(l.bytes, l.config.maxBytes, t - l.last) }

  lemma MulNonNegative(x: real, y: real)
    requires x >= 0.0 && y >= 0.0
    ensures x * y >= 0.0
  {
  }

  /** Refilling in two steps is refilling once, and time only fills. */
  lemma FillsCompose(tokens: real, cap: nat, first: real, second: real)
    requires first >= 0.0 && second >= 0.0
    ensures Filled(Filled(tokens, cap, first), cap, second) == Filled(tokens, cap, first + second)
    ensures Filled(tokens, cap, first + second) <= Filled(tokens, cap, first) + second * cap as real
    ensures Filled(tokens, cap, first) <= Filled(tokens, cap, first + second)
  {
    var c := cap as real;
    assert (first + second) * c == first * c + second * c;
    MulNonNegative(second, c);
  }

  lemma LevelsAfterRefill(l: Limiter, s: real, t: real)
    requires l.last <= s <= t
    ensures OpsLevel(Refill(l, s), t) == OpsLevel(l, t)
    ensures BytesLevel(Refill(l, s), t) == BytesLevel(l, t)
  {
    FillsCompose(l.ops, l.config.maxOps, s - l.last, t - s);
    FillsCompose(l.bytes, l.config.maxBytes, s - l.last, t - s);
    assert (s - l.last) + (t - s) == t - l.last;
  }

  lemma LevelGrowth(l: Limiter, s: real, t: real)
    requires l.last <= s <= t
    ensures OpsLevel(l, s) <= OpsLevel(l, t) <= OpsLevel(l, s) + (t - s) * l.config.maxOps as real
    ensures BytesLevel(l, s) <= BytesLevel(l, t) <= BytesLevel(l, s) + (t - s) * l.config.maxBytes as real
  {
    FillsCompose(l.ops, l.config.maxOps, s - l.last, t - s);
    FillsCompose(l.bytes, l.config.maxBytes, s - l.last, t - s);
    assert (s - l.last) + (t - s) == t - l.last;
  }

  // ------------------------------------------------------------ runs

  datatype Attempt = Both(size: nat) | OpOnly | BytesOnly(size: nat)

  datatype Event = Event(at: real, attempt: Attempt)

  function Step(l: Limiter, e: Event): (Limiter, bool)
  {
    match e.attempt
    case Both(size) => TryConsume(l, e.at, size)
    case OpOnly => TryConsumeOp(l, e.at)
    case BytesOnly(size) => TryConsumeBytes(l, e.at, size)
  }

  /** The attempts come in time order, none before `from` and none after `to`. */
  predicate Timed(from: real, events: seq<Event>, to: real)
    decreases |events|
  {
    if events == [] then from <= to
    else from <= events[0].at && Timed(events[0].at, events[1..], to)
  }

  function End(l: Limiter, events: seq<Event>): Limiter
    decreases |events|
  {
    if events == [] then l else End(Step(l, events[0]).0, events[1..])
  }

  /** Bytes the attempt takes from the byte bucket if it is admitted. */
  function SizeOf(e: Event): nat
  {
    match e.attempt
    case Both(size) => size
    case OpOnly => 0
    case BytesOnly(size) => size
  }

  function OpsOf(e: Event): nat { if e.attempt.BytesOnly? then 0 else 1 }

  function Taken(l: Limiter, e: Event): nat { if Step(l, e).1 then SizeOf(e) else 0 }

  function OpsTaken(l: Limiter, e: Event): nat { if Step(l, e).1 then OpsOf(e) else 0 }

  function AdmittedBytes(l: Limiter, events: seq<Event>): nat
    decreases |events|
  {
    if events == [] then 0
    else Taken(l, events[0]) + AdmittedBytes(Step(l, events[0]).0, events[1..])
  }

  function AdmittedOps(l: Limiter, events: seq<Event>): nat
    decreases |events|
  {
    if events == [] then 0
    else OpsTaken(l, events[0]) + AdmittedOps(Step(l, events[0]).0, events[1..])
  }

  /** By how much the largest admitted operation exceeds one byte bucket. */
  function Excess(l: Limiter, events: seq<Event>): (x: real)
    ensures x >= 0.0
    decreases |events|
  {
    if events == [] then 0.0
    else
      var (next, ok) := Step(l, events[0]);
      var own := if ok then SizeOf(events[0]) as real - l.config.maxBytes as real else 0.0;
      Max(own, Excess(next, events[1..]))
  }

  /** What a bucket shows right after a refill at that moment. */
  lemma LevelNow(l: Limiter, now: real)
    requires l.last == now
    ensures OpsLevel(l, now) == (if l.config.maxOps > 0 then Min(l.config.maxOps as real, l.ops) else l.ops)
    ensures BytesLevel(l, now) == (if l.config.maxBytes > 0 then Min(l.config.maxBytes as real, l.bytes) else l.bytes)
  {
  }

  /** A refill keeps the bounds and the levels. */
  lemma RefillBooks(l: Limiter, now: real)
    requires Reachable(l) && l.last <= now
    ensures var r := Refill(l, now);
            && r.config == l.config && r.last == now && Reachable(r)
            && r.ops == OpsLevel(l, now) && r.bytes == BytesLevel(l, now)
  {
    LevelGrowth(l, l.last, now);
  }

  /** The books of one attempt that took `bytes` and `ops`. */
  predicate Booked(l: Limiter, next: Limiter, now: real, bytes: nat, ops: nat)
  {
    && next.config == l.config && l.last <= next.last <= now && Reachable(next)
    && (l.config.maxBytes > 0 ==> BytesLevel(next, now) == BytesLevel(l, now) - bytes as real)
    && (l.config.maxOps > 0 ==> OpsLevel(next, now) == OpsLevel(l, now) - ops as real)
    && (l.config.maxBytes > 0 && bytes > 0 ==>
        BytesLevel(next, now) >= Min(0.0, l.config.maxBytes as real - bytes as real))
  }

  /** Taking from a refilled limiter what its buckets allow. */
  lemma TakingBooks(l: Limiter, now: real, bytes: nat, ops: nat)
    requires Reachable(l) && l.last <= now
    requires ops <= 1 && (l.config.maxOps > 0 ==> OpsLevel(l, now) >= ops as real)
    requires l.config.maxBytes > 0 && bytes > 0 ==> BytesLevel(l, now) >= Min(bytes as real, l.config.maxBytes as real)
    ensures var r := Refill(l, now);
            var next := r.(bytes := if l.config.maxBytes > 0 then r.bytes - bytes as real else r.bytes,
                           ops := if l.config.maxOps > 0 then r.ops - ops as real else r.ops);
            Booked(l, next, now, bytes, ops)
  {
    RefillBooks(l, now);
    var r := Refill(l, now);
    LevelNow(r.(bytes := if l.config.maxBytes > 0 then r.bytes - bytes as real else r.bytes,
                ops := if l.config.maxOps > 0 then r.ops - ops as real else r.ops), now);
  }

  /** One attempt: it pays for what it takes, never takes an operation twice, and debts only an oversized one. */
  lemma StepBooks(l: Limiter, e: Event)
    requires Reachable(l) && l.last <= e.at
    ensures Booked(l, Step(l, e).0, e.at, Taken(l, e), OpsTaken(l, e))
  {
    RefillBooks(l, e.at);
    var ops, bytes := if Step(l, e).1 then OpsOf(e) else 0, if Step(l, e).1 then SizeOf(e) else 0;
    TakingBooks(l, e.at, bytes, ops);
  }

  /** Taking `spent` brings a bucket from `level` at `from` to at least `after` at `at`, refill included. */
  predicate Paid(spent: nat, rate: nat, from: real, at: real, level: real, after: real)
  {
    spent as real <= level + (at - from) * rate as real - after
  }

  /** The books of a stretch are the books of its first attempt and of the rest. */
  lemma JoinBooks(own: nat, rest: nat, rate: nat, from: real, at: real, to: real, level: real, after: real, end: real)
    requires Paid(own, rate, from, at, level, after) && Paid(rest, rate, at, to, after, end)
    ensures Paid(own + rest, rate, from, to, level, end)
  {
    assert (to - from) * rate as real == (at - from) * rate as real + (to - at) * rate as real;
  }

  /** One attempt's bytes, paid for by the level before it and the refill up to it. */
  lemma BytesPaid(l: Limiter, from: real, e: Event)
    requires Reachable(l) && l.config.maxBytes > 0 && l.last <= from <= e.at
    ensures Paid(Taken(l, e), l.config.maxBytes, from, e.at, BytesLevel(l, from), BytesLevel(Step(l, e).0, e.at))
  {
    StepBooks(l, e);
    LevelGrowth(l, from, e.at);
  }

  lemma OpsPaid(l: Limiter, from: real, e: Event)
    requires Reachable(l) && l.config.maxOps > 0 && l.last <= from <= e.at
    ensures Paid(OpsTaken(l, e), l.config.maxOps, from, e.at, OpsLevel(l, from), OpsLevel(Step(l, e).0, e.at))
  {
    StepBooks(l, e);
    LevelGrowth(l, from, e.at);
  }

  /** No attempt changes the limits or leaves the bounds, and time goes on. */
  lemma {:induction false} RunKeeps(l: Limiter, from: real, events: seq<Event>, to: real)
    requires Reachable(l) && l.last <= from && Timed(from, events, to)
    ensures End(l, events).config == l.config && Reachable(End(l, events)) && End(l, events).last <= to && from <= to
    decreases |events|
  {
    if events != [] {
      StepBooks(l, events[0]);
      RunKeeps(Step(l, events[0]).0, events[0].at, events[1..], to);
    }
  }

  /** Over a run the bytes admitted are paid for by the level and the refill. */
  lemma {:induction false} BytesBudget(l: Limiter, from: real, events: seq<Event>, to: real)
    requires Reachable(l) && l.config.maxBytes > 0
    requires l.last <= from && Timed(from, events, to)
    ensures Paid(AdmittedBytes(l, events), l.config.maxBytes, from, to, BytesLevel(l, from),
                 BytesLevel(End(l, events), to))
    decreases |events|
  {
    if events == [] {
      LevelGrowth(l, from, to);
    } else {
      var e := events[0];
      var next := Step(l, e).0;
      StepBooks(l, e);
      BytesPaid(l, from, e);
      BytesBudget(next, e.at, events[1..], to);
      JoinBooks(Taken(l, e), AdmittedBytes(next, events[1..]), l.config.maxBytes, from, e.at, to,
                BytesLevel(l, from), BytesLevel(next, e.at), BytesLevel(End(l, events), to));
    }
  }

  /** After an admitted operation the debt is at most its excess over one bucket. */
  lemma {:induction false} DebtBounded(l: Limiter, from: real, events: seq<Event>, to: real)
    requires Reachable(l) && l.config.maxBytes > 0
    requires l.last <= from && Timed(from, events, to)
    ensures End(l, events).last <= to
    ensures AdmittedBytes(l, events) > 0 ==> BytesLevel(End(l, events), to) >= -Excess(l, events)
    ensures AdmittedBytes(l, events) == 0 ==> BytesLevel(End(l, events), to) >= BytesLevel(l, from)
    decreases |events|
  {
    if events == [] {
      LevelGrowth(l, from, to);
    } else {
      var e := events[0];
      StepBooks(l, e);
      LevelGrowth(l, from, e.at);
      DebtBounded(Step(l, e).0, e.at, events[1..], to);
    }
  }

  lemma {:induction false} OpsBudget(l: Limiter, from: real, events: seq<Event>, to: real)
    requires Reachable(l) && l.config.maxOps > 0
    requires l.last <= from && Timed(from, events, to)
    ensures Paid(AdmittedOps(l, events), l.config.maxOps, from, to, OpsLevel(l, from), OpsLevel(End(l, events), to))
    decreases |events|
  {
    if events == [] {
      LevelGrowth(l, from, to);
    } else {
      var e := events[0];
      var next := Step(l, e).0;
      StepBooks(l, e);
      OpsPaid(l, from, e);
      OpsBudget(next, e.at, events[1..], to);
      JoinBooks(OpsTaken(l, e), AdmittedOps(next, events[1..]), l.config.maxOps, from, e.at, to,
                OpsLevel(l, from), OpsLevel(next, e.at), OpsLevel(End(l, events), to));
    }
  }

  /**
    Rate bound for bytes: over any stretch of `to - from` seconds, from any
    reachable state, debt included.
   */
  lemma BytesRateBound(l: Limiter, from: real, events: seq<Event>, to: real)
    requires Reachable(l) && l.config.maxBytes > 0
    requires l.last <= from && Timed(from, events, to)
    ensures AdmittedBytes(l, events) as real
         <= l.config.maxBytes as real * (1.0 + (to - from)) + Excess(l, events)
  {
    RunKeeps(l, from, events, to);
    BytesBudget(l, from, events, to);
    DebtBounded(l, from, events, to);
    MulNonNegative(l.config.maxBytes as real, to - from);
  }

  /** Rate bound for operations. */
  lemma OpsRateBound(l: Limiter, from: real, events: seq<Event>, to: real)
    requires Reachable(l) && l.config.maxOps > 0
    requires l.last <= from && Timed(from, events, to)
    ensures AdmittedOps(l, events) as real <= l.config.maxOps as real * (1.0 + (to - from))
  {
    RunKeeps(l, from, events, to);
    OpsBudget(l, from, events, to);
    var end := End(l, events);
    LevelGrowth(end, end.last, to);
    assert OpsLevel(end, end.last) >= 0.0;
  }

  // ------------------------------------------------------------ no starvation

  /** When a bucket holding `tokens` at `last` reaches `need`. */
  function BucketReady(tokens: real, cap: nat, last: real, need: real): real
    requires cap > 0
  {
    Max(last, last + (need - tokens) / cap as real)
  }

  /** The moment from which an operation moving `bytes` is admitted. */
  function ReadyAt(l: Limiter, bytes: nat): real
  {
    var ops := if l.config.maxOps > 0 then BucketReady(l.ops, l.config.maxOps, l.last, 1.0) else l.last;
    var data :=
      if l.config.maxBytes > 0 && bytes > 0
      then BucketReady(l.bytes, l.config.maxBytes, l.last, Min(bytes as real, l.config.maxBytes as real))
      else l.last;
    Max(ops, data)
  }

  lemma BucketReadyExact(tokens: real, cap: nat, last: real, need: real, t: real)
    requires cap > 0 && tokens <= cap as real && need <= cap as real && last <= t
    ensures Filled(tokens, cap, t - last) >= need <==> t >= BucketReady(tokens, cap, last, need)
  {
    var c, wait := cap as real, (need - tokens) / cap as real;
    assert wait * c == need - tokens;
    if t - last >= wait {
      MulNonNegative(t - last - wait, c);
      assert (t - last - wait) * c == (t - last) * c - wait * c;
    } else {
      MulNonNegative(wait - (t - last), c);
      assert (wait - (t - last)) * c == wait * c - (t - last) * c;
      assert (wait - (t - last)) * c > 0.0;
    }
  }

  /** An operation of any size is admitted exactly from its finite ready time on. */
  lemma AdmittedIffReady(l: Limiter, bytes: nat, t: real)
    requires Reachable(l) && l.last <= t
    ensures TryConsume(l, t, bytes).1 <==> t >= ReadyAt(l, bytes)
  {
    if l.config.maxOps > 0 {
      BucketReadyExact(l.ops, l.config.maxOps, l.last, 1.0, t);
    }
    if l.config.maxBytes > 0 && bytes > 0 {
      BucketReadyExact(l.bytes, l.config.maxBytes, l.last, Min(bytes as real, l.config.maxBytes as real), t);
    }
  }

  /** A refused attempt takes nothing: it is at most a refill. */
  lemma RefusedTakesNothing(l: Limiter, e: Event)
    requires !Step(l, e).1
    ensures Step(l, e).0 == Refill(l, e.at)
  {
  }

  predicate AllRefused(l: Limiter, events: seq<Event>)
    decreases |events|
  {
    events == [] || (!Step(l, events[0]).1 && AllRefused(Step(l, events[0]).0, events[1..]))
  }

  lemma PollKeepsReady(l: Limiter, e: Event, t: real, bytes: nat)
    requires Reachable(l) && l.last <= e.at <= t && !Step(l, e).1
    ensures var next := Step(l, e).0;
            && Reachable(next) && next.last == e.at
            && (t >= ReadyAt(next, bytes) <==> t >= ReadyAt(l, bytes))
  {
    var next := Step(l, e).0;
    StepBooks(l, e);
    RefusedTakesNothing(l, e);
    assert Refill(next, t) == Refill(l, t) by {
      LevelsAfterRefill(l, e.at, t);
    }
    AdmittedIffReady(l, bytes, t);
    AdmittedIffReady(next, bytes, t);
  }

  /** However often one polls in between, admission comes at the same moment. */
  lemma {:induction false} PollingNeverDelays(l: Limiter, events: seq<Event>, t: real, bytes: nat)
    requires Reachable(l) && Timed(l.last, events, t) && AllRefused(l, events)
    ensures Reachable(End(l, events)) && End(l, events).last <= t
    ensures TryConsume(End(l, events), t, bytes).1 <==> t >= ReadyAt(l, bytes)
    decreases |events|
  {
    if events == [] {
      AdmittedIffReady(l, bytes, t);
    } else {
      TimedEnds(events[0].at, events[1..], t);
      PollKeepsReady(l, events[0], t, bytes);
      PollingNeverDelays(Step(l, events[0]).0, events[1..], t, bytes);
    }
  }

  lemma {:induction false} TimedEnds(from: real, events: seq<Event>, to: real)
    requires Timed(from, events, to)
    ensures from <= to
    decreases |events|
  {
    if events != [] {
      TimedEnds(events[0].at, events[1..], to);
    }
  }

  /** `try_consume_bytes` has no debt: what exceeds the bucket is refused for ever, the rest is not. */
  lemma BytesOnlyStarvesIffOversized(l: Limiter, bytes: nat)
    requires Reachable(l) && l.config.maxBytes > 0
    ensures (exists t :: t >= l.last && TryConsumeBytes(l, t, bytes).1) <==> bytes <= l.config.maxBytes
  {
    if bytes <= l.config.maxBytes {
      var t := BucketReady(l.bytes, l.config.maxBytes, l.last, bytes as real);
      BucketReadyExact(l.bytes, l.config.maxBytes, l.last, bytes as real, t);
      assert TryConsumeBytes(l, t, bytes).1;
    }
  }

  /** A new configuration keeps the bounds, and never raises an unchanged bucket. */
  lemma UpdateKeepsBounds(l: Limiter, now: real, config: QosConfig, t: real)
    requires Reachable(l) && l.last <= now <= t
    ensures Reachable(UpdateConfig(l, now, config)) && Reachable(New(now, config))
    ensures config.maxOps == l.config.maxOps ==> OpsLevel(UpdateConfig(l, now, config), t) <= OpsLevel(l, t)
    ensures config.maxBytes == l.config.maxBytes ==> BytesLevel(UpdateConfig(l, now, config), t) <= BytesLevel(l, t)
  {
    FillsCompose(l.ops, l.config.maxOps, t - now, now - l.last);
    FillsCompose(l.bytes, l.config.maxBytes, t - now, now - l.last);
    assert (t - now) + (now - l.last) == t - l.last;
  }

  // ------------------------------------------------------------ what a reconfiguration costs

  /** How long a bucket that refills at `cap` per second takes from `tokens` to `need`. */
  function BucketWait(tokens: real, cap: nat, need: real): (wait: real)
    requires cap > 0
    ensures wait >= 0.0
  {
    Max(0.0, (need - tokens) / cap as real)
  }

  function OpsWait(l: Limiter): (wait: real)
    ensures wait >= 0.0
  {
    if l.config.maxOps > 0 then BucketWait(l.ops, l.config.maxOps, 1.0) else 0.0
  }

  function BytesWait(l: Limiter, bytes: nat): (wait: real)
    ensures wait >= 0.0
  {
    if l.config.maxBytes > 0 && bytes > 0
    then BucketWait(l.bytes, l.config.maxBytes, Min(bytes as real, l.config.maxBytes as real))
    else 0.0
  }

  /** How long after its last refill the limiter admits the operation. */
  function Wait(l: Limiter, bytes: nat): real { Max(OpsWait(l), BytesWait(l, bytes)) }

  lemma ReadyIsWait(l: Limiter, bytes: nat)
    ensures ReadyAt(l, bytes) == l.last + Wait(l, bytes)
  {
  }

  /** The part of the wait that is due to buckets whose limit a new configuration keeps. */
  function KeptWait(l: Limiter, config: QosConfig, bytes: nat): real
  {
    Max(if config.maxOps == l.config.maxOps then OpsWait(l) else 0.0,
        if config.maxBytes == l.config.maxBytes then BytesWait(l, bytes) else 0.0)
  }

  lemma FullBucketWaitsNot(cap: nat, need: real)
    requires cap > 0 && need <= cap as real
    ensures BucketWait(cap as real, cap, need) == 0.0
  {
    var short := cap as real - need;
    assert (need - cap as real) / cap as real == -(short / cap as real);
    assert short / cap as real >= 0.0;
  }

  /** A reconfiguration restarts the clock without a refill: the kept buckets make the operation wait all over again. */
  lemma UpdateRestartsWait(l: Limiter, now: real, config: QosConfig, bytes: nat)
    ensures ReadyAt(UpdateConfig(l, now, config), bytes) == now + KeptWait(l, config, bytes)
  {
    var u := UpdateConfig(l, now, config);
    ReadyIsWait(u, bytes);
    if config.maxOps != l.config.maxOps && config.maxOps > 0 {
      FullBucketWaitsNot(config.maxOps, 1.0);
    }
    if config.maxBytes != l.config.maxBytes && config.maxBytes > 0 && bytes > 0 {
      FullBucketWaitsNot(config.maxBytes, Min(bytes as real, config.maxBytes as real));
    }
  }

  /** With both limits as they were, admission moves by the whole time since the last refill. */
  lemma SameConfigDelays(l: Limiter, now: real, bytes: nat)
    ensures ReadyAt(UpdateConfig(l, now, l.config), bytes) == ReadyAt(l, bytes) + (now - l.last)
  {
    UpdateRestartsWait(l, now, l.config, bytes);
    ReadyIsWait(l, bytes);
  }

  /**
    A reconfiguration delays nothing, so that whatever the old limiter would
    admit from then on the new one does, exactly when no kept bucket is short or
    the buckets it fills anew were the ones to wait for, and long enough.
   */
  lemma UpdateDelaysNothingIff(l: Limiter, now: real, config: QosConfig, bytes: nat)
    requires Reachable(l) && l.last <= now
    ensures (forall t :: t >= now && TryConsume(l, t, bytes).1 ==>
                           TryConsume(UpdateConfig(l, now, config), t, bytes).1) <==>
            KeptWait(l, config, bytes) == 0.0 ||
            (now - l.last) + KeptWait(l, config, bytes) <= Wait(l, bytes)
  {
    var u := UpdateConfig(l, now, config);
    UpdateKeepsBounds(l, now, config, now);
    UpdateRestartsWait(l, now, config, bytes);
    ReadyIsWait(l, bytes);
    forall t | t >= now
      ensures TryConsume(l, t, bytes).1 <==> t >= ReadyAt(l, bytes)
      ensures TryConsume(u, t, bytes).1 <==> t >= ReadyAt(u, bytes)
    {
      AdmittedIffReady(l, bytes, t);
      AdmittedIffReady(u, bytes, t);
    }
    var first := Max(now, ReadyAt(l, bytes));
    assert TryConsume(l, first, bytes).1;
  }

  /** The limiter after its configuration was applied again at each of these moments. */
  function Reapplied(l: Limiter, times: seq<real>): Limiter
    decreases |times|
  {
    if times == [] then l else Reapplied(UpdateConfig(l, times[0], l.config), times[1..])
  }

  /** Applying the same configuration again and again puts an operation off for as long as one likes. */
  lemma {:induction false} ReapplyingStarves(l: Limiter, times: seq<real>, bytes: nat)
    requires times != []
    ensures ReadyAt(Reapplied(l, times), bytes) == times[|times| - 1] + Wait(l, bytes)
    decreases |times|
  {
    var u := UpdateConfig(l, times[0], l.config);
    UpdateRestartsWait(l, times[0], l.config, bytes);
    ReadyIsWait(u, bytes);
    assert KeptWait(l, l.config, bytes) == Wait(l, bytes);
    if |times| > 1 {
      ReapplyingStarves(u, times[1..], bytes);
    } else {
      assert Reapplied(u, times[1..]) == u;
    }
  }

  // ------------------------------------------------------------ the object of the source

  class TokenBuckets {
    var opsTokens: real
    var bytesTokens: real
    var lastRefill: real
    var config: QosConfig

    function AsValue(): Limiter
      reads this
    {
      Limiter(opsTokens, bytesTokens, lastRefill, config)
    }

    constructor (now: real, config: QosConfig)
      ensures AsValue() == New(now, config) && Reachable(AsValue())
    {
      opsTokens := config.maxOps as real;
      bytesTokens := config.maxBytes as real;
      lastRefill := now;
      this.config := config;
    }

    method DoRefill(now: real)
      modifies this
      ensures AsValue() == Refill(old(AsValue()), now)
    {
      var elapsed := now - lastRefill;
      lastRefill := now;
      if config.maxOps > 0 {
        opsTokens := opsTokens + elapsed * config.maxOps as real;
        if opsTokens > config.maxOps as real {
          opsTokens := config.maxOps as real;
        }
      }
      if config.maxBytes > 0 {
        bytesTokens := bytesTokens + elapsed * config.maxBytes as real;
        if bytesTokens > config.maxBytes as real {
          bytesTokens := config.maxBytes as real;
        }
      }
    }

    method Consume(now: real, bytes: nat) returns (ok: bool)
      requires Reachable(AsValue()) && lastRefill <= now
      modifies this
      ensures (AsValue(), ok) == TryConsume(old(AsValue()), now, bytes)
      ensures Reachable(AsValue())
      ensures ok <==> now >= ReadyAt(old(AsValue()), bytes)
    {
      AdmittedIffReady(AsValue(), bytes, now);
      StepBooks(AsValue(), Event(now, Both(bytes)));
      var opsLimited := config.maxOps > 0;
      var bytesLimited := config.maxBytes > 0 && bytes > 0;
      if !opsLimited && !bytesLimited {
        return true;
      }
      DoRefill(now);
      if opsLimited && opsTokens < 1.0 {
        return false;
      }
      if bytesLimited {
        if bytesTokens < Min(bytes as real, config.maxBytes as real) {
          return false;
        }
        bytesTokens := bytesTokens - bytes as real;
      }
      if opsLimited {
        opsTokens := opsTokens - 1.0;
      }
      return true;
    }

    method ConsumeOp(now: real) returns (ok: bool)
      requires Reachable(AsValue()) && lastRefill <= now
      modifies this
      ensures (AsValue(), ok) == TryConsumeOp(old(AsValue()), now)
      ensures Reachable(AsValue())
      ensures config.maxOps == 0 ==> ok
      ensures config.maxOps > 0 ==> (ok <==> now >= BucketReady(old(opsTokens), config.maxOps, old(lastRefill), 1.0))
    {
      if config.maxOps > 0 {
        BucketReadyExact(opsTokens, config.maxOps, lastRefill, 1.0, now);
      }
      StepBooks(AsValue(), Event(now, OpOnly));
      if config.maxOps == 0 {
        return true;
      }
      DoRefill(now);
      if opsTokens >= 1.0 {
        opsTokens := opsTokens - 1.0;
        return true;
      }
      return false;
    }

    method ConsumeBytes(now: real, bytes: nat) returns (ok: bool)
      requires Reachable(AsValue()) && lastRefill <= now
      modifies this
      ensures (AsValue(), ok) == TryConsumeBytes(old(AsValue()), now, bytes)
      ensures Reachable(AsValue())
      ensures config.maxBytes == 0 ==> ok
      ensures config.maxBytes > 0 ==>
                (ok <==> bytes <= config.maxBytes &&
                         now >= BucketReady(old(bytesTokens), config.maxBytes, old(lastRefill), bytes as real))
    {
      if 0 < config.maxBytes && bytes <= config.maxBytes {
        BucketReadyExact(bytesTokens, config.maxBytes, lastRefill, bytes as real, now);
      }
      StepBooks(AsValue(), Event(now, BytesOnly(bytes)));
      if config.maxBytes == 0 {
        return true;
      }
      DoRefill(now);
      if bytesTokens >= bytes as real {
        bytesTokens := bytesTokens - bytes as real;
        return true;
      }
      return false;
    }

    method Reconfigure(now: real, config: QosConfig)
      requires Reachable(AsValue()) && lastRefill <= now
      modifies this
      ensures AsValue() == UpdateConfig(old(AsValue()), now, config)
      ensures Reachable(AsValue())
      ensures forall bytes: nat :: ReadyAt(AsValue(), bytes) == now + KeptWait(old(AsValue()), config, bytes)
    {
      forall bytes: nat
        ensures ReadyAt(UpdateConfig(AsValue(), now, config), bytes) == now + KeptWait(AsValue(), config, bytes)
      {
        UpdateRestartsWait(AsValue(), now, config, bytes);
      }
      if config.maxOps != this.config.maxOps {
        opsTokens := config.maxOps as real;
      }
      if config.maxBytes != this.config.maxBytes {
        bytesTokens := config.maxBytes as real;
      }
      lastRefill := now;
      this.config := config;
    }
  }
}
