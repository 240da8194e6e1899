/** cli.go, startPurgeWorker: when the ticker loop starts a purge, and with which cutoff.
    Instants and durations are integers (nanoseconds). */
module PurgeWorker {
  import opened Wrappers

  /** One ticker event: the TTL read from the configuration, the instant `time.Since` looks
      at and the later instant `time.Now` returns if a purge starts. */
  datatype Tick = Tick(ttl: int, checkedAt: int, startedAt: int)

  datatype Purge = Purge(start: int, cutoff: int, ttl: int)

  /** The instants of one tick are read in order. Nothing is assumed across ticks: the
      recorded instant is wall-clock time, which may be set back. */
  ghost predicate ClockOrdered(ticks: seq<Tick>) {
    forall k :: 0 <= k < |ticks| ==> ticks[k].checkedAt <= ticks[k].startedAt
  }

  function Decide(last: Option<int>, t: Tick): Option<Purge> {
    if t.ttl <= 0 then None
    else if last.Some? && t.checkedAt - last.value < t.ttl then None
    else Some(Purge(t.startedAt, t.startedAt - t.ttl, t.ttl))
  }

  /** The purges a run starts, in order. */
  function Purges(ticks: seq<Tick>): seq<Purge> {
    if ticks == [] then []
    else
      var n := |ticks| - 1;
      var log := Purges(ticks[..n]);
      match Decide(LastStart(log), ticks[n])
      case None => log
      case Some(p) => log + [p]
  }

  function LastStart(log: seq<Purge>): Option<int> {
    if log == [] then None else Some(log[|log| - 1].start)
  }

  class Worker {
    var lastPurgeAt: Option<int>

    constructor ()
      ensures lastPurgeAt == None
    {
      lastPurgeAt := None;
    }

    method OnTick(t: Tick) returns (p: Option<Purge>)
      modifies this
      ensures p == Decide(old(lastPurgeAt), t)
      ensures lastPurgeAt == if p.Some? then Some(p.value.start) else old(lastPurgeAt)
    {
      if t.ttl <= 0 {
        return None;
      }
      if lastPurgeAt.Some? && t.checkedAt - lastPurgeAt.value < t.ttl {
        return None;
      }
      lastPurgeAt := Some(t.startedAt);
      return Some(Purge(t.startedAt, lastPurgeAt.value - t.ttl, t.ttl));
    }

    method Run(ticks: seq<Tick>) returns (log: seq<Purge>)
      requires lastPurgeAt == None
      modifies this
      ensures log == Purges(ticks) && lastPurgeAt == LastStart(log)
    {
      log := [];
      for i := 0 to |ticks|
        invariant log == Purges(ticks[..i]) && lastPurgeAt == LastStart(log)
      {
        assert ticks[..i + 1][..i] == ticks[..i];
        var p := OnTick(ticks[i]);
        if p.Some? {
          log := log + [p.value];
        }
      }
      assert ticks[..|ticks|] == ticks;
    }
  }

  // Safety, whatever the TTL does between ticks.

  function TtlSum(log: seq<Purge>, i: nat, j: nat): int
    requires i <= j < |log|
  {
    if i == j then 0 else TtlSum(log, i, j - 1) + log[j].ttl
  }

  ghost predicate Spaced(log: seq<Purge>) {
    (forall k :: 0 <= k < |log| ==> log[k].ttl > 0 && log[k].cutoff == log[k].start - log[k].ttl) &&
    forall k :: 0 < k < |log| ==> log[k].start - log[k - 1].start >= log[k].ttl
  }

  lemma {:induction false} RunIsSpaced(ticks: seq<Tick>)
    requires ClockOrdered(ticks)
    ensures Spaced(Purges(ticks))
  {
    if ticks != [] {
      RunIsSpaced(ticks[..|ticks| - 1]);
    }
  }

  lemma {:induction false} SpacedSum(log: seq<Purge>, i: nat, j: nat)
    requires Spaced(log) && i <= j < |log|
    ensures log[j].start - log[i].start >= TtlSum(log, i, j) >= 0
    ensures i < j ==> log[j].cutoff >= log[i].start > log[i].cutoff
  {
    if i < j {
      SpacedSum(log, i, j - 1);
      assert log[j].start - log[j - 1].start >= log[j].ttl;
    }
  }

  /** Over any run: between any two purge starts at least the TTLs in force at every purge
      after the first have passed, and the later cutoff is no earlier than the earlier
      start, so no two purges cover the same instant and cutoffs only move forward. */
  lemma PurgeStartsAreApart(ticks: seq<Tick>, i: nat, j: nat)
    requires ClockOrdered(ticks) && i < j < |Purges(ticks)|
    ensures var log := Purges(ticks);
            log[j].start - log[i].start >= TtlSum(log, i, j) &&
            log[j].cutoff == log[j].start - log[j].ttl &&
            log[i].cutoff < log[i].start <= log[j].cutoff < log[j].start
  {
    RunIsSpaced(ticks);
    SpacedSum(Purges(ticks), i, j);
  }

  /** Hence a bound on how often purges start while the TTL stays at or above `least`. */
  lemma PurgeRateIsBounded(ticks: seq<Tick>, least: int)
    requires ClockOrdered(ticks) && least > 0 && Purges(ticks) != []
    requires forall k :: 0 <= k < |ticks| && ticks[k].ttl > 0 ==> ticks[k].ttl >= least
    ensures var log := Purges(ticks);
            (|log| - 1) * least <= log[|log| - 1].start - log[0].start
  {
    RunIsSpaced(ticks);
    PurgeTtlsAtLeast(ticks, least);
    var log := Purges(ticks);
    SumAtLeast(log, |log| - 1, least);
    SpacedSum(log, 0, |log| - 1);
  }

  lemma {:induction false} PurgeTtlsAtLeast(ticks: seq<Tick>, least: int)
    requires forall k :: 0 <= k < |ticks| && ticks[k].ttl > 0 ==> ticks[k].ttl >= least
    ensures forall k :: 0 <= k < |Purges(ticks)| ==> Purges(ticks)[k].ttl >= least
  {
    if ticks != [] {
      PurgeTtlsAtLeast(ticks[..|ticks| - 1], least);
    }
  }

  lemma {:induction false} SumAtLeast(log: seq<Purge>, j: nat, least: int)
    requires j < |log| && forall k :: 0 <= k < |log| ==> log[k].ttl >= least
    ensures TtlSum(log, 0, j) >= j * least
  {
    if j > 0 {
      SumAtLeast(log, j - 1, least);
    }
  }

  // Liveness under a constant TTL.

  ghost predicate ConstantTtl(ticks: seq<Tick>, ttl: int) {
    forall k :: 0 <= k < |ticks| ==> ticks[k].ttl == ttl
  }

  /** From looking at the clock in one tick to deciding in the next, at most `d` passes. */
  ghost predicate TicksWithin(ticks: seq<Tick>, d: int) {
    forall k :: 0 < k < |ticks| ==> ticks[k].startedAt - ticks[k - 1].checkedAt <= d
  }

  /** With a constant TTL the first tick purges, consecutive purges start less than the TTL
      plus one tick interval apart, and at the last tick the latest purge is less than the
      TTL old. */
  lemma {:induction false} PurgesKeepUp(ticks: seq<Tick>, ttl: int, d: int)
    requires ClockOrdered(ticks) && ConstantTtl(ticks, ttl) && TicksWithin(ticks, d) && ttl > 0 && ticks != []
    ensures var log := Purges(ticks);
            log != [] && log[0].start == ticks[0].startedAt &&
            (forall k :: 0 < k < |log| ==> log[k].start - log[k - 1].start < ttl + d) &&
            ticks[|ticks| - 1].checkedAt - log[|log| - 1].start < ttl
  {
    var n := |ticks| - 1;
    if n == 0 {
      assert ticks[..n] == [];
    } else {
      PurgesKeepUp(ticks[..n], ttl, d);
      assert ticks[..n][n - 1] == ticks[n - 1];
    }
  }

  // A TTL of zero or less switches purging off without forgetting the last purge.

  function Enabled(ticks: seq<Tick>): seq<Tick> {
    if ticks == [] then []
    else
      var n := |ticks| - 1;
      Enabled(ticks[..n]) + if ticks[n].ttl > 0 then [ticks[n]] else []
  }

  lemma {:induction false} DisabledTicksChangeNothing(ticks: seq<Tick>)
    ensures Purges(ticks) == Purges(Enabled(ticks))
  {
    if ticks != [] {
      var n := |ticks| - 1;
      DisabledTicksChangeNothing(ticks[..n]);
      var e := Enabled(ticks[..n]);
      assert (e + [ticks[n]])[..|e|] == e && e + [] == e;
    }
  }
}
