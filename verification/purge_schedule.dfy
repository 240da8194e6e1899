/** cli.go: the purge worker's ticks and the purge cycles that run inside them, together. */
module PurgeSchedule {
  import opened Wrappers
  import opened PurgeWorker
  import Cycle = PurgeCycle

  /** One round of the worker's loop: the tick, and the cycle it runs if it decides to purge. */
  datatype Round = Round(tick: Tick, cycle: seq<Cycle.State>)

  function Ticks(rounds: seq<Round>): (r: seq<Tick>)
    ensures |r| == |rounds| && forall k :: 0 <= k < |rounds| ==> r[k] == rounds[k].tick
  {
    seq(|rounds|, k requires 0 <= k < |rounds| => rounds[k].tick)
  }

  /** The worker purges at tick `k`. */
  predicate PurgesAt(ticks: seq<Tick>, k: nat)
    requires k < |ticks|
  {
    Decide(LastStart(Purges(ticks[..k])), ticks[k]).Some?
  }

  /** Every purge runs its cycle to the end inside its own tick, starting at its start. */
  ghost predicate CyclesRun(c: Cycle.Config, rounds: seq<Round>) {
    forall k :: 0 <= k < |rounds| && PurgesAt(Ticks(rounds), k) ==>
      Cycle.CompleteCycle(c, rounds[k].cycle) && rounds[k].cycle[0].now == rounds[k].tick.startedAt
  }

  /** When the loop can look at the ticker again. */
  ghost function FreeAt(c: Cycle.Config, rounds: seq<Round>, k: nat): int
    requires k < |rounds| && CyclesRun(c, rounds)
  {
    if PurgesAt(Ticks(rounds), k) then rounds[k].cycle[|rounds[k].cycle| - 1].now else rounds[k].tick.checkedAt
  }

  /** The ticker wakes the loop within `interval` of its being free. */
  ghost predicate TickerKeepsUp(c: Cycle.Config, rounds: seq<Round>, interval: int)
    requires CyclesRun(c, rounds)
  {
    forall k :: 0 < k < |rounds| ==> rounds[k].tick.startedAt - FreeAt(c, rounds, k - 1) <= interval
  }

  ghost function CycleBound(c: Cycle.Config): int {
    |Cycle.PurgeableUpTo(c, |c.purgeable|)| * (c.timeout + c.grace)
  }

  ghost predicate GapsBounded(log: seq<Purge>, ttl: int, interval: int, cycle: int) {
    forall k :: 0 < k < |log| ==>
      var gap := log[k].start - log[k - 1].start;
      gap < ttl + interval || gap <= cycle + interval
  }

  /** The state of the log after a tick. */
  ghost predicate UpToDate(ticks: seq<Tick>, ttl: int) {
    var log := Purges(ticks);
    var n := |ticks| - 1;
    ticks != [] && log != [] && log[0].start == ticks[0].startedAt &&
    if PurgesAt(ticks, n) then log[|log| - 1].start == ticks[n].startedAt
    else ticks[n].checkedAt - log[|log| - 1].start < ttl
  }

  lemma LastTick(ticks: seq<Tick>)
    requires ticks != []
    ensures var n := |ticks| - 1;
            var before := Purges(ticks[..n]);
            Purges(ticks) == (match Decide(LastStart(before), ticks[n])
                              case None => before
                              case Some(p) => before + [p]) &&
            (PurgesAt(ticks, n) <==> Decide(LastStart(before), ticks[n]).Some?)
  {
  }

  lemma {:induction false} TicksKeepUp(ticks: seq<Tick>, free: seq<int>, ttl: int, interval: int, cycle: int)
    requires ConstantTtl(ticks, ttl) && ttl > 0 && ticks != [] && |free| == |ticks|
    requires forall k :: 0 <= k < |ticks| ==>
               if PurgesAt(ticks, k) then free[k] - ticks[k].startedAt <= cycle else free[k] == ticks[k].checkedAt
    requires forall k :: 0 < k < |ticks| ==> ticks[k].startedAt - free[k - 1] <= interval
    ensures UpToDate(ticks, ttl) && GapsBounded(Purges(ticks), ttl, interval, cycle)
  {
    hide Purges, PurgesAt;
    var n := |ticks| - 1;
    LastTick(ticks);
    if n == 0 {
      assert ticks[..0] == [];
      NoPurgesYet();
    } else {
      var before := ticks[..n];
      forall k | 0 <= k < n ensures PurgesAt(before, k) == PurgesAt(ticks, k) {
        SamePrefix(ticks, n, k);
      }
      TicksKeepUp(before, free[..n], ttl, interval, cycle);
      assert before[n - 1] == ticks[n - 1] && before[0] == ticks[0];
    }
  }

  lemma NoPurgesYet()
    ensures Purges([]) == []
  {
  }

  lemma SamePrefix(ticks: seq<Tick>, n: nat, k: nat)
    requires k < n <= |ticks|
    ensures PurgesAt(ticks[..n], k) == PurgesAt(ticks, k)
  {
    assert ticks[..n][..k] == ticks[..k];
  }

  /** With a constant TTL and a prompt loop whose cycles run inside its ticks: consecutive
      purges start less than the TTL plus the check interval apart, or, when the cycles
      themselves take longer than the TTL, at most n times (timeout plus grace) plus the
      check interval. */
  lemma PurgesKeepUpWithCycles(c: Cycle.Config, rounds: seq<Round>, ttl: int, interval: int)
    requires c.Valid() && ttl > 0 && rounds != [] && ConstantTtl(Ticks(rounds), ttl)
    requires CyclesRun(c, rounds) && TickerKeepsUp(c, rounds, interval)
    ensures var log := Purges(Ticks(rounds));
            log != [] && log[0].start == rounds[0].tick.startedAt && GapsBounded(log, ttl, interval, CycleBound(c))
  {
    hide Purges, PurgesAt, CycleBound, GapsBounded;
    var ticks := Ticks(rounds);
    var free := seq(|rounds|, k requires 0 <= k < |rounds| => FreeAt(c, rounds, k));
    forall k | 0 <= k < |ticks| && PurgesAt(ticks, k) ensures free[k] - ticks[k].startedAt <= CycleBound(c) {
      CycleInBound(c, rounds[k].cycle);
    }
    TicksKeepUp(ticks, free, ttl, interval, CycleBound(c));
  }

  lemma CycleInBound(c: Cycle.Config, run: seq<Cycle.State>)
    requires c.Valid() && Cycle.CompleteCycle(c, run)
    ensures run[|run| - 1].now - run[0].now <= CycleBound(c)
  {
    hide Cycle.CompleteCycle, Cycle.PurgeableUpTo;
    Cycle.CycleEndsInTime(c, run);
  }
}
