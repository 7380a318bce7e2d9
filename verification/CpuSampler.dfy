/** The Linux CPU usage sampler: percentages of the busy time between two readings of /proc/stat. */
module CpuSampler {
  import opened Common

  const W64: nat := 0x1_0000_0000_0000_0000

  type uint64 = x: nat | x < W64

  datatype Counters = Counters(user: uint64, userLow: uint64, sys: uint64, idle: uint64) {
    function Busy(): nat {
      user + userLow + sys
    }

    predicate AtLeast(o: Counters) {
      o.user <= user && o.userLow <= userLow && o.sys <= sys && o.idle <= idle
    }
  }

  datatype Sampler = Sampler(last: Counters, lastTotal: uint64, lastPercent: real)

  // The unsigned 64-bit sum of the three busy deltas.
  function BusyDelta(last: Counters, now: Counters): uint64
    requires now.AtLeast(last)
  {
    (now.Busy() - last.Busy()) % W64
  }

  // The 64-bit total of busy and idle time does not fit: the two deltas together span 2^64 ticks.
  predicate Wraps(last: Counters, now: Counters)
    requires now.AtLeast(last)
  {
    BusyDelta(last, now) + (now.idle - last.idle) >= W64
  }

  datatype Kind = Unread | Reset | Still | Over | Fresh

  function KindOf(s: Sampler, stat: Option<Counters>): Kind {
    if stat.None? then Unread
    else
      var now := stat.value;
      if !now.AtLeast(s.last) then Reset
      else if BusyDelta(s.last, now) == 0 then Still
      else if Wraps(s.last, now) then Over
      else Fresh
  }

  // The ticks one fresh percentage is taken over.
  function TotalDelta(last: Counters, now: Counters): uint64
    requires now.AtLeast(last) && !Wraps(last, now)
  {
    BusyDelta(last, now) + (now.idle - last.idle)
  }

  function Percent(busy: nat, total: nat): real
    requires total > 0
  {
    busy as real / total as real * 100.0
  }

  function FreshPercent(last: Counters, now: Counters): real
    requires now.AtLeast(last) && !Wraps(last, now) && BusyDelta(last, now) > 0
  {
    Percent(BusyDelta(last, now), TotalDelta(last, now))
  }

  // The sampler and the reported percentage after one call.
  function Sample(s: Sampler, stat: Option<Counters>): (Sampler, real) {
    match KindOf(s, stat)
    case Unread => (s, 0.0)
    case Reset => (s.(last := stat.value), s.lastPercent)
    case Still => (s.(last := stat.value.(idle := s.last.idle)), s.lastPercent)
    case Over => (s, s.lastPercent)
    case Fresh =>
      var p := FreshPercent(s.last, stat.value);
      (Sampler(stat.value, TotalDelta(s.last, stat.value), p), p)
  }

  lemma RatioBound(busy: nat, total: nat)
    requires 0 < total
    ensures Percent(busy, total) > 100.0 <==> busy > total
    ensures Percent(busy, total) >= 0.0
  {
    var q := busy as real / total as real;
    assert q * total as real == busy as real;
    if q > 1.0 {
      assert q * total as real > 1.0 * total as real;
    } else {
      assert q * total as real <= 1.0 * total as real;
    }
  }

  predicate NoneWentBack(last: Counters, now: Counters) {
    last.user <= now.user && last.userLow <= now.userLow && last.sys <= now.sys && last.idle <= now.idle
  }

  function BusyTicks(last: Counters, now: Counters): int {
    (now.user - last.user) + (now.userLow - last.userLow) + (now.sys - last.sys)
  }

  // The percentage that `busy` is of `total`.
  predicate IsPercentage(percent: real, busy: int, total: int) {
    percent * total as real == 100.0 * busy as real
  }

  // What one call does, from the counters: an unreadable file gives 0 and changes nothing; a counter that went
  // back gives the previous percentage and a new baseline; so does a reading without busy ticks, which keeps the
  // old idle counter; otherwise it is the busy ticks as a percentage of all ticks, unless these span 2^64.
  lemma SampleMeans(s: Sampler, stat: Option<Counters>)
    ensures stat.None? ==> Sample(s, stat) == (s, 0.0)
    ensures stat.Some? && !NoneWentBack(s.last, stat.value) ==> Sample(s, stat) == (s.(last := stat.value), s.lastPercent)
    ensures stat.Some? && NoneWentBack(s.last, stat.value) ==>
      var now, busy, idle := stat.value, BusyTicks(s.last, stat.value) % W64, stat.value.idle - s.last.idle;
      var (after, percent) := Sample(s, stat);
      if busy == 0 then (after, percent) == (s.(last := now.(idle := s.last.idle)), s.lastPercent)
      else if busy + idle >= W64 then (after, percent) == (s, s.lastPercent)
      else IsPercentage(percent, busy, busy + idle) && after == Sampler(now, busy + idle, percent)
  {
    if stat.Some? && KindOf(s, stat).Fresh? {
      PercentIsShare(BusyDelta(s.last, stat.value), TotalDelta(s.last, stat.value));
    }
    hide Percent; hide IsPercentage;
  }

  lemma PercentIsShare(busy: nat, total: nat)
    requires 0 < total
    ensures IsPercentage(Percent(busy, total), busy, total)
  {
    PercentTimesTotal(busy, total);
  }

  class CpuLoad {
    var lastUser: uint64
    var lastUserLow: uint64
    var lastSys: uint64
    var lastIdle: uint64
    var lastTotal: uint64
    var lastPercent: real

    function State(): Sampler
      reads this
    {
      Sampler(Counters(lastUser, lastUserLow, lastSys, lastIdle), lastTotal, lastPercent)
    }

    predicate Valid()
      reads this
    {
      0.0 <= lastPercent <= 100.0
    }

    // The baseline is the first reading, or zero when /proc/stat cannot be opened.
    constructor (stat: Option<Counters>)
      ensures State().last == if stat.Some? then stat.value else Counters(0, 0, 0, 0)
      ensures Valid() && lastPercent == 0.0
    {
      lastUser, lastUserLow, lastSys, lastIdle, lastTotal, lastPercent := 0, 0, 0, 0, 0, 0.0;
      if stat.Some? {
        var c := stat.value;
        lastUser, lastUserLow, lastSys, lastIdle := c.user, c.userLow, c.sys, c.idle;
        lastTotal := (c.user + c.userLow + c.sys + c.idle) % W64;
      }
    }

    /**
     `over` reports whether the branch for a percentage above 100 was taken. A division by a zero
     total is an infinite percentage in C++ `double` arithmetic, so it takes that branch too.
     */
    method GetCpuUsage(stat: Option<Counters>) returns (percent: real, over: bool)
      requires Valid()
      modifies this
      ensures Valid() && 0.0 <= percent <= 100.0
      ensures (State(), percent) == Sample(old(State()), stat)
      ensures stat.None? ==> percent == 0.0
      ensures stat.Some? && !(NoneWentBack(old(State().last), stat.value) && BusyTicks(old(State().last), stat.value) % W64 > 0) ==>
        percent == old(lastPercent)
      ensures stat.Some? && NoneWentBack(old(State().last), stat.value) && BusyTicks(old(State().last), stat.value) % W64 > 0 ==>
        var busy, idle := BusyTicks(old(State().last), stat.value) % W64, stat.value.idle - old(lastIdle);
        if busy + idle < W64 then IsPercentage(percent, busy, busy + idle) else percent == old(lastPercent)
      ensures over <==> KindOf(old(State()), stat).Over?
    {
      hide Percent; hide IsPercentage;
      SampleMeans(State(), stat);
      over := false;
      if stat.None? {
        return 0.0, false;
      }
      var user, userLow, sys, idle := stat.value.user, stat.value.userLow, stat.value.sys, stat.value.idle;
      var total: nat := 0;
      if user < lastUser || userLow < lastUserLow || sys < lastSys || idle < lastIdle {
        percent := lastPercent;
        total := lastTotal;
      } else {
        total := ((user - lastUser) + (userLow - lastUserLow) + (sys - lastSys)) % W64;
        if total == 0 {
          idle := lastIdle;
          total := lastTotal;
          percent := lastPercent;
        } else {
          var busy := total;
          total := (total + (idle - lastIdle)) % W64;
          if total == 0 {
            over := true;
            percent := 0.0;
          } else {
            RatioBound(busy, total);
            percent := Percent(busy, total);
          }
        }
      }
      if over || percent > 100.0 {
        over := true;
        percent := lastPercent;
      } else {
        lastUser, lastUserLow, lastSys, lastIdle := user, userLow, sys, idle;
        lastTotal := total;
        lastPercent := percent;
      }
    }
  }

  // --- Whole runs ------------------------------------------------------------------------------

  function After(s: Sampler, stats: seq<Option<Counters>>): Sampler {
    if stats == [] then s else Sample(After(s, stats[..|stats| - 1]), stats[|stats| - 1]).0
  }

  // In every run, counter resets and wrapped deltas included, each result is a percentage.
  lemma {:induction false} ResultsArePercentages(s: Sampler, stats: seq<Option<Counters>>)
    requires 0.0 <= s.lastPercent <= 100.0
    ensures 0.0 <= After(s, stats).lastPercent <= 100.0
    ensures stats != [] ==> 0.0 <= Sample(After(s, stats[..|stats| - 1]), stats[|stats| - 1]).1 <= 100.0
  {
    if stats != [] {
      var before, stat := After(s, stats[..|stats| - 1]), stats[|stats| - 1];
      ResultsArePercentages(s, stats[..|stats| - 1]);
      if KindOf(before, stat).Fresh? {
        RatioBound(BusyDelta(before.last, stat.value), TotalDelta(before.last, stat.value));
      }
    }
  }

  // The branch for a percentage above 100 is taken exactly when the 64-bit total of the deltas wraps.
  lemma OverHundredIffWraps(last: Counters, now: Counters)
    requires now.AtLeast(last) && BusyDelta(last, now) > 0
    ensures var total := (BusyDelta(last, now) + (now.idle - last.idle)) % W64;
      Wraps(last, now) <==> total == 0 || Percent(BusyDelta(last, now), total) > 100.0
  {
    var busy, idle := BusyDelta(last, now), now.idle - last.idle;
    var total := (busy + idle) % W64;
    if total > 0 { RatioBound(busy, total); }
  }

  // One such pair of readings, each of them within the signed range that the scan conversion accepts.
  lemma WrapIsPossible()
    ensures var last, now := Counters(0, 0, 0, 0), Counters(W64 / 2 - 1, 0, 2, W64 / 2 - 1);
      now.AtLeast(last) && BusyDelta(last, now) > 0 && Wraps(last, now)
  {
  }

  // Sum of the totals behind the fresh percentages of a run.
  function FreshTotals(s: Sampler, stats: seq<Option<Counters>>): nat {
    if stats == [] then 0
    else
      var before, stat := After(s, stats[..|stats| - 1]), stats[|stats| - 1];
      FreshTotals(s, stats[..|stats| - 1]) + if KindOf(before, stat).Fresh? then TotalDelta(before.last, stat.value) else 0
  }

  // The percentage a fresh call returns times the total it was taken over, in hundredths.
  function Share(b: Sampler, now: Counters): real
    requires KindOf(b, Some(now)).Fresh?
  {
    Sample(b, Some(now)).1 * TotalDelta(b.last, now) as real / 100.0
  }

  // Sum of those percentages weighted by their totals.
  function WeightedBusy(s: Sampler, stats: seq<Option<Counters>>): real {
    if stats == [] then 0.0
    else
      var before, stat := After(s, stats[..|stats| - 1]), stats[|stats| - 1];
      WeightedBusy(s, stats[..|stats| - 1]) +
        if KindOf(before, stat).Fresh? then Share(before, stat.value) else 0.0
  }

  // The counters as last read, or the baseline when nothing was read.
  function LastRead(first: Counters, stats: seq<Option<Counters>>): Counters {
    if stats == [] then first
    else if stats[|stats| - 1].Some? then stats[|stats| - 1].value
    else LastRead(first, stats[..|stats| - 1])
  }

  predicate Nondecreasing(first: Counters, stats: seq<Option<Counters>>) {
    stats == [] ||
    var before := stats[..|stats| - 1];
    Nondecreasing(first, before)
      && (stats[|stats| - 1].Some? ==> stats[|stats| - 1].value.AtLeast(LastRead(first, before)))
  }

  lemma PercentTimesTotal(busy: nat, total: nat)
    requires 0 < total
    ensures Percent(busy, total) * total as real / 100.0 == busy as real
  {
    var q := busy as real / total as real;
    assert q * total as real == busy as real;
    assert q * 100.0 * total as real == (q * total as real) * 100.0;
  }

  // One reading: the fresh total is what the baseline advances by, and a quiet reading keeps the baseline.
  lemma TickStep(b: Sampler, read: Counters, now: Counters)
    requires read.AtLeast(b.last) && read.Busy() == b.last.Busy() && now.AtLeast(read)
    requires now.Busy() + now.idle - b.last.Busy() - b.last.idle < W64
    ensures var end, kind := Sample(b, Some(now)).0.last, KindOf(b, Some(now));
      && now.AtLeast(b.last) && now.AtLeast(end) && end.AtLeast(b.last) && end.Busy() == now.Busy()
      && BusyDelta(b.last, now) == now.Busy() - b.last.Busy()
      && if kind.Fresh? then end == now && TotalDelta(b.last, now) == now.Busy() + now.idle - b.last.Busy() - b.last.idle
         else end == b.last
  {
  }

  // The ticks between two counter readings.
  function Ticks(first: Counters, end: Counters): int {
    end.Busy() + end.idle - first.Busy() - first.idle
  }

  // No reading is 2^64 ticks or more past the baseline it is measured from.
  predicate CloseReadings(s: Sampler, stats: seq<Option<Counters>>) {
    stats == [] ||
    var before, stat := stats[..|stats| - 1], stats[|stats| - 1];
    CloseReadings(s, before) && (stat.Some? ==> Ticks(After(s, before).last, stat.value) < W64)
  }

  lemma {:induction false} TotalsTelescope(s: Sampler, stats: seq<Option<Counters>>)
    requires Nondecreasing(s.last, stats) && CloseReadings(s, stats)
    ensures FreshTotals(s, stats) == Ticks(s.last, After(s, stats).last)
    ensures var end, read := After(s, stats).last, LastRead(s.last, stats);
      read.AtLeast(end) && end.AtLeast(s.last) && end.Busy() == read.Busy()
  {
    if stats != [] {
      hide Sample; hide FreshPercent; hide KindOf; hide TotalDelta; hide BusyDelta;
      var earlier, stat := stats[..|stats| - 1], stats[|stats| - 1];
      TotalsTelescope(s, earlier);
      if stat.Some? {
        TickStep(After(s, earlier), LastRead(s.last, earlier), stat.value);
      } else {
        UnreadChangesNothing(After(s, earlier));
      }
    }
  }

  lemma {:induction false} BusyTimeTelescopes(s: Sampler, stats: seq<Option<Counters>>)
    requires Nondecreasing(s.last, stats) && CloseReadings(s, stats)
    ensures WeightedBusy(s, stats) == (After(s, stats).last.Busy() - s.last.Busy()) as real
  {
    if stats != [] {
      hide Sample; hide FreshPercent; hide KindOf; hide TotalDelta; hide BusyDelta; hide FreshTotals; hide Share;
      var earlier, stat := stats[..|stats| - 1], stats[|stats| - 1];
      TotalsTelescope(s, earlier);
      BusyTimeTelescopes(s, earlier);
      if stat.Some? {
        TickStep(After(s, earlier), LastRead(s.last, earlier), stat.value);
        if KindOf(After(s, earlier), stat).Fresh? { FreshShare(After(s, earlier), stat.value); }
      } else {
        UnreadChangesNothing(After(s, earlier));
      }
    }
  }

  // Any reading: a fresh total is never more than the baseline advances by. From 2^64 ticks on it is less,
  // a quiet reading moves the baseline by ticks nobody counted, and an "over 100" one leaves busy time behind.
  lemma AnyStep(b: Sampler, read: Counters, now: Counters)
    requires read.AtLeast(b.last) && now.AtLeast(read)
    ensures var end, kind := Sample(b, Some(now)).0.last, KindOf(b, Some(now));
      && now.AtLeast(b.last) && now.AtLeast(end) && end.AtLeast(b.last)
      && (kind.Fresh? ==> TotalDelta(b.last, now) <= Ticks(b.last, end))
      && (Ticks(b.last, now) >= W64 ==>
            if kind.Fresh? then TotalDelta(b.last, now) < Ticks(b.last, end) else end == b.last || Ticks(b.last, end) > 0)
  {
  }

  // Some ticks are in no total, or the last reading is out of reach of its baseline.
  predicate LosesTicks(s: Sampler, stats: seq<Option<Counters>>) {
    var base := After(s, stats).last;
    FreshTotals(s, stats) < Ticks(s.last, base) || Ticks(base, LastRead(s.last, stats)) >= W64
  }

  lemma {:induction false} TotalsNeverExceed(s: Sampler, stats: seq<Option<Counters>>)
    requires Nondecreasing(s.last, stats)
    ensures var base, read := After(s, stats).last, LastRead(s.last, stats);
      read.AtLeast(base) && base.AtLeast(s.last) && FreshTotals(s, stats) <= Ticks(s.last, base)
    ensures CloseReadings(s, stats) || LosesTicks(s, stats)
  {
    if stats != [] {
      hide Sample; hide KindOf; hide TotalDelta;
      var earlier, stat := stats[..|stats| - 1], stats[|stats| - 1];
      TotalsNeverExceed(s, earlier);
      if stat.Some? {
        AnyStep(After(s, earlier), LastRead(s.last, earlier), stat.value);
      } else {
        UnreadChangesNothing(After(s, earlier));
      }
    }
  }

  /**
   MAIN RESULT. With counters that never go back, no tick is lost or counted twice exactly when no
   reading is 2^64 ticks past its baseline: the totals then telescope over the run, and the weighted
   percentages are the busy time, although idle ticks read in a quiet interval are kept for the next one.
   */
  lemma RunAccountsForEveryTick(s: Sampler, stats: seq<Option<Counters>>)
    requires Nondecreasing(s.last, stats)
    ensures var base, read := After(s, stats).last, LastRead(s.last, stats);
      CloseReadings(s, stats) <==> FreshTotals(s, stats) == Ticks(s.last, base) && base.Busy() == read.Busy()
    ensures CloseReadings(s, stats) ==>
      WeightedBusy(s, stats) == (After(s, stats).last.Busy() - s.last.Busy()) as real
  {
    if CloseReadings(s, stats) {
      TotalsTelescope(s, stats);
      BusyTimeTelescopes(s, stats);
    } else {
      TotalsNeverExceed(s, stats);
    }
  }

  lemma FreshShare(b: Sampler, now: Counters)
    requires KindOf(b, Some(now)).Fresh?
    ensures Share(b, now) == BusyDelta(b.last, now) as real
  {
    PercentTimesTotal(BusyDelta(b.last, now), TotalDelta(b.last, now));
  }

  lemma UnreadChangesNothing(b: Sampler)
    ensures Sample(b, None).0 == b && !KindOf(b, None).Fresh?
  {
  }
}
