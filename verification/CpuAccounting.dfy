/** CPU time accounting of src/cpu.cpp: what one sample of the kernel's counters does to a CPUData. */
module CpuAccounting {

  const U64 := 0x1_0000_0000_0000_0000

  /** The ten counters of a `cpu` line of /proc/stat. */
  datatype Sample = Sample(
    user: nat, nice: nat, system: nat, idle: nat, ioWait: nat,
    irq: nat, softIrq: nat, steal: nat, guest: nat, guestNice: nat)
  {
    /** Guest time is counted in user time; unsigned subtraction wraps. */
    function UserTime(): nat { (user - guest) % U64 }

    function NiceTime(): nat { (nice - guestNice) % U64 }

    function IdleAllTime(): nat { (idle + ioWait) % U64 }

    function SystemAllTime(): nat { (system + irq + softIrq) % U64 }

    function VirtAllTime(): nat { (guest + guestNice) % U64 }

    function TotalTime(): nat {
      (UserTime() + NiceTime() + SystemAllTime() + IdleAllTime() + steal + VirtAllTime()) % U64
    }

    /** No wrap anywhere. */
    predicate Plain() {
      && guest <= user && guestNice <= nice
      && user + nice + system + irq + softIrq + idle + ioWait + steal < U64
    }
  }

  /** The counters that are kept, or the differences between two of them. */
  datatype Times = Times(
    user: nat, nice: nat, system: nat, systemAll: nat, idleAll: nat, idle: nat,
    ioWait: nat, irq: nat, softIrq: nat, steal: nat, guest: nat, total: nat)
  {
    /** The parts the total is made of. */
    function Parts(): nat {
      user + nice + systemAll + idleAll + steal + guest
    }
  }

  const ZERO := Times(0, 0, 0, 0, 0, 0, 0, 0, 0, 0, 0, 0)

  /** `CPUData`, as far as it is about time. */
  datatype CPUData = CPUData(cpuId: int, times: Times, periods: Times, percent: real)

  function TimesOf(s: Sample): Times {
    Times(s.UserTime(), s.NiceTime(), s.system, s.SystemAllTime(), s.IdleAllTime(), s.idle,
          s.ioWait, s.irq, s.softIrq, s.steal, s.VirtAllTime(), s.TotalTime())
  }

  /** `WRAP_SUBTRACT`. */
  function Delta(a: nat, b: nat): nat {
    if a > b then a - b else 0
  }

  function Periods(now: Times, before: Times): Times {
    Times(Delta(now.user, before.user), Delta(now.nice, before.nice), Delta(now.system, before.system),
          Delta(now.systemAll, before.systemAll), Delta(now.idleAll, before.idleAll), Delta(now.idle, before.idle),
          Delta(now.ioWait, before.ioWait), Delta(now.irq, before.irq), Delta(now.softIrq, before.softIrq),
          Delta(now.steal, before.steal), Delta(now.guest, before.guest), Delta(now.total, before.total))
  }

  function Clamp(x: real): real {
    if x < 0.0 then 0.0 else if x > 100.0 then 100.0 else x
  }

  /** The load in percent; unchanged when no time has passed. */
  function Percent(p: Times, previous: real): real {
    if p.total == 0 then previous
    else
      var total := p.total as real;
      Clamp(p.nice as real * 100.0 / total + p.user as real * 100.0 / total
            + p.systemAll as real * 100.0 / total + (p.steal + p.guest) as real * 100.0 / total)
  }

  /** `calculateCPUData`. */
  function Calculate(d: CPUData, s: Sample): CPUData {
    var now := TimesOf(s);
    var periods := Periods(now, d.times);
    CPUData(d.cpuId, now, periods, Percent(periods, d.percent))
  }

  // ------------------------------------------------------------------ one sample after another

  /** Without wrap, the times are the counters without guest time and their sums. */
  lemma PlainTimes(s: Sample)
    requires s.Plain()
    ensures var t := TimesOf(s);
            && t.user == s.user - s.guest && t.nice == s.nice - s.guestNice
            && t.systemAll == s.system + s.irq + s.softIrq && t.idleAll == s.idle + s.ioWait
            && t.steal == s.steal && t.guest == s.guest + s.guestNice
            && t.system == s.system && t.idle == s.idle && t.ioWait == s.ioWait
            && t.irq == s.irq && t.softIrq == s.softIrq
            && t.total == s.user + s.nice + s.system + s.irq + s.softIrq + s.idle + s.ioWait + s.steal
  {
    assert s.UserTime() == s.user - s.guest && s.NiceTime() == s.nice - s.guestNice;
    assert s.IdleAllTime() == s.idle + s.ioWait && s.VirtAllTime() == s.guest + s.guestNice;
    assert s.SystemAllTime() == s.system + s.irq + s.softIrq;
  }

  lemma PlainTotal(s: Sample)
    requires s.Plain()
    ensures TimesOf(s).total == TimesOf(s).Parts()
  {
    hide TimesOf;
    PlainTimes(s);
  }

  /** Unsigned arithmetic in any case: each time is the counter without the guest time, or the sum of
      counters, up to a multiple of 2^64. */
  lemma TimesWrap(s: Sample)
    ensures var t := TimesOf(s);
            && (t.user + s.guest) % U64 == s.user % U64 && (t.nice + s.guestNice) % U64 == s.nice % U64
            && t.systemAll == (s.system + s.irq + s.softIrq) % U64
            && t.idleAll == (s.idle + s.ioWait) % U64
            && t.guest == (s.guest + s.guestNice) % U64
            && t.total == (t.user + t.nice + t.systemAll + t.idleAll + t.steal + t.guest) % U64
            && t.user < U64 && t.nice < U64
  {
    WrapBack(s.user, s.guest);
    WrapBack(s.nice, s.guestNice);
  }

  lemma WrapBack(a: nat, b: nat)
    ensures ((a - b) % U64 + b) % U64 == a % U64
  {
  }

  /** None of the parts of the total went back. */
  predicate Forward(now: Times, before: Times) {
    && now.user >= before.user && now.nice >= before.nice && now.systemAll >= before.systemAll
    && now.idleAll >= before.idleAll && now.steal >= before.steal && now.guest >= before.guest
  }

  /** The periods of the parts add up to the period of the total exactly when the parts did not move
      in opposite directions. */
  lemma PeriodsAddUp(now: Times, before: Times)
    requires now.total == now.Parts() && before.total == before.Parts()
    ensures var p := Periods(now, before);
            p.Parts() == p.total <==> Forward(now, before) || Forward(before, now)
  {
  }

  /** Two samples without wrap for which they do not: user time goes back by 10, idle time on by 100. */
  lemma PeriodsExample()
    ensures var s, t := Sample(50, 0, 0, 100, 0, 0, 0, 0, 0, 0), Sample(40, 0, 0, 200, 0, 0, 0, 0, 0, 0);
            var p := Periods(TimesOf(t), TimesOf(s));
            s.Plain() && t.Plain() && p.Parts() == 100 && p.total == 90
  {
    IdleSample(50, 100);
    IdleSample(40, 200);
  }

  lemma IdleSample(user: nat, idle: nat)
    requires user + idle < U64
    ensures TimesOf(Sample(user, 0, 0, idle, 0, 0, 0, 0, 0, 0))
            == Times(user, 0, 0, 0, idle, idle, 0, 0, 0, 0, 0, user + idle)
  {
  }

  /** When they add up, the percentage is the share of time that was not idle, and no clamping happens. */
  lemma PercentIsBusyShare(p: Times, previous: real)
    requires p.Parts() == p.total && p.total > 0
    ensures Percent(p, previous) == 100.0 * (p.total - p.idleAll) as real / p.total as real
    ensures 0.0 <= Percent(p, previous) <= 100.0
  {
    var t := p.total as real;
    var busy := (p.total - p.idleAll) as real;
    assert busy == p.nice as real + p.user as real + p.systemAll as real + (p.steal + p.guest) as real;
    SumOfShares(p.nice as real, p.user as real, p.systemAll as real, (p.steal + p.guest) as real, t);
    ShareRange(busy, t);
  }

  /** In any case it is the share of user, nice, system, stolen and guest time, at most 100. */
  lemma PercentIsCappedShare(p: Times, previous: real)
    ensures p.total == 0 ==> Percent(p, previous) == previous
    ensures p.total > 0 ==>
              var busy := p.user + p.nice + p.systemAll + p.steal + p.guest;
              Percent(p, previous) == if busy <= p.total then 100.0 * busy as real / p.total as real else 100.0
  {
    if p.total > 0 {
      var t := p.total as real;
      var busy := (p.user + p.nice + p.systemAll + p.steal + p.guest) as real;
      assert busy == p.nice as real + p.user as real + p.systemAll as real + (p.steal + p.guest) as real;
      SumOfShares(p.nice as real, p.user as real, p.systemAll as real, (p.steal + p.guest) as real, t);
      if busy <= t { ShareRange(busy, t); } else { ShareAbove(busy, t); }
    }
  }

  lemma ShareAbove(busy: real, t: real)
    requires busy > t > 0.0
    ensures 100.0 * busy / t > 100.0
  {
  }

  lemma SumOfShares(a: real, b: real, c: real, d: real, t: real)
    requires t > 0.0
    ensures a * 100.0 / t + b * 100.0 / t + c * 100.0 / t + d * 100.0 / t == 100.0 * (a + b + c + d) / t
  {
  }

  lemma ShareRange(busy: real, t: real)
    requires 0.0 <= busy <= t && t > 0.0
    ensures 0.0 <= 100.0 * busy / t <= 100.0
  {
  }

  // ------------------------------------------------------------------ runs

  /** The data after all samples. */
  function After(d: CPUData, samples: seq<Sample>): CPUData {
    if samples == [] then d else Calculate(After(d, samples[..|samples| - 1]), samples[|samples| - 1])
  }

  /** The sum of the total periods from sample `from` on. */
  function TotalOver(d: CPUData, samples: seq<Sample>, from: nat): nat
    requires from <= |samples|
    decreases |samples|
  {
    if |samples| == from then 0
    else TotalOver(d, samples[..|samples| - 1], from) + After(d, samples).periods.total
  }

  /** Samples without wrap whose parts never go back. */
  ghost predicate Regular(samples: seq<Sample>) {
    && (forall s <- samples :: s.Plain())
    && forall i :: 0 < i < |samples| ==> Forward(TimesOf(samples[i]), TimesOf(samples[i - 1]))
  }

  lemma RegularStep(d: CPUData, last: Sample, s: Sample)
    requires d.times == TimesOf(last) && last.Plain() && s.Plain() && Forward(TimesOf(s), TimesOf(last))
    ensures var r := Calculate(d, s);
            && r.periods.Parts() == r.periods.total
            && (r.periods.total > 0 ==>
                  r.percent == 100.0 * (r.periods.total - r.periods.idleAll) as real / r.periods.total as real)
  {
    hide Percent, Forward, Periods, TimesOf;
    PlainTotal(s);
    PlainTotal(last);
    PeriodsAddUp(TimesOf(s), TimesOf(last));
    var p := Periods(TimesOf(s), TimesOf(last));
    if p.total > 0 { PercentIsBusyShare(p, d.percent); }
  }

  /** How much a value has grown; nothing when it went back. */
  lemma DeltaIsGrowth(a: nat, b: nat)
    ensures Delta(a, b) == if a >= b then a - b else 0
  {
  }

  /** Every period is the growth of its counters since the last sample, or 0 when they went back. */
  lemma PeriodsAreGrowth(d: CPUData, last: Sample, s: Sample)
    requires d.times == TimesOf(last) && last.Plain() && s.Plain()
    ensures var p := Calculate(d, s).periods;
            && p.user == Delta(s.user - s.guest, last.user - last.guest)
            && p.nice == Delta(s.nice - s.guestNice, last.nice - last.guestNice)
            && p.system == Delta(s.system, last.system)
            && p.systemAll == Delta(s.system + s.irq + s.softIrq, last.system + last.irq + last.softIrq)
            && p.idleAll == Delta(s.idle + s.ioWait, last.idle + last.ioWait)
            && p.idle == Delta(s.idle, last.idle) && p.ioWait == Delta(s.ioWait, last.ioWait)
            && p.irq == Delta(s.irq, last.irq) && p.softIrq == Delta(s.softIrq, last.softIrq)
            && p.steal == Delta(s.steal, last.steal)
            && p.guest == Delta(s.guest + s.guestNice, last.guest + last.guestNice)
            && p.total == Delta(s.user + s.nice + s.system + s.irq + s.softIrq + s.idle + s.ioWait + s.steal,
                                last.user + last.nice + last.system + last.irq + last.softIrq
                                + last.idle + last.ioWait + last.steal)
    ensures Calculate(d, s).times == TimesOf(s) && Calculate(d, s).cpuId == d.cpuId
  {
    hide TimesOf, Delta, Percent;
    PlainTimes(s);
    PlainTimes(last);
  }

  /** On the counters of the kernel: in a regular run each part of the period is the growth of its
      counters, and the load is 100 times the growth of all but `idle` and `ioWait` over that of all. */
  lemma RegularCounters(d: CPUData, samples: seq<Sample>)
    requires Regular(samples) && |samples| > 1
    ensures var r, s, t := After(d, samples), samples[|samples| - 2], samples[|samples| - 1];
            var all := (t.user + t.nice + t.system + t.irq + t.softIrq + t.idle + t.ioWait + t.steal)
                       - (s.user + s.nice + s.system + s.irq + s.softIrq + s.idle + s.ioWait + s.steal);
            var idle := (t.idle + t.ioWait) - (s.idle + s.ioWait);
            && r.periods.user == (t.user - t.guest) - (s.user - s.guest)
            && r.periods.nice == (t.nice - t.guestNice) - (s.nice - s.guestNice)
            && r.periods.systemAll == (t.system + t.irq + t.softIrq) - (s.system + s.irq + s.softIrq)
            && r.periods.idleAll == idle
            && r.periods.steal == t.steal - s.steal
            && r.periods.guest == (t.guest + t.guestNice) - (s.guest + s.guestNice)
            && r.periods.total == all
            && (all > 0 ==> r.percent == 100.0 * (all - idle) as real / all as real)
  {
    hide Percent, Periods, TimesOf, Delta;
    var n := |samples|;
    var s, t := samples[n - 2], samples[n - 1];
    assert s in samples && t in samples;
    assert Forward(TimesOf(t), TimesOf(s));
    PlainTimes(s);
    PlainTimes(t);
    var before := After(d, samples[..n - 1]);
    assert samples[..n - 1][n - 2] == s;
    assert before.times == TimesOf(s);
    RegularRun(d, samples);
    hide After;
    PeriodsAreGrowth(before, s, t);
    Grown(s, t);
  }

  /** In a forward step no saturation happens. */
  lemma Grown(s: Sample, t: Sample)
    requires s.Plain() && t.Plain() && Forward(TimesOf(t), TimesOf(s))
    ensures Delta(t.user - t.guest, s.user - s.guest) == (t.user - t.guest) - (s.user - s.guest)
    ensures Delta(t.nice - t.guestNice, s.nice - s.guestNice) == (t.nice - t.guestNice) - (s.nice - s.guestNice)
    ensures Delta(t.system + t.irq + t.softIrq, s.system + s.irq + s.softIrq)
            == (t.system + t.irq + t.softIrq) - (s.system + s.irq + s.softIrq)
    ensures Delta(t.idle + t.ioWait, s.idle + s.ioWait) == (t.idle + t.ioWait) - (s.idle + s.ioWait)
    ensures Delta(t.steal, s.steal) == t.steal - s.steal
    ensures Delta(t.guest + t.guestNice, s.guest + s.guestNice) == (t.guest + t.guestNice) - (s.guest + s.guestNice)
    ensures var all := t.user + t.nice + t.system + t.irq + t.softIrq + t.idle + t.ioWait + t.steal;
            var was := s.user + s.nice + s.system + s.irq + s.softIrq + s.idle + s.ioWait + s.steal;
            Delta(all, was) == all - was
  {
    hide TimesOf;
    PlainTimes(s);
    PlainTimes(t);
  }

  /** From the second sample of a regular run on: the parts add up to the total period, and the load
      is the share of the time that was not idle. */
  lemma RegularRun(d: CPUData, samples: seq<Sample>)
    requires Regular(samples) && |samples| > 1
    ensures var r := After(d, samples);
            && r.periods.Parts() == r.periods.total
            && (r.periods.total > 0 ==>
                  r.percent == 100.0 * (r.periods.total - r.periods.idleAll) as real / r.periods.total as real)
  {
    hide Percent, Forward, Periods, TimesOf;
    var n := |samples|;
    var before := After(d, samples[..n - 1]);
    assert samples[..n - 1][n - 2] == samples[n - 2];
    assert samples[n - 1] in samples && samples[n - 2] in samples;
    assert before.times == TimesOf(samples[n - 2]);
    RegularStep(before, samples[n - 2], samples[n - 1]);
  }

  /** The total periods behind the first sample telescope. */
  lemma {:induction false} TotalsTelescope(d: CPUData, samples: seq<Sample>)
    requires Regular(samples) && samples != []
    ensures TotalOver(d, samples, 1) == TimesOf(samples[|samples| - 1]).total - TimesOf(samples[0]).total
    decreases |samples|
  {
    hide TimesOf, Percent;
    var n := |samples|;
    if n > 1 {
      var init := samples[..n - 1];
      assert forall s <- init :: s in samples;
      TotalsTelescope(d, init);
      assert init[|init| - 1] == samples[n - 2] && init[0] == samples[0];
      TotalGrows(samples, n - 1);
      assert After(d, init).times == TimesOf(samples[n - 2]);
    }
  }

  lemma TotalGrows(samples: seq<Sample>, i: nat)
    requires Regular(samples) && 0 < i < |samples|
    ensures TimesOf(samples[i]).total >= TimesOf(samples[i - 1]).total
  {
    hide TimesOf;
    assert samples[i] in samples && samples[i - 1] in samples;
    PlainTimes(samples[i]);
    PlainTimes(samples[i - 1]);
    assert Forward(TimesOf(samples[i]), TimesOf(samples[i - 1]));
  }

  /** Over every run, counters going backwards included, the load stays between 0 and 100. */
  lemma {:induction false} PercentStaysInRange(d: CPUData, samples: seq<Sample>)
    requires 0.0 <= d.percent <= 100.0
    ensures 0.0 <= After(d, samples).percent <= 100.0
    decreases |samples|
  {
    hide TimesOf, Periods;
    if samples != [] { PercentStaysInRange(d, samples[..|samples| - 1]); }
  }

  /** The same sample a second time: all periods are zero and the load stays. */
  lemma SameSampleTwice(d: CPUData, s: Sample)
    ensures var r := Calculate(Calculate(d, s), s);
            r.periods == ZERO && r.percent == Calculate(d, s).percent && r.times == TimesOf(s)
  {
  }
}
