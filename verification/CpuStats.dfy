/** `CPUStats`: reading /proc/stat, and starting over when the set of CPUs has changed. */
module CpuStats {
  import opened CpuAccounting

  /** A line of /proc/stat, already parsed. */
  datatype Line = TotalLine(sample: Sample) | CoreLine(id: int, sample: Sample) | BootTimeLine(t: int) | OtherLine

  /** One content of the file: the total, one line for each CPU, and other lines with the boot time. */
  datatype Snapshot = Snapshot(total: Sample, ids: seq<int>, samples: seq<Sample>, rest: seq<Line>) {
    predicate Valid() {
      && ids != [] && |ids| == |samples| && (forall id <- ids :: id >= 0)
      && (forall l <- rest :: l.BootTimeLine? || l.OtherLine?)
      && (exists l <- rest :: l.BootTimeLine?)
    }

    function Cores(): (ls: seq<Line>)
      requires |ids| == |samples|
      ensures |ls| == |ids| && forall i :: 0 <= i < |ids| ==> ls[i] == CoreLine(ids[i], samples[i])
    {
      seq(|ids|, i requires 0 <= i < |ids| && |ids| == |samples| => CoreLine(ids[i], samples[i]))
    }

    function Lines(): (ls: seq<Line>)
      requires |ids| == |samples|
    {
      [TotalLine(total)] + Cores() + rest
    }
  }

  /** The first boot time line says `t`. */
  ghost predicate IsBootTime(file: Snapshot, t: int) {
    exists j :: 0 <= j < |file.rest| && file.rest[j] == BootTimeLine(t)
                && forall k :: 0 <= k < j ==> !file.rest[k].BootTimeLine?
  }

  /** A core that has just been found. */
  function NewCore(id: int): CPUData {
    CPUData(id, ZERO.(total := 1), ZERO.(total := 1), 0.0)
  }

  /** All cores after their samples. */
  function Sampled(cores: seq<CPUData>, samples: seq<Sample>): (r: seq<CPUData>)
    requires |cores| >= |samples|
    ensures |r| == |samples| && forall i :: 0 <= i < |r| ==> r[i] == Calculate(cores[i], samples[i])
  {
    seq(|samples|, i requires 0 <= i < |samples| && |cores| >= |samples| => Calculate(cores[i], samples[i]))
  }

  function NewCores(ids: seq<int>): (r: seq<CPUData>)
    ensures |r| == |ids| && forall i :: 0 <= i < |r| ==> r[i] == NewCore(ids[i])
  {
    seq(|ids|, i requires 0 <= i < |ids| => NewCore(ids[i]))
  }

  /** The known cores start with those of the snapshot, in order. */
  predicate Fits(cores: seq<CPUData>, ids: seq<int>) {
    |cores| >= |ids| && forall i :: 0 <= i < |ids| ==> cores[i].cpuId == ids[i]
  }

  /** The first `n` cores agree with the snapshot and have their sample; the others are untouched. */
  ghost predicate PartlySampled(file: Snapshot, cores: seq<CPUData>, now: seq<CPUData>, n: nat)
    requires file.Valid()
  {
    && n <= |file.ids| && n <= |cores| == |now|
    && (forall k :: 0 <= k < n ==> cores[k].cpuId == file.ids[k] && now[k] == Calculate(cores[k], file.samples[k]))
    && (forall k :: n <= k < |cores| ==> now[k] == cores[k])
  }

  lemma SampledOne(file: Snapshot, cores: seq<CPUData>, now: seq<CPUData>, n: nat)
    requires file.Valid() && PartlySampled(file, cores, now, n)
    requires n < |file.ids| && n < |cores| && now[n].cpuId == file.ids[n]
    ensures PartlySampled(file, cores, now[n := Calculate(now[n], file.samples[n])], n + 1)
  {
  }

  lemma WholeSnapshot(file: Snapshot, cores: seq<CPUData>, now: seq<CPUData>, n: nat)
    requires file.Valid() && PartlySampled(file, cores, now, n) && n == |file.ids|
    ensures Fits(cores, file.ids) && now[..n] == Sampled(cores, file.samples)
    ensures forall k :: 0 <= k < n ==> now[k].cpuId == file.ids[k]
  {
  }

  class CPUStats {
    var bootTime: int
    var cpuData: seq<CPUData>
    var cpuDataTotal: CPUData
    var cpuPeriod: real
    var updatedCPUs: bool
    var inited: bool

    constructor ()
      ensures !inited && cpuData == [] && cpuDataTotal == CPUData(0, ZERO, ZERO, 0.0)
    {
      bootTime, cpuData, cpuDataTotal := 0, [], CPUData(0, ZERO, ZERO, 0.0);
      cpuPeriod, updatedCPUs, inited := 0.0, false, false;
    }

    /** The state a successful update leaves, with the cores as they were sampled. */
    ghost predicate Updated(file: Snapshot, cores: seq<CPUData>)
      reads this
      requires file.Valid()
    {
      && inited && updatedCPUs && cpuData == cores
      && |cores| == |file.ids| && (forall i :: 0 <= i < |cores| ==> cores[i].cpuId == file.ids[i])
      && cpuPeriod == cores[0].periods.total as real / |cores| as real
    }

    /** `Init`, against a file whose content does not change in between. */
    method Init(file: Snapshot) returns (ok: bool)
      requires file.Valid()
      modifies this
      ensures ok
      ensures old(inited) ==> unchanged(this)
      ensures !old(inited) ==> Updated(file, Sampled(NewCores(file.ids), file.samples))
      ensures !old(inited) ==> cpuDataTotal == Calculate(old(cpuDataTotal), file.total)
      ensures !old(inited) ==> IsBootTime(file, bootTime)
      decreases 1
    {
      if inited {
        return true;
      }
      hide Calculate;
      var lines := file.Lines();
      var first := true;
      cpuData := [];
      var i := 0;
      BootTimeIsThere(file);
      while true
        invariant 0 <= i <= |lines| && !inited && cpuDataTotal == old(cpuDataTotal)
        invariant first <==> i == 0
        invariant |cpuData| == if i == 0 then 0 else if i <= |file.ids| then i - 1 else |file.ids|
        invariant forall k :: 0 <= k < |cpuData| ==> cpuData[k] == NewCore(file.ids[k])
        invariant forall k :: 0 <= k < i ==> !lines[k].BootTimeLine?
        decreases |lines| - i
      {
        if i == |lines| {
          assert false;
          return false;
        }
        var line := lines[i];
        LineAt(file, i);
        i := i + 1;
        if line.TotalLine? || line.CoreLine? {
          if first {
            first := false;
            continue;
          }
          cpuData := cpuData + [NewCore(line.id)];
        } else if line.BootTimeLine? {
          bootTime := line.t;
          FirstBootTime(file, i - 1);
          break;
        }
      }
      assert cpuData == NewCores(file.ids);
      inited := true;
      ok := UpdateCPUData(file);
    }

    method Reinit(file: Snapshot) returns (ok: bool)
      requires file.Valid()
      modifies this
      ensures ok && Updated(file, Sampled(NewCores(file.ids), file.samples)) && IsBootTime(file, bootTime)
      ensures cpuDataTotal == Calculate(old(cpuDataTotal), file.total)
      decreases 2
    {
      inited := false;
      ok := Init(file);
    }

    /** `UpdateCPUData`: at most one restart, after which the cores are those of the snapshot. */
    method UpdateCPUData(file: Snapshot) returns (ok: bool)
      requires file.Valid()
      modifies this
      ensures ok == old(inited)
      ensures !ok ==> unchanged(this)
      ensures ok && old(Fits(cpuData, file.ids)) ==>
                Updated(file, Sampled(old(cpuData), file.samples))
                && cpuDataTotal == Calculate(old(cpuDataTotal), file.total) && bootTime == old(bootTime)
      ensures ok && !old(Fits(cpuData, file.ids)) ==>
                Updated(file, Sampled(NewCores(file.ids), file.samples))
                && cpuDataTotal == Calculate(Calculate(old(cpuDataTotal), file.total), file.total)
                && IsBootTime(file, bootTime)
      ensures ok ==> |cpuData| == |file.ids|
      ensures ok && old(|cpuData| >= |file.ids| && forall i :: 0 <= i < |file.ids| ==> cpuData[i].cpuId == file.ids[i]) ==>
                forall i :: 0 <= i < |file.ids| ==> cpuData[i] == Calculate(old(cpuData)[i], file.samples[i])
      decreases if Fits(cpuData, file.ids) then 0 else 3
    {
      hide Calculate, Snapshot.Lines, Sampled, NewCores;
      if !inited {
        return false;
      }
      var mismatch, ret := ReadStat(file);
      if mismatch {
        ok := Reinit(file);
        return;
      }
      cpuPeriod := cpuData[0].periods.total as real / |cpuData| as real;
      updatedCPUs := true;
      return ret;
    }

    /** The loop over the lines, up to the first CPU that is not where it was. */
    method ReadStat(file: Snapshot) returns (mismatch: bool, ret: bool)
      requires file.Valid()
      modifies this`cpuData, this`cpuDataTotal
      ensures mismatch == !old(Fits(cpuData, file.ids))
      ensures cpuDataTotal == Calculate(old(cpuDataTotal), file.total)
      ensures !mismatch ==>
                ret && cpuData == Sampled(old(cpuData), file.samples)
                && forall k :: 0 <= k < |cpuData| ==> cpuData[k].cpuId == file.ids[k]
    {
      hide Calculate, Snapshot.Lines, Sampled;
      var lines := file.Lines();
      var cpuCount := 0;
      var i := 0;
      ghost var cores := cpuData;
      ret := false;
      LineCount(file);
      while i < |lines|
        invariant 0 <= i <= |lines| && (ret <==> i > 0)
        invariant i == (if ret then 1 + cpuCount else 0) && (!ret ==> cpuCount == 0)
        invariant cpuDataTotal == if ret then Calculate(old(cpuDataTotal), file.total) else old(cpuDataTotal)
        invariant PartlySampled(file, cores, cpuData, cpuCount)
      {
        LineAt(file, i);
        match lines[i] {
          case TotalLine(s) =>
            if ret {
              break;
            }
            ret := true;
            cpuDataTotal := Calculate(cpuDataTotal, s);
          case CoreLine(id, s) =>
            if !ret || id < 0 {
              return false, false;
            }
            if cpuCount + 1 > |cpuData| || cpuData[cpuCount].cpuId != id {
              return true, false;
            }
            SampledOne(file, cores, cpuData, cpuCount);
            cpuData := cpuData[cpuCount := Calculate(cpuData[cpuCount], s)];
            cpuCount := cpuCount + 1;
          case _ =>
            break;
        }
        i := i + 1;
      }
      WholeSnapshot(file, cores, cpuData, cpuCount);
      if cpuCount < |cpuData| {
        cpuData := cpuData[..cpuCount];
      }
      mismatch := false;
    }
  }

  /** The lines of a snapshot. */
  lemma LineAt(file: Snapshot, i: nat)
    requires file.Valid() && i < |file.Lines()|
    ensures i == 0 ==> file.Lines()[i] == TotalLine(file.total)
    ensures 0 < i <= |file.ids| ==> file.Lines()[i] == CoreLine(file.ids[i - 1], file.samples[i - 1]) && file.ids[i - 1] >= 0
    ensures i > |file.ids| ==> file.Lines()[i].BootTimeLine? || file.Lines()[i].OtherLine?
  {
    if i > |file.ids| {
      assert file.Lines()[i] == file.rest[i - 1 - |file.ids|];
    } else if i > 0 {
      assert file.ids[i - 1] in file.ids;
    }
  }

  lemma FirstBootTime(file: Snapshot, i: nat)
    requires file.Valid() && i < |file.Lines()| && file.Lines()[i].BootTimeLine?
    requires forall k :: 0 <= k < i ==> !file.Lines()[k].BootTimeLine?
    ensures IsBootTime(file, file.Lines()[i].t)
  {
    LineAt(file, i);
    var j := i - 1 - |file.ids|;
    RestAt(file, j);
    forall k | 0 <= k < j ensures !file.rest[k].BootTimeLine? { RestAt(file, k); }
  }

  lemma RestAt(file: Snapshot, k: int)
    requires file.Valid() && 0 <= k && 1 + |file.ids| + k < |file.Lines()|
    ensures k < |file.rest| && file.Lines()[1 + |file.ids| + k] == file.rest[k]
  {
  }

  /** The first sample of a new core: its periods are its counters, and 1 is missing from the total. */
  lemma FirstSample(id: int, s: Sample)
    requires s.Plain()
    ensures var d := Calculate(NewCore(id), s);
            && d.cpuId == id
            && d.periods.user == s.user - s.guest && d.periods.nice == s.nice - s.guestNice
            && d.periods.systemAll == s.system + s.irq + s.softIrq && d.periods.idleAll == s.idle + s.ioWait
            && d.periods.steal == s.steal && d.periods.guest == s.guest + s.guestNice
            && var all := s.user + s.nice + s.system + s.irq + s.softIrq + s.idle + s.ioWait + s.steal;
               d.periods.total == if all > 1 then all - 1 else 0
  {
    hide TimesOf, Percent;
    PlainTimes(s);
  }

  lemma LineCount(file: Snapshot)
    requires file.Valid()
    ensures |file.Lines()| > |file.ids| + 1
  {
  }

  lemma BootTimeIsThere(file: Snapshot)
    requires file.Valid()
    ensures exists k :: 0 <= k < |file.Lines()| && file.Lines()[k].BootTimeLine?
  {
    var j :| 0 <= j < |file.rest| && file.rest[j].BootTimeLine?;
    assert file.Lines()[1 + |file.ids| + j] == file.rest[j];
  }
}
