/** nova/scheduler/filters/rackspace_filter.py: Rackspace's hard rules for
    compute hosts, and the reservation of empty hosts as spares. */
module RackspaceFilter {
  import opened Wrappers
  import Strings
  import Seqs

  /** The filter's configuration options. */
  datatype Conf = Conf(
    maxIosPerHost: int,
    maxInstancesPerHost: int,
    spareHostPercentage: int,
    ramCheckEnabled: bool,
    ramCheckThreshold: int,
    ramCheckReserve: int)

  /** The option defaults. */
  const DefaultConf: Conf := Conf(8, 50, 10, false, 2048, 1024)

  /** The host attributes the filter reads. */
  datatype HostState = HostState(host: string, numIoOps: int, numInstances: int, freeRamMb: int)

  /** The flavor being scheduled; `vcpus` may be missing. */
  datatype InstanceType = InstanceType(memoryMb: int, vcpus: Option<int>)

  /** Python's `math.ceil(n / d)` for a positive divisor. */
  function CeilDiv(n: int, d: int): (r: int)
    requires d > 0
    ensures d * (r - 1) < n <= d * r
  {
    var q := (-n) / d;
    assert -n == q * d + (-n) % d;
    -q
  }

  /** `_estimate_instance_overhead`: 3 + 0.00781 per MB + 1.5 per vCPU,
      rounded up, computed in units of 1/100000 MB. */
  function Overhead(memoryMb: int, vcpus: int): (r: int)
    ensures 100000 * (r - 1) < 300000 + 781 * memoryMb + 150000 * vcpus <= 100000 * r
  {
    CeilDiv(300000 + 781 * memoryMb + 150000 * vcpus, 100000)
  }

  /** The overhead never shrinks when the flavor grows. */
  lemma OverheadMonotonic(m1: int, v1: int, m2: int, v2: int)
    requires m1 <= m2 && v1 <= v2
    ensures Overhead(m1, v1) <= Overhead(m2, v2)
  {
    var r1 := Overhead(m1, v1);
    var r2 := Overhead(m2, v2);
    assert 100000 * (r1 - 1) < 100000 * r2;
  }

  /** `_estimate_used_memory_mb`: the flavor's memory plus its overhead, with
      one vCPU assumed when the flavor does not say. */
  function UsedMemoryMb(it: InstanceType): (r: int)
    ensures 100000 * (r - it.memoryMb - 1) < 300000 + 781 * it.memoryMb + 150000 * it.vcpus.GetOr(1)
              <= 100000 * (r - it.memoryMb)
    ensures it.memoryMb >= 0 && it.vcpus.GetOr(1) >= 0 ==> r >= it.memoryMb + 3
  {
    it.memoryMb + Overhead(it.memoryMb, it.vcpus.GetOr(1))
  }

  /** A flavor that does not say how many vCPUs it has is estimated as one
      with a single vCPU. */
  lemma MissingVcpusCountAsOne(memoryMb: int)
    ensures UsedMemoryMb(InstanceType(memoryMb, None)) == UsedMemoryMb(InstanceType(memoryMb, Some(1)))
  {
  }

  /** The extra reserve demanded of flavors below the threshold. */
  function ExtraReserve(conf: Conf, requested: int): int {
    if requested < conf.ramCheckThreshold then conf.ramCheckReserve else 0
  }

  /** `_ram_check_filter`. */
  predicate RamCheck(conf: Conf, h: HostState, it: InstanceType) {
    h.freeRamMb >= UsedMemoryMb(it) + ExtraReserve(conf, UsedMemoryMb(it))
  }

  /** More free memory never turns a passing host into a failing one. */
  lemma RamCheckMonotonic(conf: Conf, h: HostState, it: InstanceType, moreRam: int)
    requires RamCheck(conf, h, it) && moreRam >= h.freeRamMb
    ensures RamCheck(conf, h.(freeRamMb := moreRam), it)
  {
  }

  /** A host passing the RAM check can hold the flavor and its overhead, and
      below the threshold the reserve as well. */
  lemma RamCheckLeavesReserve(conf: Conf, h: HostState, it: InstanceType)
    requires RamCheck(conf, h, it)
    ensures conf.ramCheckReserve >= 0 ==> h.freeRamMb >= UsedMemoryMb(it)
    ensures UsedMemoryMb(it) < conf.ramCheckThreshold ==> h.freeRamMb - UsedMemoryMb(it) >= conf.ramCheckReserve
  {
  }

  /** `_host_passes`: the RAM check when enabled, then the IO-ops and
      instance-count limits, each strict. */
  predicate HostPasses(conf: Conf, h: HostState, it: InstanceType) {
    (!conf.ramCheckEnabled || RamCheck(conf, h, it))
    && h.numIoOps < conf.maxIosPerHost
    && h.numInstances < conf.maxInstancesPerHost
  }

  /** Python 2's `/` on integers: floor division. */
  function FloorDiv(a: int, b: int): (r: int)
    requires b != 0
    ensures b > 0 ==> b * r <= a < b * r + b
    ensures b < 0 ==> b * r >= a > b * r + b
  {
    if b > 0 then a / b else (-a) / (-b)
  }

  /** How many empty hosts to hold back, as written: `total_hosts / pct`,
      or none when the percentage is 0. */
  function TargetSpares(pct: int, totalHosts: int): (r: int)
    ensures pct == 0 ==> r == 0
    ensures pct > 0 && totalHosts >= 0 ==> 0 <= r <= totalHosts && pct * r <= totalHosts < pct * r + pct
  {
    if pct != 0 then
      var q := FloorDiv(totalHosts, pct);
      DivBounds(totalHosts, pct, q);
      q
    else 0
  }

  lemma DivBounds(n: int, d: int, q: int)
    ensures d > 0 && n >= 0 && d * q <= n < d * q + d ==> 0 <= q <= n
  {
    if d > 0 && q > 0 {
      MulAtLeastOne(d, q);
    }
  }

  lemma MulAtLeastOne(d: int, q: int)
    requires d >= 1 && q >= 0
    ensures d * q >= q
  {
  }

  /** How many empty hosts a spare percentage evidently asks for:
      `pct` percent of the hosts, rounded down. */
  function TargetSparesCorrected(pct: int, totalHosts: int): (r: int)
    ensures pct == 0 ==> r == 0
    ensures 0 <= pct <= 100 && totalHosts >= 0 ==>
              0 <= r <= totalHosts && 100 * r <= pct * totalHosts < 100 * (r + 1)
  {
    if pct != 0 then
      var q := FloorDiv(totalHosts * pct, 100);
      PercentBounds(pct, totalHosts, q);
      q
    else 0
  }

  lemma PercentBounds(pct: int, n: int, q: int)
    ensures 0 <= pct <= 100 && n >= 0 && 100 * q <= n * pct < 100 * q + 100 ==>
              0 <= q <= n && 100 * q <= pct * n < 100 * (q + 1)
  {
    if 0 <= pct <= 100 && n >= 0 {
      MulLe(pct, 100, n);
      assert n * pct == pct * n;
    }
  }

  lemma MulLe(a: int, b: int, n: int)
    requires a <= b && n >= 0
    ensures a * n <= b * n
  {
  }

  /** At 10% the two readings agree: that is the only case the unit tests
      exercise. */
  lemma SparesAgreeAtTenPercent(totalHosts: int)
    ensures TargetSpares(10, totalHosts) == TargetSparesCorrected(10, totalHosts)
  {
    var a := TargetSpares(10, totalHosts);
    var b := TargetSparesCorrected(10, totalHosts);
    assert 10 * a <= totalHosts < 10 * a + 10;
    assert 100 * b <= totalHosts * 10 < 100 * b + 100;
  }

  /** At 20% of 50 hosts the formula as written holds back 2 hosts, where
      the percentage asks for 10. */
  lemma SparesDisagreeAtTwentyPercent()
    ensures TargetSpares(20, 50) == 2
    ensures TargetSparesCorrected(20, 50) == 10
  {
  }

  /** A higher spare percentage, as written, holds back fewer hosts. */
  lemma SparesShrinkAsPercentageGrows()
    ensures TargetSpares(50, 100) < TargetSpares(10, 100)
    ensures TargetSparesCorrected(50, 100) > TargetSparesCorrected(10, 100)
  {
  }

  /** The spares scan: the hosts yielded so far and the last host withheld. */
  datatype Scan = Scan(out: seq<HostState>, withheld: Option<HostState>)

  predicate IsEmpty(h: HostState) {
    h.numInstances == 0
  }

  /** The loop of `filter_all`: skip failing hosts, withhold empty passing
      hosts while spares are still wanted, yield the rest. */
  function ScanHosts(conf: Conf, it: InstanceType, hosts: seq<HostState>, spares: int): (s: Scan)
    ensures forall i :: 0 <= i < |s.out| ==> HostPasses(conf, s.out[i], it)
    ensures s.withheld.Some? ==> s.withheld.value in hosts && HostPasses(conf, s.withheld.value, it) && IsEmpty(s.withheld.value)
    ensures Seqs.IsSubsequence(s.out, hosts)
  {
    if |hosts| == 0 then Scan([], None)
    else
      var h := hosts[0];
      if !HostPasses(conf, h, it) then
        var rest := ScanHosts(conf, it, hosts[1..], spares);
        rest
      else if spares > 0 && IsEmpty(h) then
        var rest := ScanHosts(conf, it, hosts[1..], spares - 1);
        Scan(rest.out, if rest.withheld.Some? then rest.withheld else Some(h))
      else
        var rest := ScanHosts(conf, it, hosts[1..], spares);
        assert ([h] + rest.out)[1..] == rest.out;
        Scan([h] + rest.out, rest.withheld)
  }

  /** `filter_all` with a given number of spares: the scan, then the last
      withheld host if nothing else was yielded. */
  function SelectHosts(conf: Conf, it: InstanceType, hosts: seq<HostState>, spares: int): (r: seq<HostState>)
    ensures forall i :: 0 <= i < |r| ==> HostPasses(conf, r[i], it) && r[i] in hosts
    ensures r == KeepSpares(Passing(conf, it, hosts), spares)
  {
    var s := ScanHosts(conf, it, hosts, spares);
    SubsequenceMembers(s.out, hosts);
    ScanIsDropEmpties(conf, it, hosts, spares);
    WithheldIsLastDropped(conf, it, hosts, spares);
    if s.withheld.Some? && |s.out| == 0 then [s.withheld.value] else s.out
  }

  lemma {:induction false} SubsequenceMembers<T>(a: seq<T>, b: seq<T>)
    requires Seqs.IsSubsequence(a, b)
    ensures forall x :: x in a ==> x in b
    decreases |b|
  {
    if |a| > 0 {
      if a[0] == b[0] && Seqs.IsSubsequence(a[1..], b[1..]) {
        SubsequenceMembers(a[1..], b[1..]);
        assert forall x :: x in a ==> x == a[0] || x in a[1..];
      } else {
        SubsequenceMembers(a, b[1..]);
      }
    }
  }

  /** The `0z0ne_target_host` hint, read for truthiness. */
  function TargetHint(hints: map<string, string>): string {
    if "0z0ne_target_host" in hints then hints["0z0ne_target_host"] else ""
  }

  /** The hosts named in a comma-separated target list, in input order. */
  function Targeted(hosts: seq<HostState>, target: string): (r: seq<HostState>)
    ensures Seqs.IsSubsequence(r, hosts)
    ensures forall h :: multiset(r)[h] == if h.host in Strings.Split(target, ',') then multiset(hosts)[h] else 0
  {
    Seqs.Filter(hosts, (h: HostState) => h.host in Strings.Split(target, ','))
  }

  /** `RackspaceFilter.filter_all`, with the number of spares given by `spares`. */
  function FilterWith(conf: Conf, it: InstanceType, hosts: seq<HostState>, hints: map<string, string>, spares: int): (r: seq<HostState>)
    ensures TargetHint(hints) != "" ==> r == Targeted(hosts, TargetHint(hints))
    ensures TargetHint(hints) == "" ==> forall i :: 0 <= i < |r| ==> HostPasses(conf, r[i], it) && r[i] in hosts
    ensures TargetHint(hints) == "" ==> r == KeepSpares(Passing(conf, it, hosts), spares)
  {
    var target := TargetHint(hints);
    if target != "" then Targeted(hosts, target)
    else SelectHosts(conf, it, hosts, spares)
  }

  /** `RackspaceFilter.filter_all`, as written. */
  function FilterAll(conf: Conf, it: InstanceType, hosts: seq<HostState>, hints: map<string, string>, totalHosts: int): (r: seq<HostState>)
    ensures TargetHint(hints) != "" ==> r == Targeted(hosts, TargetHint(hints))
    ensures TargetHint(hints) == "" ==> forall i :: 0 <= i < |r| ==> HostPasses(conf, r[i], it) && r[i] in hosts
    ensures TargetHint(hints) == "" ==>
              r == KeepSpares(Passing(conf, it, hosts), TargetSpares(conf.spareHostPercentage, totalHosts))
  {
    FilterWith(conf, it, hosts, hints, TargetSpares(conf.spareHostPercentage, totalHosts))
  }

  /** `filter_all` holding back `pct` percent of the hosts. */
  function FilterAllCorrected(conf: Conf, it: InstanceType, hosts: seq<HostState>, hints: map<string, string>, totalHosts: int): (r: seq<HostState>)
    ensures TargetHint(hints) != "" ==> r == Targeted(hosts, TargetHint(hints))
    ensures TargetHint(hints) == "" ==> forall i :: 0 <= i < |r| ==> HostPasses(conf, r[i], it) && r[i] in hosts
    ensures TargetHint(hints) == "" ==>
              r == KeepSpares(Passing(conf, it, hosts), TargetSparesCorrected(conf.spareHostPercentage, totalHosts))
  {
    FilterWith(conf, it, hosts, hints, TargetSparesCorrected(conf.spareHostPercentage, totalHosts))
  }

  // A reference reading of the spares scan.

  /** The passing hosts, in order. */
  function Passing(conf: Conf, it: InstanceType, hosts: seq<HostState>): seq<HostState> {
    Seqs.Filter(hosts, (h: HostState) => HostPasses(conf, h, it))
  }

  /** `s` without its first `k` empty hosts. */
  function DropEmpties(s: seq<HostState>, k: int): seq<HostState> {
    if |s| == 0 then []
    else if k > 0 && IsEmpty(s[0]) then DropEmpties(s[1..], k - 1)
    else [s[0]] + DropEmpties(s[1..], k)
  }

  /** Number of empty hosts in `s`. */
  function Empties(s: seq<HostState>): (n: nat)
    ensures n <= |s|
  {
    if |s| == 0 then 0 else (if IsEmpty(s[0]) then 1 else 0) + Empties(s[1..])
  }

  function Min(a: int, b: int): int {
    if a < b then a else b
  }

  /** The scan yields the passing hosts minus their first `spares` empty
      ones, and withholds a host exactly when it met an empty passing host
      while spares were still wanted. */
  lemma ScanIsDropEmpties(conf: Conf, it: InstanceType, hosts: seq<HostState>, spares: int)
    ensures ScanHosts(conf, it, hosts, spares).out == DropEmpties(Passing(conf, it, hosts), spares)
    ensures ScanHosts(conf, it, hosts, spares).withheld.Some? <==> spares > 0 && Empties(Passing(conf, it, hosts)) > 0
  {
    ScanOutIsDropEmpties(conf, it, hosts, spares);
    ScanWithholdsIffEmpty(conf, it, hosts, spares);
  }

  lemma {:induction false} ScanOutIsDropEmpties(conf: Conf, it: InstanceType, hosts: seq<HostState>, spares: int)
    ensures ScanHosts(conf, it, hosts, spares).out == DropEmpties(Passing(conf, it, hosts), spares)
  {
    if |hosts| > 0 {
      var h := hosts[0];
      PassingStep(conf, it, hosts);
      ScanStep(conf, it, hosts, spares);
      if HostPasses(conf, h, it) {
        DropEmptiesStep(h, Passing(conf, it, hosts[1..]), spares);
        if spares > 0 && IsEmpty(h) {
          ScanOutIsDropEmpties(conf, it, hosts[1..], spares - 1);
        } else {
          ScanOutIsDropEmpties(conf, it, hosts[1..], spares);
        }
      } else {
        ScanOutIsDropEmpties(conf, it, hosts[1..], spares);
      }
    }
  }

  lemma {:induction false} ScanWithholdsIffEmpty(conf: Conf, it: InstanceType, hosts: seq<HostState>, spares: int)
    ensures ScanHosts(conf, it, hosts, spares).withheld.Some? <==> spares > 0 && Empties(Passing(conf, it, hosts)) > 0
  {
    if |hosts| > 0 {
      var h := hosts[0];
      PassingStep(conf, it, hosts);
      ScanStep(conf, it, hosts, spares);
      if HostPasses(conf, h, it) {
        DropEmptiesStep(h, Passing(conf, it, hosts[1..]), spares);
        if spares > 0 && IsEmpty(h) {
          ScanWithholdsIffEmpty(conf, it, hosts[1..], spares - 1);
        } else {
          ScanWithholdsIffEmpty(conf, it, hosts[1..], spares);
        }
      } else {
        ScanWithholdsIffEmpty(conf, it, hosts[1..], spares);
      }
    } else {
      assert Passing(conf, it, hosts) == [];
    }
  }

  /** One step of the scan. */
  lemma ScanStep(conf: Conf, it: InstanceType, hosts: seq<HostState>, spares: int)
    requires |hosts| > 0
    ensures !HostPasses(conf, hosts[0], it) ==> ScanHosts(conf, it, hosts, spares) == ScanHosts(conf, it, hosts[1..], spares)
    ensures HostPasses(conf, hosts[0], it) && spares > 0 && IsEmpty(hosts[0]) ==>
              var rest := ScanHosts(conf, it, hosts[1..], spares - 1);
              ScanHosts(conf, it, hosts, spares) == Scan(rest.out, if rest.withheld.Some? then rest.withheld else Some(hosts[0]))
    ensures HostPasses(conf, hosts[0], it) && !(spares > 0 && IsEmpty(hosts[0])) ==>
              var rest := ScanHosts(conf, it, hosts[1..], spares);
              ScanHosts(conf, it, hosts, spares) == Scan([hosts[0]] + rest.out, rest.withheld)
  {
  }

  /** One step of `Passing`. */
  lemma PassingStep(conf: Conf, it: InstanceType, hosts: seq<HostState>)
    requires |hosts| > 0
    ensures HostPasses(conf, hosts[0], it) ==> Passing(conf, it, hosts) == [hosts[0]] + Passing(conf, it, hosts[1..])
    ensures !HostPasses(conf, hosts[0], it) ==> Passing(conf, it, hosts) == Passing(conf, it, hosts[1..])
  {
    Seqs.FilterCons(hosts[0], hosts[1..], (h: HostState) => HostPasses(conf, h, it));
    assert hosts == [hosts[0]] + hosts[1..];
  }

  /** One step of `DropEmpties` and `Empties`. */
  lemma DropEmptiesStep(h: HostState, p: seq<HostState>, k: int)
    ensures Empties([h] + p) == (if IsEmpty(h) then 1 else 0) + Empties(p)
    ensures k > 0 && IsEmpty(h) ==> DropEmpties([h] + p, k) == DropEmpties(p, k - 1)
    ensures !(k > 0 && IsEmpty(h)) ==> DropEmpties([h] + p, k) == [h] + DropEmpties(p, k)
  {
    assert ([h] + p)[1..] == p;
  }

  /** One step of `Dropped`. */
  lemma DroppedStep(h: HostState, p: seq<HostState>, k: int)
    ensures k > 0 && IsEmpty(h) ==> Dropped([h] + p, k) == [h] + Dropped(p, k - 1)
    ensures !(k > 0 && IsEmpty(h)) ==> Dropped([h] + p, k) == Dropped(p, k)
  {
    assert ([h] + p)[1..] == p;
  }

  /** The empty hosts `DropEmpties` removes, in order. */
  function Dropped(s: seq<HostState>, k: int): seq<HostState> {
    if |s| == 0 then []
    else if k > 0 && IsEmpty(s[0]) then [s[0]] + Dropped(s[1..], k - 1)
    else Dropped(s[1..], k)
  }

  /** The last element of a sequence, if any. */
  function LastOf(d: seq<HostState>): Option<HostState> {
    if |d| == 0 then None else Some(d[|d| - 1])
  }

  /** The reference reading of the whole selection: the passing hosts
      without their first `k` empty ones or, if that leaves nothing, the
      last empty host held back. */
  function KeepSpares(p: seq<HostState>, k: int): seq<HostState> {
    var d := DropEmpties(p, k);
    var w := LastOf(Dropped(p, k));
    if |d| == 0 && w.Some? then [w.value] else d
  }

  /** The host kept in reserve for the fallback is the last one withheld. */
  lemma {:induction false} WithheldIsLastDropped(conf: Conf, it: InstanceType, hosts: seq<HostState>, spares: int)
    ensures ScanHosts(conf, it, hosts, spares).withheld == LastOf(Dropped(Passing(conf, it, hosts), spares))
  {
    if |hosts| > 0 {
      var h := hosts[0];
      PassingStep(conf, it, hosts);
      ScanStep(conf, it, hosts, spares);
      if HostPasses(conf, h, it) {
        var p := Passing(conf, it, hosts[1..]);
        DroppedStep(h, p, spares);
        if spares > 0 && IsEmpty(h) {
          WithheldIsLastDropped(conf, it, hosts[1..], spares - 1);
          WithholdEmpty(h, ScanHosts(conf, it, hosts[1..], spares - 1).withheld, Dropped(p, spares - 1));
        } else {
          WithheldIsLastDropped(conf, it, hosts[1..], spares);
        }
      } else {
        WithheldIsLastDropped(conf, it, hosts[1..], spares);
      }
    } else {
      assert Passing(conf, it, hosts) == [];
    }
  }

  /** Withholding `h` in front of a scan that withheld the last of `d`
      withholds the last of `[h] + d`. */
  lemma WithholdEmpty(h: HostState, rest: Option<HostState>, d: seq<HostState>)
    requires rest == LastOf(d)
    ensures (if rest.Some? then rest else Some(h)) == LastOf([h] + d)
  {
    LastOfCons(h, d);
  }

  lemma LastOfCons(h: HostState, d: seq<HostState>)
    ensures LastOf([h] + d) == if |d| == 0 then Some(h) else LastOf(d)
  {
  }

  /** Exactly `min(k, empties)` hosts are dropped, all of them empty. */
  lemma {:induction false} DropEmptiesCounts(s: seq<HostState>, k: int)
    requires k >= 0
    ensures |DropEmpties(s, k)| == |s| - Min(k, Empties(s))
    ensures Empties(DropEmpties(s, k)) == Empties(s) - Min(k, Empties(s))
  {
    if |s| > 0 {
      if k > 0 && IsEmpty(s[0]) {
        DropEmptiesCounts(s[1..], k - 1);
      } else {
        DropEmptiesCounts(s[1..], k);
        assert ([s[0]] + DropEmpties(s[1..], k))[1..] == DropEmpties(s[1..], k);
      }
    }
  }

  /** With no spares wanted, nothing is dropped. */
  lemma {:induction false} DropNoEmpties(s: seq<HostState>, k: int)
    requires k <= 0
    ensures DropEmpties(s, k) == s
  {
    if |s| > 0 {
      DropNoEmpties(s[1..], k);
      assert s == [s[0]] + s[1..];
    }
  }

  /** Without a target hint the filter returns nothing exactly when no host
      passes the hard rules. */
  lemma NothingOnlyWhenNothingPasses(conf: Conf, it: InstanceType, hosts: seq<HostState>, spares: int)
    requires spares >= 0
    ensures SelectHosts(conf, it, hosts, spares) == [] <==> Passing(conf, it, hosts) == []
  {
    ScanIsDropEmpties(conf, it, hosts, spares);
    var p := Passing(conf, it, hosts);
    DropEmptiesCounts(p, spares);
  }

  /** Without a target hint, the filter returns every passing host except
      the first `spares` empty ones; if that leaves nothing while a host was
      withheld, one withheld host comes back. */
  lemma SelectHostsCount(conf: Conf, it: InstanceType, hosts: seq<HostState>, spares: int)
    requires spares >= 0
    ensures var p := Passing(conf, it, hosts);
            var n := |p| - Min(spares, Empties(p));
            |SelectHosts(conf, it, hosts, spares)| == if n == 0 && |p| > 0 then 1 else n
  {
    ScanIsDropEmpties(conf, it, hosts, spares);
    DropEmptiesCounts(Passing(conf, it, hosts), spares);
  }

  /** With spares disabled the filter returns exactly the passing hosts. */
  lemma NoSparesReturnsAllPassing(conf: Conf, it: InstanceType, hosts: seq<HostState>, hints: map<string, string>, totalHosts: int)
    requires conf.spareHostPercentage == 0 && TargetHint(hints) == ""
    ensures FilterAll(conf, it, hosts, hints, totalHosts) == Passing(conf, it, hosts)
  {
    ScanIsDropEmpties(conf, it, hosts, 0);
    DropNoEmpties(Passing(conf, it, hosts), 0);
  }

  /** A targeted host is returned even when it fails every hard rule. */
  lemma TargetOverridesRules(conf: Conf, it: InstanceType, hosts: seq<HostState>, hints: map<string, string>, totalHosts: int, h: HostState)
    requires TargetHint(hints) != "" && h in hosts && h.host in Strings.Split(TargetHint(hints), ',')
    ensures h in FilterAll(conf, it, hosts, hints, totalHosts)
  {
    var r := FilterAll(conf, it, hosts, hints, totalHosts);
    assert multiset(hosts)[h] > 0;
    assert multiset(r)[h] > 0;
  }
}

/** The Rackspace filter's unit tests, restated. */
module RackspaceFilterExamples {
  import opened Wrappers
  import opened RackspaceFilter

  /** The overhead estimates the tests expect. */
  lemma OverheadExamples()
    ensures Overhead(1024, 1) == 13
    ensures Overhead(30 * 1024, 1) == 245
    ensures Overhead(1024, 2) == 14
  {
  }

  /** The memory estimates, with and without `vcpus` in the flavor. */
  lemma UsedMemoryExamples()
    ensures UsedMemoryMb(InstanceType(1024, None)) == 1037
    ensures UsedMemoryMb(InstanceType(1024, Some(2))) == 1038
  {
    OverheadExamples();
  }

  /** A 1G flavor needs its overhead plus the 1G reserve. */
  lemma RamCheckExamples()
    ensures !RamCheck(DefaultConf, HostState("host1", 0, 0, 1024), InstanceType(1024, None))
    ensures RamCheck(DefaultConf, HostState("host1", 0, 0, 1024 + 1024 + 13), InstanceType(1024, None))
    ensures RamCheck(DefaultConf, HostState("host1", 0, 0, 30 * 1024 + 245), InstanceType(30 * 1024, None))
  {
    UsedMemoryExamples();
    OverheadExamples();
  }

  /** The IO-ops and instance-count limits under the tests' settings. */
  lemma LimitExamples()
    ensures var conf := DefaultConf.(maxIosPerHost := 10, maxInstancesPerHost := 50);
            HostPasses(conf, HostState("host1", 6, 49, 0), InstanceType(1024, None))
            && !HostPasses(conf, HostState("host1", 11, 0, 0), InstanceType(1024, None))
            && !HostPasses(conf, HostState("host1", 0, 51, 0), InstanceType(1024, None))
  {
  }

  /** Fifty empty hosts that all pass, at 10%: five are held back. */
  lemma AllHostsEmptyExample(conf: Conf, it: InstanceType, hosts: seq<HostState>)
    requires conf.spareHostPercentage == 10 && |hosts| == 50
    requires forall i :: 0 <= i < |hosts| ==> HostPasses(conf, hosts[i], it) && IsEmpty(hosts[i])
    ensures |FilterAll(conf, it, hosts, map[], 50)| == 45
  {
    Seqs.FilterAllAccepted(hosts, (h: HostState) => HostPasses(conf, h, it));
    AllEmpty(hosts);
    SelectHostsCount(conf, it, hosts, 5);
  }

  lemma {:induction false} AllEmpty(hosts: seq<HostState>)
    requires forall i :: 0 <= i < |hosts| ==> IsEmpty(hosts[i])
    ensures Empties(hosts) == |hosts|
  {
    if |hosts| > 0 {
      AllEmpty(hosts[1..]);
    }
  }

  /** 25 empty hosts among 50, at 10%: five empty hosts are held back and
      the other 20 are returned. */
  lemma MoreEmptiesThanSparesExample(conf: Conf, it: InstanceType, hosts: seq<HostState>)
    requires conf.spareHostPercentage == 10 && |hosts| == 50 && Empties(hosts) == 25
    requires forall i :: 0 <= i < |hosts| ==> HostPasses(conf, hosts[i], it)
    ensures |FilterAll(conf, it, hosts, map[], 50)| == 45
    ensures Empties(FilterAll(conf, it, hosts, map[], 50)) == 20
  {
    Seqs.FilterAllAccepted(hosts, (h: HostState) => HostPasses(conf, h, it));
    ScanIsDropEmpties(conf, it, hosts, 5);
    DropEmptiesCounts(hosts, 5);
  }

  /** Two empty hosts among 50, at 10%: both are held back. */
  lemma FewerEmptiesThanSparesExample(conf: Conf, it: InstanceType, hosts: seq<HostState>)
    requires conf.spareHostPercentage == 10 && |hosts| == 50 && Empties(hosts) == 2
    requires forall i :: 0 <= i < |hosts| ==> HostPasses(conf, hosts[i], it)
    ensures |FilterAll(conf, it, hosts, map[], 50)| == 48
    ensures Empties(FilterAll(conf, it, hosts, map[], 50)) == 0
  {
    Seqs.FilterAllAccepted(hosts, (h: HostState) => HostPasses(conf, h, it));
    ScanIsDropEmpties(conf, it, hosts, 5);
    DropEmptiesCounts(hosts, 5);
  }
}
