/** Which CPUs share an SME unit: decoding identification registers, grouping CPUs into domains, and deciding which
    CPUs may run SME code. */
module SmcuTopology {
  import opened Basics
  import HybridDispatch

  /** A CPU number with its MIDR_EL1 and SMIDR_EL1 values. */
  datatype CpuInfo = CpuInfo(id: nat, midr: nat, smidr: nat)

  /** A group of CPUs that share SME units, or one CPU that does not share. */
  datatype DomainInfo = DomainInfo(affinity: nat, slotCount: nat, shared: bool)

  // --- Register fields --------------------------------------------------------------------------

  const ARM_IMPLEMENTER: nat := 0x41
  const C1_NANO_PART: nat := 0xD8A
  const C1_PRO_PART: nat := 0xD8B
  const C1_PREMIUM_PART: nat := 0xD90

  function Implementer(midr: nat): nat { (midr / 0x100_0000) % 0x100 }

  function Part(midr: nat): nat { (midr / 0x10) % 0x1000 }

  // Affinity2 in front of Affinity.
  function Affinity(smidr: nat): nat {
    ((smidr / 0x1_0000_0000) % 0x10_0000) * 0x1000 + smidr % 0x1000
  }

  datatype Sharing = Unshared | Shared | Reserved

  function SharingOf(smidr: nat): Sharing {
    var sharing := (smidr / 0x2000) % 4;
    if sharing == 3 then Shared
    else if sharing == 2 then Unshared
    else if sharing == 0 then (if smidr % 0x1000 == 0 then Unshared else Shared)
    else Reserved
  }

  function SmcuCount(smidr: nat): Option<nat> {
    var encoded := (smidr / 0x100_0000_0000_0000) % 16;
    if encoded == 15 then None else Some(encoded + 1)
  }

  // --- What grouping means ----------------------------------------------------------------------

  predicate IsUsable(info: CpuInfo) {
    SharingOf(info.smidr) != Reserved && SmcuCount(info.smidr).Some?
  }

  predicate IsShared(info: CpuInfo) {
    SharingOf(info.smidr) == Shared
  }

  // Two CPUs with the same SME units.
  predicate ShareUnits(a: CpuInfo, b: CpuInfo) {
    IsShared(a) && IsShared(b) && Affinity(a.smidr) == Affinity(b.smidr)
  }

  function DomainOf(info: CpuInfo): DomainInfo
    requires IsUsable(info)
  {
    DomainInfo(Affinity(info.smidr), if IsShared(info) then SmcuCount(info.smidr).value else 1, IsShared(info))
  }

  // The registers contradict the format or each other.
  ghost predicate IsInconsistent(infos: seq<CpuInfo>) {
    || (exists i :: 0 <= i < |infos| && !IsUsable(infos[i]))
    || (exists i, j :: 0 <= i < j < |infos| && IsMismatch(infos[i], infos[j]))
  }

  predicate IsMismatch(a: CpuInfo, b: CpuInfo) {
    ShareUnits(a, b) && SmcuCount(a.smidr) != SmcuCount(b.smidr)
  }

  // homes[i] is the domain of the i-th CPU: CPUs are together exactly if they share units, every domain has a CPU,
  // and the domain describes each of its CPUs.
  ghost predicate IsGrouping(infos: seq<CpuInfo>, domains: seq<DomainInfo>, homes: seq<nat>) {
    && |homes| == |infos|
    && (forall i :: 0 <= i < |infos| ==> IsUsable(infos[i]))
    && (forall i :: 0 <= i < |infos| ==> homes[i] < |domains| && domains[homes[i]] == DomainOf(infos[i]))
    && (forall i, j :: 0 <= i < j < |infos| ==> (homes[i] == homes[j] <==> ShareUnits(infos[i], infos[j])))
    && (forall d :: 0 <= d < |domains| ==> HasMember(homes, d))
  }

  ghost predicate HasMember(homes: seq<nat>, d: nat) {
    exists i :: 0 <= i < |homes| && homes[i] == d
  }

  // Later entries for the same CPU replace earlier ones.
  predicate IsLastEntry(infos: seq<CpuInfo>, i: nat) {
    i < |infos| && forall j :: i < j < |infos| ==> infos[j].id != infos[i].id
  }

  // The table maps every listed CPU to the domain of its last entry, and leaves the others as they were.
  ghost predicate IsTableOf(infos: seq<CpuInfo>, homes: seq<nat>, before: seq<nat>, table: seq<nat>) {
    && |table| == |before| && |homes| == |infos|
    && (forall i :: 0 <= i < |infos| && IsLastEntry(infos, i) ==>
          infos[i].id < |table| && table[infos[i].id] == homes[i])
    && (forall cpu :: 0 <= cpu < |table| && !IsListed(infos, cpu) ==> table[cpu] == before[cpu])
  }

  ghost predicate IsListed(infos: seq<CpuInfo>, cpu: nat) {
    exists i :: 0 <= i < |infos| && infos[i].id == cpu
  }

  // --- populate_domains -------------------------------------------------------------------------

  method FindSharedDomain(domains: array<DomainInfo>, domainCount: nat, affinity: nat) returns (found: Option<nat>)
    requires domainCount <= domains.Length
    ensures found.Some? ==>
              found.value < domainCount && domains[found.value].shared && domains[found.value].affinity == affinity
    ensures found.None? ==> forall d :: 0 <= d < domainCount ==> !(domains[d].shared && domains[d].affinity == affinity)
  {
    for i := 0 to domainCount
      invariant forall d :: 0 <= d < i ==> !(domains[d].shared && domains[d].affinity == affinity)
    {
      if domains[i].shared && domains[i].affinity == affinity {
        return Some(i);
      }
    }
    return None;
  }

  // One more CPU joins an existing domain or opens a new one.
  lemma JoinOrOpen(infos: seq<CpuInfo>, domains: seq<DomainInfo>, homes: seq<nat>, info: CpuInfo,
                   found: Option<nat>, domains': seq<DomainInfo>, d: nat)
    requires IsGrouping(infos, domains, homes) && IsUsable(info)
    requires if found.Some? then d == found.value < |domains| && domains' == domains && domains[d] == DomainOf(info)
               && IsShared(info)
             else d == |domains| && domains' == domains + [DomainOf(info)]
                  && (IsShared(info) ==> forall e :: 0 <= e < |domains| ==>
                        !(domains[e].shared && domains[e].affinity == Affinity(info.smidr)))
    ensures IsGrouping(infos + [info], domains', homes + [d])
  {
    hide IsUsable, Affinity, SharingOf, SmcuCount;
    var infos', homes' := infos + [info], homes + [d];
    if found.Some? {
      assert HasMember(homes, d);
    }
    forall i | 0 <= i < |infos| ensures homes'[i] == d <==> ShareUnits(infos[i], info) {
      if found.Some? && ShareUnits(infos[i], info) {
        var j :| 0 <= j < |homes| && homes[j] == d;
        assert domains[homes[j]] == DomainOf(infos[j]);
      }
    }
    forall e | 0 <= e < |domains'| ensures HasMember(homes', e) {
      if e == d {
        assert homes'[|homes|] == d;
      } else {
        assert HasMember(homes, e);
        var i :| 0 <= i < |homes| && homes[i] == e;
        assert homes'[i] == e;
      }
    }
  }

  // A CPU that finds its domain with another number of slots contradicts an earlier CPU.
  lemma MismatchFound(infos: seq<CpuInfo>, n: nat, domains: seq<DomainInfo>, homes: seq<nat>, d: nat)
    requires n < |infos| && IsGrouping(infos[..n], domains, homes) && IsUsable(infos[n]) && IsShared(infos[n])
    requires d < |domains| && domains[d].shared && domains[d].affinity == Affinity(infos[n].smidr)
    requires domains[d].slotCount != DomainOf(infos[n]).slotCount
    ensures IsInconsistent(infos)
  {
    assert HasMember(homes, d);
    var i :| 0 <= i < |homes| && homes[i] == d;
    assert domains[homes[i]] == DomainOf(infos[..n][i]);
    assert IsMismatch(infos[i], infos[n]);
  }

  lemma GroupedIsConsistent(infos: seq<CpuInfo>, domains: seq<DomainInfo>, homes: seq<nat>)
    requires IsGrouping(infos, domains, homes)
    ensures !IsInconsistent(infos)
  {
    forall i, j | 0 <= i < j < |infos| ensures !IsMismatch(infos[i], infos[j]) {
      assert domains[homes[i]] == DomainOf(infos[i]) && domains[homes[j]] == DomainOf(infos[j]);
    }
  }

  lemma TableStep(infos: seq<CpuInfo>, n: nat, homes: seq<nat>, before: seq<nat>, table: seq<nat>, d: nat)
    requires n < |infos| && infos[n].id < |table| && IsTableOf(infos[..n], homes, before, table)
    ensures IsTableOf(infos[..n + 1], homes + [d], before, table[infos[n].id := d])
  {
    var infos', homes', table' := infos[..n + 1], homes + [d], table[infos[n].id := d];
    forall i | 0 <= i < |infos'| && IsLastEntry(infos', i)
      ensures infos'[i].id < |table'| && table'[infos'[i].id] == homes'[i]
    {
      if i < n {
        assert infos'[n].id != infos'[i].id;
        assert forall j :: i < j < n ==> infos'[j] == infos[..n][j];
        assert IsLastEntry(infos[..n], i);
      }
    }
    forall cpu | 0 <= cpu < |table'| && !IsListed(infos', cpu) ensures table'[cpu] == before[cpu] {
      assert infos'[n].id != cpu;
      assert forall i :: 0 <= i < n ==> infos[..n][i] == infos'[i];
    }
  }

  // Some CPUs have the same SME units, so there are fewer domains than CPUs.
  ghost predicate SomeShareUnits(infos: seq<CpuInfo>) {
    exists i, j :: 0 <= i < j < |infos| && ShareUnits(infos[i], infos[j])
  }

  // There are as many domains as CPUs until CPUs share units.
  lemma SharingStep(infos: seq<CpuInfo>, domains: seq<DomainInfo>, homes: seq<nat>, info: CpuInfo, d: nat)
    requires IsGrouping(infos, domains, homes) && d <= |domains|
    requires forall i :: 0 <= i < |infos| ==> (homes[i] == d <==> ShareUnits(infos[i], info))
    ensures SomeShareUnits(infos + [info]) <==> SomeShareUnits(infos) || d < |domains|
  {
    hide IsUsable, ShareUnits, DomainOf;
    var infos' := infos + [info];
    if SomeShareUnits(infos) {
      var i, j :| 0 <= i < j < |infos| && ShareUnits(infos[i], infos[j]);
      assert ShareUnits(infos'[i], infos'[j]);
    }
    if d < |domains| {
      assert HasMember(homes, d);
      var i :| 0 <= i < |homes| && homes[i] == d;
      assert ShareUnits(infos'[i], infos'[|infos|]);
    }
    if SomeShareUnits(infos') {
      var i, j :| 0 <= i < j < |infos'| && ShareUnits(infos'[i], infos'[j]);
      if j < |infos| {
        assert ShareUnits(infos[i], infos[j]);
      } else {
        assert homes[i] == d;
      }
    }
  }

  // populate_domains fails exactly for inconsistent registers or lack of memory, which it needs a second time only if
  // CPUs share units; otherwise it groups the CPUs. homes is known to the proof only.
  method PopulateDomains(infos: seq<CpuInfo>, cpuToDomain: array<nat>, memoryForDomains: bool, memoryToCompact: bool)
    returns (result: Option<seq<DomainInfo>>, ghost homes: seq<nat>)
    requires forall i :: 0 <= i < |infos| ==> infos[i].id < cpuToDomain.Length
    modifies cpuToDomain
    ensures result.None?
       <==> IsInconsistent(infos) || !memoryForDomains || (SomeShareUnits(infos) && !memoryToCompact)
    ensures result.Some? ==> IsGrouping(infos, result.value, homes) && |result.value| <= |infos|
    ensures result.Some? ==> IsTableOf(infos, homes, old(cpuToDomain[..]), cpuToDomain[..])
  {
    hide IsGrouping, IsTableOf, Affinity, SharingOf, SmcuCount, IsInconsistent, SomeShareUnits;
    homes := [];
    if !memoryForDomains {
      return None, [];
    }
    var domains := new DomainInfo[|infos|](_ => DomainInfo(0, 0, false));
    var domainCount := 0;
    ghost var before := cpuToDomain[..];
    NoCpus(infos, before, domains[..0]);
    for n := 0 to |infos|
      invariant 0 <= domainCount <= n && domainCount <= domains.Length
      invariant IsGrouping(infos[..n], domains[..domainCount], homes)
      invariant IsTableOf(infos[..n], homes, before, cpuToDomain[..])
      invariant domainCount == n <==> !SomeShareUnits(infos[..n])
    {
      var info := infos[n];
      if SharingOf(info.smidr) == Reserved || SmcuCount(info.smidr).None? {
        UnusableFound(infos, n);
        return None, homes;
      }
      var domain := DomainOf(info);
      var found := None;
      if domain.shared {
        found := FindSharedDomain(domains, domainCount, domain.affinity);
      }
      var d;
      ghost var was := domains[..domainCount];
      if found.None? {
        d := domainCount;
        domains[domainCount] := domain;
        domainCount := domainCount + 1;
        assert domains[..domainCount] == was + [domain];
      } else {
        d := found.value;
        if domains[d].slotCount != domain.slotCount {
          MismatchFound(infos, n, was, homes, d);
          return None, homes;
        }
      }
      JoinOrOpen(infos[..n], was, homes, info, found, domains[..domainCount], d);
      HomesOfNext(infos[..n], domains[..domainCount], homes, info, d);
      SharingStep(infos[..n], was, homes, info, d);
      TableStep(infos, n, homes, before, cpuToDomain[..], d);
      assert infos[..n + 1] == infos[..n] + [info];
      cpuToDomain[info.id] := d;
      homes := homes + [d];
    }
    assert infos[..|infos|] == infos;
    GroupedIsConsistent(infos, domains[..domainCount], homes);
    if domainCount == domains.Length {
      return Some(domains[..domainCount]), homes;
    }
    if !memoryToCompact {
      return None, homes;
    }
    var compact := Compact(domains, domainCount);
    result := Some(compact[..]);
  }

  // The domains in an array of their own.
  method Compact(domains: array<DomainInfo>, domainCount: nat) returns (compact: array<DomainInfo>)
    requires domainCount <= domains.Length
    ensures fresh(compact) && compact[..] == domains[..domainCount]
  {
    compact := new DomainInfo[domainCount](_ => DomainInfo(0, 0, false));
    for i := 0 to domainCount
      invariant compact[..i] == domains[..i]
    {
      compact[i] := domains[i];
      assert compact[..i + 1] == compact[..i] + [domains[i]];
    }
    assert compact[..domainCount] == compact[..];
  }

  // In a grouping, the CPUs that share units with the last one are those in its domain.
  lemma HomesOfNext(infos: seq<CpuInfo>, domains: seq<DomainInfo>, homes: seq<nat>, info: CpuInfo, d: nat)
    requires IsGrouping(infos + [info], domains, homes + [d])
    ensures forall i :: 0 <= i < |infos| ==> (homes[i] == d <==> ShareUnits(infos[i], info))
  {
    hide IsUsable, ShareUnits, DomainOf;
    var infos', homes' := infos + [info], homes + [d];
    forall i | 0 <= i < |infos| ensures homes[i] == d <==> ShareUnits(infos[i], info) {
      assert homes'[i] == homes'[|infos|] <==> ShareUnits(infos'[i], infos'[|infos|]);
    }
  }

  lemma NoCpus(infos: seq<CpuInfo>, before: seq<nat>, domains: seq<DomainInfo>)
    requires domains == []
    ensures IsGrouping(infos[..0], domains, []) && IsTableOf(infos[..0], [], before, before)
    ensures !SomeShareUnits(infos[..0])
  {
  }

  lemma UnusableFound(infos: seq<CpuInfo>, n: nat)
    requires n < |infos| && !IsUsable(infos[n])
    ensures IsInconsistent(infos)
  {
  }

  // --- from_registers ---------------------------------------------------------------------------

  /** The finished topology; CPU numbers without an entry are offline or absent. */
  datatype SmcuTopology = SmcuTopology(cpuToDomain: seq<nat>, cpuAllowed: seq<bool>, domains: seq<DomainInfo>) {

    // What the limiter is constructed from.
    function ForLimiter(): HybridDispatch.Topology {
      HybridDispatch.Topology(cpuToDomain, cpuAllowed,
                              seq(|domains|, d requires 0 <= d < |domains| => domains[d].slotCount))
    }
  }

  // Arm cores that profit from SME.
  predicate IsArmCoreAllowed(info: CpuInfo) {
    Part(info.midr) in {C1_NANO_PART, C1_PRO_PART, C1_PREMIUM_PART}
  }

  // The registers cannot be used at all.
  ghost predicate IsRejected(infos: seq<CpuInfo>) {
    || infos == []
    || (exists i :: 0 <= i < |infos| && infos[i].id == SIZE_MAX)
    || (exists i :: 0 <= i < |infos| && Implementer(infos[i].midr) != Implementer(infos[0].midr))
    || IsInconsistent(infos)
  }

  method LargestId(infos: seq<CpuInfo>) returns (largest: nat)
    requires infos != [] && forall i :: 0 <= i < |infos| ==> infos[i].id <= SIZE_MAX
    ensures forall i :: 0 <= i < |infos| ==> infos[i].id <= largest
    ensures exists i :: 0 <= i < |infos| && infos[i].id == largest
  {
    largest := 0;
    for n := 0 to |infos|
      invariant forall i :: 0 <= i < n ==> infos[i].id <= largest
      invariant (n == 0 && largest == 0) || exists i :: 0 <= i < n && infos[i].id == largest
    {
      largest := Max(largest, infos[n].id);
    }
  }

  // apply_cpu_policy_for_arm_cores: the last entry of a CPU decides.
  method ApplyArmPolicy(infos: seq<CpuInfo>, cpuAllowed: array<bool>)
    requires forall i :: 0 <= i < |infos| ==> infos[i].id < cpuAllowed.Length
    modifies cpuAllowed
    ensures forall i :: 0 <= i < |infos| && IsLastEntry(infos, i) ==>
              cpuAllowed[infos[i].id] == IsArmCoreAllowed(infos[i])
    ensures forall cpu :: 0 <= cpu < cpuAllowed.Length && !IsListed(infos, cpu) ==>
              cpuAllowed[cpu] == old(cpuAllowed[cpu])
  {
    hide IsArmCoreAllowed;
    for n := 0 to |infos|
      invariant forall i :: 0 <= i < n && (forall j :: i < j < n ==> infos[j].id != infos[i].id) ==>
                  cpuAllowed[infos[i].id] == IsArmCoreAllowed(infos[i])
      invariant forall cpu :: 0 <= cpu < cpuAllowed.Length && (forall i :: 0 <= i < n ==> infos[i].id != cpu) ==>
                  cpuAllowed[cpu] == old(cpuAllowed[cpu])
    {
      cpuAllowed[infos[n].id] := IsArmCoreAllowed(infos[n]);
    }
  }

  // enable_cores_for_shared_zero_affinity_domain
  method EnableZeroAffinityDomain(domains: seq<DomainInfo>, cpuToDomain: array<nat>, cpuAllowed: array<bool>)
    requires cpuToDomain.Length == cpuAllowed.Length
    modifies cpuAllowed
    ensures forall cpu :: 0 <= cpu < cpuAllowed.Length ==>
              cpuAllowed[cpu] == (old(cpuAllowed[cpu]) || IsInFirstZeroAffinityDomain(domains, cpuToDomain[cpu]))
  {
    var d := 0;
    while d < |domains| && !(domains[d].shared && domains[d].affinity == 0)
      invariant 0 <= d <= |domains|
      invariant forall e :: 0 <= e < d ==> !(domains[e].shared && domains[e].affinity == 0)
    {
      d := d + 1;
    }
    if d == |domains| {
      return;
    }
    for cpu := 0 to cpuAllowed.Length
      invariant forall c :: 0 <= c < cpuAllowed.Length ==>
                  cpuAllowed[c] == (old(cpuAllowed[c]) || (c < cpu && cpuToDomain[c] == d))
    {
      if cpuToDomain[cpu] == d {
        cpuAllowed[cpu] := true;
      }
    }
  }

  predicate IsInFirstZeroAffinityDomain(domains: seq<DomainInfo>, d: nat) {
    && d < |domains| && domains[d].shared && domains[d].affinity == 0
    && forall e :: 0 <= e < d ==> !(domains[e].shared && domains[e].affinity == 0)
  }

  predicate HasSharedNonzeroAffinity(domains: seq<DomainInfo>) {
    exists d :: 0 <= d < |domains| && domains[d].shared && domains[d].affinity != 0
  }

  // The topology that the registers describe.
  ghost predicate IsTopologyOf(infos: seq<CpuInfo>, top: SmcuTopology, homes: seq<nat>) {
    && infos != [] && |top.cpuToDomain| == |top.cpuAllowed| && |top.domains| <= |infos|
    && IsGrouping(infos, top.domains, homes)
    && IsTableOf(infos, homes, seq(|top.cpuToDomain|, _ => HybridDispatch.NO_DOMAIN), top.cpuToDomain)
    && IsPolicy(infos, top.domains, top.cpuToDomain, top.cpuAllowed)
  }

  // On Arm cores the part number decides; elsewhere the shared domain with affinity zero is allowed, provided that
  // there is a shared domain with another affinity.
  ghost predicate IsPolicy(infos: seq<CpuInfo>, domains: seq<DomainInfo>, cpuToDomain: seq<nat>, cpuAllowed: seq<bool>)
    requires infos != [] && |cpuToDomain| == |cpuAllowed|
  {
    forall cpu :: 0 <= cpu < |cpuAllowed| ==>
      (cpuAllowed[cpu] <==>
         if Implementer(infos[0].midr) == ARM_IMPLEMENTER
         then exists i :: 0 <= i < |infos| && infos[i].id == cpu && IsLastEntry(infos, i) && IsArmCoreAllowed(infos[i])
         else HasSharedNonzeroAffinity(domains) && IsInFirstZeroAffinityDomain(domains, cpuToDomain[cpu]))
  }

  method ApplyPolicy(infos: seq<CpuInfo>, domains: seq<DomainInfo>, cpuToDomain: array<nat>, cpuAllowed: array<bool>)
    requires infos != [] && cpuToDomain.Length == cpuAllowed.Length
    requires forall i :: 0 <= i < |infos| ==> infos[i].id < cpuAllowed.Length
    requires forall cpu :: 0 <= cpu < cpuAllowed.Length ==> !cpuAllowed[cpu]
    modifies cpuAllowed
    ensures IsPolicy(infos, domains, cpuToDomain[..], cpuAllowed[..])
  {
    hide IsListed, IsArmCoreAllowed, IsInFirstZeroAffinityDomain, HasSharedNonzeroAffinity, Implementer;
    if Implementer(infos[0].midr) == ARM_IMPLEMENTER {
      ApplyArmPolicy(infos, cpuAllowed);
      ArmPolicyIsLastEntry(infos, cpuAllowed[..]);
    } else if HasSharedNonzeroAffinity(domains) {
      EnableZeroAffinityDomain(domains, cpuToDomain, cpuAllowed);
    }
  }

  // from_registers; what is known of memory tells which arrays can be allocated.
  method FromRegisters(infos: seq<CpuInfo>, memoryForTables: bool, memoryForDomains: bool, memoryToCompact: bool)
    returns (top: Option<SmcuTopology>, ghost homes: seq<nat>)
    requires forall i :: 0 <= i < |infos| ==> infos[i].id <= SIZE_MAX
    ensures top.None?
       <==> IsRejected(infos) || !memoryForTables || !memoryForDomains || (SomeShareUnits(infos) && !memoryToCompact)
    ensures top.Some? ==> IsTopologyOf(infos, top.value, homes)
  {
    homes := [];
    if infos == [] {
      return None, [];
    }
    var largest := LargestId(infos);
    if largest == SIZE_MAX {
      return None, [];
    }
    var cpuCount := largest + 1;
    var implementer := Implementer(infos[0].midr);
    for n := 0 to |infos|
      invariant forall i :: 0 <= i < n ==> Implementer(infos[i].midr) == implementer
    {
      if Implementer(infos[n].midr) != implementer {
        return None, [];
      }
    }
    if !memoryForTables {
      return None, [];
    }
    hide IsGrouping, IsTableOf, IsInconsistent, Implementer, IsPolicy;
    var cpuToDomain := new nat[cpuCount](_ => HybridDispatch.NO_DOMAIN);
    var cpuAllowed := new bool[cpuCount](_ => false);
    assert cpuToDomain[..] == seq(cpuCount, _ => HybridDispatch.NO_DOMAIN);
    var domains: Option<seq<DomainInfo>>;
    domains, homes := PopulateDomains(infos, cpuToDomain, memoryForDomains, memoryToCompact);
    if domains.None? {
      return None, homes;
    }
    ApplyPolicy(infos, domains.value, cpuToDomain, cpuAllowed);
    top := Some(SmcuTopology(cpuToDomain[..], cpuAllowed[..], domains.value));
  }

  lemma ArmPolicyIsLastEntry(infos: seq<CpuInfo>, cpuAllowed: seq<bool>)
    requires forall i :: 0 <= i < |infos| ==> infos[i].id < |cpuAllowed|
    requires forall i :: 0 <= i < |infos| && IsLastEntry(infos, i) ==>
               cpuAllowed[infos[i].id] == IsArmCoreAllowed(infos[i])
    requires forall cpu :: 0 <= cpu < |cpuAllowed| && !IsListed(infos, cpu) ==> !cpuAllowed[cpu]
    ensures forall cpu :: 0 <= cpu < |cpuAllowed| ==>
              (cpuAllowed[cpu] <==>
                 exists i :: 0 <= i < |infos| && infos[i].id == cpu && IsLastEntry(infos, i)
                     && IsArmCoreAllowed(infos[i]))
  {
    hide IsArmCoreAllowed;
    forall cpu | 0 <= cpu < |cpuAllowed| && IsListed(infos, cpu)
      ensures exists i :: 0 <= i < |infos| && infos[i].id == cpu && IsLastEntry(infos, i)
    {
      var i := LastEntry(infos, cpu);
    }
  }

  lemma {:induction false} LastEntry(infos: seq<CpuInfo>, cpu: nat) returns (i: nat)
    requires IsListed(infos, cpu)
    ensures i < |infos| && infos[i].id == cpu && IsLastEntry(infos, i)
  {
    var n := |infos| - 1;
    if infos[n].id == cpu {
      i := n;
    } else {
      var k :| 0 <= k < |infos| && infos[k].id == cpu;
      assert infos[..n][k].id == cpu;
      i := LastEntry(infos[..n], cpu);
      assert forall j :: i < j < n ==> infos[j] == infos[..n][j];
    }
  }

  // --- What the topology promises the limiter ---------------------------------------------------

  lemma SlotCountsArePositive(info: CpuInfo)
    requires IsUsable(info)
    ensures 1 <= DomainOf(info).slotCount <= 15
  {
  }

  // An allowed CPU always has a valid domain with at least one slot, and only an allowed CPU attempts to take a slot;
  // no counter overflows.
  lemma AllowedCpuHasSlots(infos: seq<CpuInfo>, top: SmcuTopology, homes: seq<nat>,
                           cpu: int, available: seq<nat>, begin: nat)
    requires IsTopologyOf(infos, top, homes) && |available| == |top.domains|
    ensures top.ForLimiter().Valid()
    ensures 0 <= cpu < |top.cpuAllowed| && top.cpuAllowed[cpu] ==>
              cpu < |top.cpuToDomain| && top.cpuToDomain[cpu] < |top.domains|
              && 1 <= top.domains[top.cpuToDomain[cpu]].slotCount < 0x1_0000_0000
    ensures HybridDispatch.StartPc(top.ForLimiter(), available, cpu, begin)
         == if 0 <= cpu < |top.cpuAllowed| && top.cpuAllowed[cpu]
            then HybridDispatch.Attempting(top.cpuToDomain[cpu], available[top.cpuToDomain[cpu]])
            else HybridDispatch.RunningCpu(begin)
  {
    hide IsUsable, Affinity, SharingOf, SmcuCount, IsArmCoreAllowed, Implementer, DomainOf;
    forall d | 0 <= d < |top.domains| ensures 1 <= top.domains[d].slotCount <= 15 {
      assert HasMember(homes, d);
      var i :| 0 <= i < |homes| && homes[i] == d;
      SlotCountsArePositive(infos[i]);
    }
  }

  // Two CPUs have the same domain exactly if they share units, by the last entry of each.
  lemma SameDomain(infos: seq<CpuInfo>, top: SmcuTopology, homes: seq<nat>, i: nat, j: nat)
    requires IsTopologyOf(infos, top, homes) && i < j && IsLastEntry(infos, i) && IsLastEntry(infos, j)
    ensures infos[i].id < |top.cpuToDomain| && infos[j].id < |top.cpuToDomain|
    ensures top.cpuToDomain[infos[i].id] == top.cpuToDomain[infos[j].id] <==> ShareUnits(infos[i], infos[j])
  {
    hide IsUsable, ShareUnits, IsArmCoreAllowed, Implementer, DomainOf;
  }

  // Which CPUs are allowed, in terms of the registers alone.
  lemma AllowedCpus(infos: seq<CpuInfo>, top: SmcuTopology, homes: seq<nat>, i: nat)
    requires IsTopologyOf(infos, top, homes) && IsLastEntry(infos, i)
    ensures infos[i].id < |top.cpuAllowed|
    ensures top.cpuAllowed[infos[i].id] <==>
              if Implementer(infos[0].midr) == ARM_IMPLEMENTER then IsArmCoreAllowed(infos[i])
              else && IsShared(infos[i]) && Affinity(infos[i].smidr) == 0
                   && exists j :: 0 <= j < |infos| && IsShared(infos[j]) && Affinity(infos[j].smidr) != 0
  {
    hide IsArmCoreAllowed, Implementer, Affinity, SharingOf, SmcuCount;
    assert top.domains[homes[i]] == DomainOf(infos[i]);
    if Implementer(infos[0].midr) != ARM_IMPLEMENTER {
      NonzeroAffinityIsListed(infos, top.domains, homes);
      if IsShared(infos[i]) && Affinity(infos[i].smidr) == 0 {
        forall e | 0 <= e < homes[i] ensures !(top.domains[e].shared && top.domains[e].affinity == 0) {
          assert HasMember(homes, e);
          var k :| 0 <= k < |homes| && homes[k] == e;
          assert top.domains[homes[k]] == DomainOf(infos[k]);
          assert k != i;
          assert ShareUnits(infos[k], infos[i]) <==> ShareUnits(infos[i], infos[k]);
        }
      }
    }
  }

  // CPUs without an entry have no domain and are not allowed.
  lemma UnlistedCpu(infos: seq<CpuInfo>, top: SmcuTopology, homes: seq<nat>, cpu: nat)
    requires IsTopologyOf(infos, top, homes) && |infos| < 0xFFFF_FFFF_FFFF_FFFF
    requires cpu < |top.cpuToDomain| && forall i :: 0 <= i < |infos| ==> infos[i].id != cpu
    ensures |top.cpuAllowed| == |top.cpuToDomain|
    ensures top.cpuToDomain[cpu] == 0xFFFF_FFFF_FFFF_FFFF && !top.cpuAllowed[cpu]
  {
    hide IsArmCoreAllowed, Implementer, HasSharedNonzeroAffinity, IsGrouping;
  }

  lemma NonzeroAffinityIsListed(infos: seq<CpuInfo>, domains: seq<DomainInfo>, homes: seq<nat>)
    requires IsGrouping(infos, domains, homes)
    ensures HasSharedNonzeroAffinity(domains) <==>
              exists j :: 0 <= j < |infos| && IsShared(infos[j]) && Affinity(infos[j].smidr) != 0
  {
    hide Affinity, SharingOf, SmcuCount;
    if HasSharedNonzeroAffinity(domains) {
      var d :| 0 <= d < |domains| && domains[d].shared && domains[d].affinity != 0;
      assert HasMember(homes, d);
      var j :| 0 <= j < |homes| && homes[j] == d;
      assert IsShared(infos[j]) && Affinity(infos[j].smidr) != 0;
    }
    if j :| 0 <= j < |infos| && IsShared(infos[j]) && Affinity(infos[j].smidr) != 0 {
      assert domains[homes[j]] == DomainOf(infos[j]);
    }
  }

  // --- The registers as compositions of fields --------------------------------------------------

  /** The fields of MIDR_EL1 and SMIDR_EL1; what lies above a field is named after it. */
  datatype Fields = Fields(implementer: nat, variant: nat, part: nat, revision: nat,
                           aboveCount: nat, count: nat, aboveAffinity2: nat, affinity2: nat,
                           aboveSharing: nat, sharing: nat, aboveAffinity: nat, affinity: nat)

  predicate AreShared(f: Fields) {
    f.sharing == 3 || (f.sharing == 0 && f.affinity != 0)
  }

  // What is decoded are the fields.
  ghost predicate AreFieldsOf(f: Fields, info: CpuInfo) {
    && Implementer(info.midr) == f.implementer && Part(info.midr) == f.part
    && SmcuCount(info.smidr) == (if f.count == 15 then None else Some(f.count + 1))
    && Affinity(info.smidr) == f.affinity2 * 0x1000 + f.affinity && f.affinity < 0x1000
    && SharingOf(info.smidr) == (if f.sharing == 1 then Reserved else if AreShared(f) then Shared else Unshared)
  }

  // Decoding inverts the composition of the registers from their fields.
  lemma DecodedFields(info: CpuInfo, f: Fields)
    requires f.implementer < 0x100 && f.variant < 0x100 && f.part < 0x1000 && f.revision < 0x10
    requires info.midr
      == f.implementer * 0x100_0000 + f.variant * 0x1_0000 + f.part * 0x10 + f.revision
    requires f.count < 0x10 && f.affinity2 < 0x10_0000 && f.sharing < 4 && f.affinity < 0x1000
    requires f.aboveAffinity2 < 0x10 && f.aboveSharing < 0x2_0000 && f.aboveAffinity < 2
    requires info.smidr
      == f.aboveCount * 0x1000_0000_0000_0000 + f.count * 0x100_0000_0000_0000
         + f.aboveAffinity2 * 0x10_0000_0000_0000 + f.affinity2 * 0x1_0000_0000
         + f.aboveSharing * 0x8000 + f.sharing * 0x2000 + f.aboveAffinity * 0x1000 + f.affinity
    ensures AreFieldsOf(f, info)
  {
    hide AreShared, Implementer, Part, Affinity, SharingOf, SmcuCount;
    DecodedMidr(info.midr, f);
    var toSharing := f.sharing * 0x2000 + f.aboveAffinity * 0x1000 + f.affinity;
    var toAffinity2 := f.affinity2 * 0x1_0000_0000 + f.aboveSharing * 0x8000 + toSharing;
    var toCount := f.count * 0x100_0000_0000_0000 + f.aboveAffinity2 * 0x10_0000_0000_0000 + toAffinity2;
    assert info.smidr == f.aboveCount * 0x1000_0000_0000_0000 + toCount;
    DecodedCount(info.smidr, f.aboveCount, f.count, f.aboveAffinity2 * 0x10_0000_0000_0000 + toAffinity2);
    var aboveAffinity2 := f.aboveCount * 0x100 + f.count * 0x10 + f.aboveAffinity2;
    var aboveSharing := (aboveAffinity2 * 0x10_0000 + f.affinity2) * 0x2_0000 + f.aboveSharing;
    var aboveAffinity := (aboveSharing * 4 + f.sharing) * 2 + f.aboveAffinity;
    assert info.smidr == aboveAffinity * 0x1000 + f.affinity;
    DecodedAffinity2(info.smidr, aboveAffinity2, f.affinity2, f.aboveSharing * 0x8000 + toSharing);
    DecodedLow(info.smidr, aboveAffinity, f.affinity);
    DecodedSharing(info.smidr, aboveSharing, f.sharing, f.aboveAffinity * 0x1000 + f.affinity, f.affinity);
    assert Affinity(info.smidr) == f.affinity2 * 0x1000 + f.affinity by { AffinityIs(info.smidr); }
    assert AreShared(f) <==> f.sharing == 3 || (f.sharing == 0 && f.affinity != 0) by { SharedFields(f); }
  }

  lemma SharedFields(f: Fields)
    ensures AreShared(f) <==> f.sharing == 3 || (f.sharing == 0 && f.affinity != 0)
  {
  }

  lemma DecodedMidr(midr: nat, f: Fields)
    requires f.implementer < 0x100 && f.variant < 0x100 && f.part < 0x1000 && f.revision < 0x10
    requires midr == f.implementer * 0x100_0000 + f.variant * 0x1_0000 + f.part * 0x10 + f.revision
    ensures Implementer(midr) == f.implementer && Part(midr) == f.part
  {
    assert midr / 0x10 == (f.implementer * 0x100 + f.variant) * 0x1000 + f.part;
  }

  lemma DecodedCount(smidr: nat, above: nat, count: nat, below: nat)
    requires smidr == above * 0x1000_0000_0000_0000 + count * 0x100_0000_0000_0000 + below
    requires count < 0x10 && below < 0x100_0000_0000_0000
    ensures SmcuCount(smidr) == if count == 15 then None else Some(count + 1)
  {
    assert smidr / 0x100_0000_0000_0000 == above * 0x10 + count;
  }

  lemma DecodedAffinity2(smidr: nat, above: nat, affinity2: nat, below: nat)
    requires smidr == (above * 0x10_0000 + affinity2) * 0x1_0000_0000 + below
    requires affinity2 < 0x10_0000 && below < 0x1_0000_0000
    ensures smidr / 0x1_0000_0000 % 0x10_0000 == affinity2
  {
    var quotient := above * 0x10_0000 + affinity2;
    assert smidr / 0x1_0000_0000 == quotient;
    assert quotient % 0x10_0000 == affinity2;
  }

  lemma DecodedLow(smidr: nat, above: nat, affinity: nat)
    requires smidr == above * 0x1000 + affinity && affinity < 0x1000
    ensures smidr % 0x1000 == affinity
  {
  }

  lemma AffinityIs(smidr: nat)
    ensures Affinity(smidr) == smidr / 0x1_0000_0000 % 0x10_0000 * 0x1000 + smidr % 0x1000
  {
  }

  lemma DecodedSharing(smidr: nat, above: nat, sharing: nat, below: nat, affinity: nat)
    requires smidr == (above * 4 + sharing) * 0x2000 + below && smidr % 0x1000 == affinity
    requires sharing < 4 && below < 0x2000
    ensures SharingOf(smidr)
         == if sharing == 1 then Reserved
            else if sharing == 3 || (sharing == 0 && affinity != 0) then Shared else Unshared
  {
    assert smidr / 0x2000 == above * 4 + sharing;
  }

  // Units are shared exactly by CPUs with equal affinities that are both shared.
  lemma FieldsShareUnits(a: CpuInfo, b: CpuInfo, f: Fields, g: Fields)
    requires AreFieldsOf(f, a) && AreFieldsOf(g, b)
    ensures ShareUnits(a, b) <==>
              AreShared(f) && AreShared(g) && f.affinity2 == g.affinity2 && f.affinity == g.affinity
    ensures IsMismatch(a, b) <==>
              ShareUnits(a, b) && f.count != g.count
  {
    hide Affinity, SharingOf, SmcuCount;
  }

  lemma SharingByFields(infos: seq<CpuInfo>, f: seq<Fields>)
    requires |f| == |infos| && forall i :: 0 <= i < |infos| ==> AreFieldsOf(f[i], infos[i])
    ensures SomeShareUnits(infos) <==>
              exists i, j :: 0 <= i < j < |infos| && AreShared(f[i]) && AreShared(f[j])
                && f[i].affinity2 == f[j].affinity2 && f[i].affinity == f[j].affinity
  {
    hide AreFieldsOf, ShareUnits, AreShared;
    if SomeShareUnits(infos) {
      var i, j :| 0 <= i < j < |infos| && ShareUnits(infos[i], infos[j]);
      FieldsShareUnits(infos[i], infos[j], f[i], f[j]);
    }
    if i, j :| 0 <= i < j < |infos| && AreShared(f[i]) && AreShared(f[j])
                && f[i].affinity2 == f[j].affinity2 && f[i].affinity == f[j].affinity {
      FieldsShareUnits(infos[i], infos[j], f[i], f[j]);
    }
  }

  lemma InconsistentByFields(infos: seq<CpuInfo>, f: seq<Fields>)
    requires |f| == |infos| && forall i :: 0 <= i < |infos| ==> AreFieldsOf(f[i], infos[i])
    ensures IsInconsistent(infos) <==>
              || (exists i :: 0 <= i < |infos| && (f[i].sharing == 1 || f[i].count == 15))
              || exists i, j :: 0 <= i < j < |infos| && AreShared(f[i]) && AreShared(f[j])
                   && f[i].affinity2 == f[j].affinity2 && f[i].affinity == f[j].affinity && f[i].count != f[j].count
  {
    hide ShareUnits, AreShared, IsMismatch;
    forall i | 0 <= i < |infos| ensures IsUsable(infos[i]) <==> f[i].sharing != 1 && f[i].count != 15 {
      assert AreFieldsOf(f[i], infos[i]);
    }
    hide AreFieldsOf, IsUsable;
    if i, j :| 0 <= i < j < |infos| && IsMismatch(infos[i], infos[j]) {
      FieldsShareUnits(infos[i], infos[j], f[i], f[j]);
    }
    if i, j :| 0 <= i < j < |infos| && AreShared(f[i]) && AreShared(f[j])
                && f[i].affinity2 == f[j].affinity2 && f[i].affinity == f[j].affinity && f[i].count != f[j].count {
      FieldsShareUnits(infos[i], infos[j], f[i], f[j]);
    }
  }

  lemma RejectedByFields(infos: seq<CpuInfo>, f: seq<Fields>)
    requires |f| == |infos| && forall i :: 0 <= i < |infos| ==> AreFieldsOf(f[i], infos[i])
    ensures IsRejected(infos) <==>
              || |infos| == 0
              || (exists i :: 0 <= i < |infos| && infos[i].id == 0xFFFF_FFFF_FFFF_FFFF)
              || (exists i :: 0 <= i < |infos| && f[i].implementer != f[0].implementer)
              || IsInconsistent(infos)
  {
    forall i | 0 <= i < |infos| ensures Implementer(infos[i].midr) == f[i].implementer {
      assert AreFieldsOf(f[i], infos[i]);
    }
    hide AreFieldsOf, IsInconsistent, Implementer;
  }

  // Which registers are refused, by their fields: a reserved sharing code or count, two CPUs that share units but
  // count them differently, cores of several implementers, no CPUs, or a CPU number without a successor. Memory is
  // needed twice if and only if some CPUs share units.
  lemma RejectedFields(infos: seq<CpuInfo>, f: seq<Fields>)
    requires |f| == |infos| && forall i :: 0 <= i < |infos| ==>
      && f[i].implementer < 0x100 && f[i].variant < 0x100 && f[i].part < 0x1000 && f[i].revision < 0x10
      && infos[i].midr
         == f[i].implementer * 0x100_0000 + f[i].variant * 0x1_0000 + f[i].part * 0x10 + f[i].revision
      && f[i].count < 0x10 && f[i].affinity2 < 0x10_0000 && f[i].sharing < 4 && f[i].affinity < 0x1000
      && f[i].aboveAffinity2 < 0x10 && f[i].aboveSharing < 0x2_0000 && f[i].aboveAffinity < 2
      && infos[i].smidr
         == f[i].aboveCount * 0x1000_0000_0000_0000 + f[i].count * 0x100_0000_0000_0000
            + f[i].aboveAffinity2 * 0x10_0000_0000_0000 + f[i].affinity2 * 0x1_0000_0000
            + f[i].aboveSharing * 0x8000 + f[i].sharing * 0x2000 + f[i].aboveAffinity * 0x1000 + f[i].affinity
    ensures IsRejected(infos) <==>
              || |infos| == 0
              || (exists i :: 0 <= i < |infos| && infos[i].id == 0xFFFF_FFFF_FFFF_FFFF)
              || (exists i :: 0 <= i < |infos| && f[i].implementer != f[0].implementer)
              || (exists i :: 0 <= i < |infos| && (f[i].sharing == 1 || f[i].count == 15))
              || exists i, j :: 0 <= i < j < |infos|
                   && (f[i].sharing == 3 || (f[i].sharing == 0 && f[i].affinity != 0))
                   && (f[j].sharing == 3 || (f[j].sharing == 0 && f[j].affinity != 0))
                   && f[i].affinity2 == f[j].affinity2 && f[i].affinity == f[j].affinity && f[i].count != f[j].count
    ensures SomeShareUnits(infos) <==>
              exists i, j :: 0 <= i < j < |infos|
                && (f[i].sharing == 3 || (f[i].sharing == 0 && f[i].affinity != 0))
                && (f[j].sharing == 3 || (f[j].sharing == 0 && f[j].affinity != 0))
                && f[i].affinity2 == f[j].affinity2 && f[i].affinity == f[j].affinity
  {
    forall i | 0 <= i < |infos| ensures AreFieldsOf(f[i], infos[i]) {
      DecodedFields(infos[i], f[i]);
    }
    hide AreFieldsOf, IsInconsistent, SomeShareUnits, IsRejected;
    SharingByFields(infos, f);
    InconsistentByFields(infos, f);
    RejectedByFields(infos, f);
  }

  lemma TopologyByFields(infos: seq<CpuInfo>, f: seq<Fields>, top: SmcuTopology, homes: seq<nat>, i: nat, j: nat)
    requires IsTopologyOf(infos, top, homes)
    requires |f| == |infos| && forall k :: 0 <= k < |infos| ==> AreFieldsOf(f[k], infos[k])
    requires IsLastEntry(infos, i) && IsLastEntry(infos, j)
    ensures infos[i].id < |top.cpuToDomain| && infos[j].id < |top.cpuToDomain| == |top.cpuAllowed|
    ensures i != j ==>
              (top.cpuToDomain[infos[i].id] == top.cpuToDomain[infos[j].id] <==>
                 f[i].affinity2 == f[j].affinity2 && f[i].affinity == f[j].affinity
                 && AreShared(f[i]) && AreShared(f[j]))
    ensures var d := top.cpuToDomain[infos[i].id];
            && d < |top.domains| && top.domains[d].slotCount == if AreShared(f[i]) then f[i].count + 1 else 1
    ensures top.cpuAllowed[infos[i].id] <==>
              if f[0].implementer == 0x41 then f[i].part in {0xD8A, 0xD8B, 0xD90}
              else && AreShared(f[i]) && f[i].affinity2 == 0 && f[i].affinity == 0
                   && exists k :: 0 <= k < |infos| && (f[k].affinity2 != 0 || f[k].affinity != 0) && AreShared(f[k])
  {
    AllowedCpus(infos, top, homes, i);
    if i < j { SameDomain(infos, top, homes, i, j); }
    if j < i { SameDomain(infos, top, homes, j, i); }
    assert top.domains[homes[i]] == DomainOf(infos[i]);
    assert IsUsable(infos[i]);
    hide IsGrouping, IsPolicy, IsTopologyOf, IsLastEntry, IsTableOf;
    assert AreFieldsOf(f[i], infos[i]) && AreFieldsOf(f[j], infos[j]) && AreFieldsOf(f[0], infos[0]);
    FieldsShareUnits(infos[i], infos[j], f[i], f[j]);
    FieldsShareUnits(infos[j], infos[i], f[j], f[i]);
    hide Affinity, SharingOf, SmcuCount, Implementer, Part, ShareUnits, AreShared;
    if k :| 0 <= k < |infos| && (f[k].affinity2 != 0 || f[k].affinity != 0) && AreShared(f[k]) {
      assert IsShared(infos[k]) && Affinity(infos[k].smidr) != 0 by { assert AreFieldsOf(f[k], infos[k]); }
    }
  }

  // What the topology of accepted registers is, by the fields of the last entry of each CPU: CPUs are in one domain
  // if both are shared with equal affinities, a domain has a slot for every unit that is shared and one slot otherwise,
  // and the allowed CPUs are C1 cores other than the Ultra, or with another implementer the shared ones with affinity
  // zero, provided that CPUs with another affinity are shared, too.
  lemma TopologyOfFields(infos: seq<CpuInfo>, f: seq<Fields>, top: SmcuTopology, homes: seq<nat>, i: nat, j: nat)
    requires IsTopologyOf(infos, top, homes)
    requires |f| == |infos| && forall i :: 0 <= i < |infos| ==>
      && f[i].implementer < 0x100 && f[i].variant < 0x100 && f[i].part < 0x1000 && f[i].revision < 0x10
      && infos[i].midr
         == f[i].implementer * 0x100_0000 + f[i].variant * 0x1_0000 + f[i].part * 0x10 + f[i].revision
      && f[i].count < 0x10 && f[i].affinity2 < 0x10_0000 && f[i].sharing < 4 && f[i].affinity < 0x1000
      && f[i].aboveAffinity2 < 0x10 && f[i].aboveSharing < 0x2_0000 && f[i].aboveAffinity < 2
      && infos[i].smidr
         == f[i].aboveCount * 0x1000_0000_0000_0000 + f[i].count * 0x100_0000_0000_0000
            + f[i].aboveAffinity2 * 0x10_0000_0000_0000 + f[i].affinity2 * 0x1_0000_0000
            + f[i].aboveSharing * 0x8000 + f[i].sharing * 0x2000 + f[i].aboveAffinity * 0x1000 + f[i].affinity
    requires i < |infos| && forall k :: i < k < |infos| ==> infos[k].id != infos[i].id
    requires j < |infos| && forall k :: j < k < |infos| ==> infos[k].id != infos[j].id
    ensures infos[i].id < |top.cpuToDomain| && infos[j].id < |top.cpuToDomain| == |top.cpuAllowed|
    ensures i != j ==>
              (top.cpuToDomain[infos[i].id] == top.cpuToDomain[infos[j].id] <==>
                 && f[i].affinity2 == f[j].affinity2 && f[i].affinity == f[j].affinity
                 && (f[i].sharing == 3 || (f[i].sharing == 0 && f[i].affinity != 0))
                 && (f[j].sharing == 3 || (f[j].sharing == 0 && f[j].affinity != 0)))
    ensures var d := top.cpuToDomain[infos[i].id];
            && d < |top.domains| == |top.ForLimiter().slotCounts|
            && top.ForLimiter().slotCounts[d]
               == if f[i].sharing == 3 || (f[i].sharing == 0 && f[i].affinity != 0) then f[i].count + 1 else 1
    ensures top.cpuAllowed[infos[i].id] <==>
              if f[0].implementer == 0x41 then f[i].part in {0xD8A, 0xD8B, 0xD90}
              else && f[i].sharing == 3 && f[i].affinity2 == 0 && f[i].affinity == 0
                   && exists k :: 0 <= k < |infos| && (f[k].affinity2 != 0 || f[k].affinity != 0)
                        && (f[k].sharing == 3 || (f[k].sharing == 0 && f[k].affinity != 0))
  {
    forall k | 0 <= k < |infos| ensures AreFieldsOf(f[k], infos[k]) {
      DecodedFields(infos[k], f[k]);
    }
    TopologyByFields(infos, f, top, homes, i, j);
  }
}
