/** The CPU topology that hardware.c accumulates over the nodes of a sysfs directory. */
module CpuTopology {
  import opened Bytes
  import opened Bits
  import opened Bitsets

  const MAX_CPU_PACKAGES: nat := 16
  const MAX_CPU_CORES: nat := 256
  const CORES_SET_BLOCKS: nat := 8
  const NO_CPU: nat := 0xFFFF

  /** What the hotplug file of a core says: absent, unreadable, or a number. */
  datatype Online = NoFile | Unreadable | Flag(value: nat)

  /** What sysfs says about one "cpuN" directory; None where a file cannot be read. */
  datatype CoreNode = CoreNode(number: nat, online: Online, packageId: Option<int>, coreId: Option<nat>, freqKhz: nat)

  predicate IsOnline(node: CoreNode) {
    node.online.Flag? ==> node.online.value != 0
  }

  /** The package a node counts for; missing and out-of-range ids fall back to package 0. */
  function Package(node: CoreNode): (p: nat)
    ensures p < MAX_CPU_PACKAGES
  {
    if node.packageId.Some? && 0 <= node.packageId.value < MAX_CPU_PACKAGES then node.packageId.value else 0
  }

  /** The logical id, cut to 16 bits. */
  function LogicalId(node: CoreNode): nat {
    node.number % 0x1_0000
  }

  function CoreIdOf(node: CoreNode): nat {
    if node.coreId.Some? then node.coreId.value else LogicalId(node)
  }

  // ----- What a set of nodes amounts to, without any order -------------------------------------------

  /** The summary of one package. */
  datatype Summary = Summary(present: bool, firstId: nat, cores: set<nat>, peakKhz: nat)

  ghost predicate Counts(nodes: multiset<CoreNode>, node: CoreNode, p: nat) {
    node in nodes && IsOnline(node) && Package(node) == p
  }

  /** The same in terms of what sysfs says. */
  lemma CountsRaw(nodes: multiset<CoreNode>, node: CoreNode, p: nat)
    ensures Counts(nodes, node, p) <==>
      && node in nodes && node.online != Flag(0)
      && match node.packageId
         case Some(id) => p == (if 0 <= id < 16 then id else 0)
         case None => p == 0
    ensures LogicalId(node) == node.number % 65536
    ensures CoreIdOf(node) == match node.coreId case Some(id) => id case None => node.number % 65536
  {
  }

  /** `s` is what the online nodes of package `p` amount to. */
  ghost predicate Summarises(s: Summary, nodes: multiset<CoreNode>, p: nat) {
    && (s.present <==> exists node :: Counts(nodes, node, p))
    && (s.firstId == NO_CPU || exists node :: Counts(nodes, node, p) && LogicalId(node) == s.firstId)
    && s.firstId <= NO_CPU && (forall node :: Counts(nodes, node, p) ==> s.firstId <= LogicalId(node))
    && (forall c :: c in s.cores <==> c < MAX_CPU_CORES && exists node :: Counts(nodes, node, p) && CoreIdOf(node) == c)
    && (s.peakKhz == 0 || exists node :: Counts(nodes, node, p) && node.freqKhz == s.peakKhz)
    && (forall node :: Counts(nodes, node, p) ==> node.freqKhz <= s.peakKhz)
  }

  ghost predicate Describes(pkgs: seq<Summary>, nodes: multiset<CoreNode>) {
    |pkgs| == MAX_CPU_PACKAGES && forall p :: 0 <= p < MAX_CPU_PACKAGES ==> Summarises(pkgs[p], nodes, p)
  }

  lemma SummaryUnique(a: Summary, b: Summary, nodes: multiset<CoreNode>, p: nat)
    requires Summarises(a, nodes, p) && Summarises(b, nodes, p)
    ensures a == b
  {
    assert a.cores == b.cores;
  }

  /** The same nodes in any order amount to the same thing. */
  lemma DescribesUnique(a: seq<Summary>, b: seq<Summary>, nodes: multiset<CoreNode>)
    requires Describes(a, nodes) && Describes(b, nodes)
    ensures a == b
  {
    forall p | 0 <= p < MAX_CPU_PACKAGES
      ensures a[p] == b[p]
    {
      SummaryUnique(a[p], b[p], nodes, p);
    }
  }

  function Existing(pkgs: seq<Summary>): set<nat> {
    set p | 0 <= p < |pkgs| && pkgs[p].present
  }

  // ----- One node at a time ------------------------------------------------------------------------

  /** The summary of a package after one more online node. */
  function Joined(s: Summary, node: CoreNode): Summary {
    Summary(true,
            if s.firstId == NO_CPU || LogicalId(node) < s.firstId then LogicalId(node) else s.firstId,
            if CoreIdOf(node) < MAX_CPU_CORES then s.cores + {CoreIdOf(node)} else s.cores,
            if node.freqKhz > s.peakKhz then node.freqKhz else s.peakKhz)
  }

  lemma CountsMore(nodes: multiset<CoreNode>, more: CoreNode, p: nat)
    ensures forall node :: Counts(nodes + multiset{more}, node, p) <==>
                           Counts(nodes, node, p) || (node == more && IsOnline(more) && Package(more) == p)
  {
  }

  lemma JoinedSummarises(s: Summary, nodes: multiset<CoreNode>, more: CoreNode)
    requires IsOnline(more) && Summarises(s, nodes, Package(more))
    ensures Summarises(Joined(s, more), nodes + multiset{more}, Package(more))
  {
    var p := Package(more);
    var nodes' := nodes + multiset{more};
    var s' := Joined(s, more);
    CountsMore(nodes, more, p);
    assert Counts(nodes', more, p);
    forall c
      ensures c in s'.cores <==> c < MAX_CPU_CORES && exists node :: Counts(nodes', node, p) && CoreIdOf(node) == c
    {
      if c in s.cores {
        var node :| Counts(nodes, node, p) && CoreIdOf(node) == c;
        assert Counts(nodes', node, p);
      }
    }
    if s'.firstId == s.firstId && s.firstId != NO_CPU {
      var node :| Counts(nodes, node, p) && LogicalId(node) == s.firstId;
      assert Counts(nodes', node, p);
    }
    if s'.peakKhz == s.peakKhz && s.peakKhz != 0 {
      var node :| Counts(nodes, node, p) && node.freqKhz == s.peakKhz;
      assert Counts(nodes', node, p);
    }
  }

  lemma OthersSummarise(s: Summary, nodes: multiset<CoreNode>, more: CoreNode, p: nat)
    requires Summarises(s, nodes, p) && !(IsOnline(more) && Package(more) == p)
    ensures Summarises(s, nodes + multiset{more}, p)
  {
    CountsMore(nodes, more, p);
  }

  lemma DescribesMore(pkgs: seq<Summary>, nodes: multiset<CoreNode>, more: CoreNode)
    requires Describes(pkgs, nodes)
    ensures Describes(if IsOnline(more) then pkgs[Package(more) := Joined(pkgs[Package(more)], more)] else pkgs,
                      nodes + multiset{more})
  {
    forall p | 0 <= p < MAX_CPU_PACKAGES
      ensures Summarises(if IsOnline(more) && p == Package(more) then Joined(pkgs[p], more) else pkgs[p],
                         nodes + multiset{more}, p)
    {
      if IsOnline(more) && p == Package(more) {
        JoinedSummarises(pkgs[p], nodes, more);
      } else {
        OthersSummarise(pkgs[p], nodes, more, p);
      }
    }
  }

  // ----- The arrays of hw_parse_cpu_topology ---------------------------------------------------------

  /** cpu_data_t without the model name. */
  datatype CpuData = CpuData(present: bool, frequency: nat, coreBits: seq<Word>)

  function SummaryOf(cpu: CpuData, firstId: nat): Summary {
    Summary(cpu.present, firstId, Members(cpu.coreBits), cpu.frequency)
  }

  class Topology {
    var cpus: array<CpuData>
    var cpuMap: array<nat>
    var packages: nat

    ghost predicate Valid()
      reads this, cpus, cpuMap
    {
      && cpus.Length == cpuMap.Length == MAX_CPU_PACKAGES
      && (forall p :: 0 <= p < MAX_CPU_PACKAGES ==> |cpus[p].coreBits| == CORES_SET_BLOCKS)
      && packages == |Existing(Summaries())|
    }

    /** What the arrays say, package by package. */
    ghost function Summaries(): (pkgs: seq<Summary>)
      requires cpus.Length == cpuMap.Length
      reads this, cpus, cpuMap
      ensures |pkgs| == cpus.Length
      ensures forall p :: 0 <= p < cpus.Length ==> pkgs[p] == SummaryOf(cpus[p], cpuMap[p])
    {
      SummarySeq(cpus[..], cpuMap[..])
    }

    constructor ()
      ensures Valid() && fresh(cpus) && fresh(cpuMap) && Describes(Summaries(), multiset{})
    {
      cpus := new CpuData[MAX_CPU_PACKAGES](_ => CpuData(false, 0, [0, 0, 0, 0, 0, 0, 0, 0]));
      cpuMap := new nat[MAX_CPU_PACKAGES](_ => NO_CPU);
      packages := 0;
      new;
      NoMembers();
      assert Existing(Summaries()) == {};
    }

    /** hw_cpu_process_core_node. */
    method ProcessCoreNode(node: CoreNode)
      requires Valid()
      modifies `packages, cpus, cpuMap
      ensures Valid()
      ensures Summaries() ==
              if IsOnline(node) then old(Summaries())[Package(node) := Joined(old(Summaries())[Package(node)], node)]
              else old(Summaries())
    {
      if node.online.Flag? && node.online.value == 0 {
        return;
      }
      var packageId := if node.packageId.Some? then node.packageId.value else 0;
      if packageId < 0 || packageId >= MAX_CPU_PACKAGES {
        packageId := 0;
      }
      var currentId := node.number % 0x1_0000;
      var coreId := if node.coreId.Some? then node.coreId.value else currentId;
      ghost var wasCpus, wasIds := cpus[..], cpuMap[..];

      AddToPackage(packageId, currentId, coreId, node.freqKhz);
      SummariesJoined(wasCpus, wasIds, node);
    }

    /** The writes of hw_cpu_process_core_node, all to one package. */
    method AddToPackage(p: nat, currentId: nat, coreId: nat, freqKhz: nat)
      requires p < cpus.Length == cpuMap.Length && |cpus[p].coreBits| == CORES_SET_BLOCKS
      modifies `packages, cpus, cpuMap
      ensures cpus[..] == old(cpus[..])[p := Updated(old(cpus[p]), coreId, freqKhz)]
      ensures cpuMap[..] == old(cpuMap[..])
                [p := if old(cpuMap[p]) == NO_CPU || currentId < old(cpuMap[p]) then currentId else old(cpuMap[p])]
      ensures packages == old(packages) + if old(cpus[p]).present then 0 else 1
    {
      Discover(p, currentId);
      AddCore(p, coreId);
      GetCpuFreq(p, freqKhz);
    }

    /** The package bookkeeping of hw_cpu_process_core_node: presence, count, least logical id. */
    method Discover(p: nat, currentId: nat)
      requires p < cpus.Length == cpuMap.Length
      modifies `packages, cpus, cpuMap
      ensures cpus[..] == old(cpus[..])[p := old(cpus[p]).(present := true)]
      ensures cpuMap[..] == old(cpuMap[..])
                [p := if old(cpuMap[p]) == NO_CPU || currentId < old(cpuMap[p]) then currentId else old(cpuMap[p])]
      ensures packages == old(packages) + if old(cpus[p]).present then 0 else 1
    {
      if !cpus[p].present {
        cpus[p] := cpus[p].(present := true);
        packages := packages + 1;
      }
      if cpuMap[p] == NO_CPU || currentId < cpuMap[p] {
        cpuMap[p] := currentId;
      }
    }

    /** set_add on the core bits of a package. */
    method AddCore(p: nat, coreId: nat)
      requires p < cpus.Length && |cpus[p].coreBits| == CORES_SET_BLOCKS
      modifies cpus
      ensures cpus[..] == old(cpus[..])
                [p := old(cpus[p]).(coreBits := WithMember(old(cpus[p]).coreBits, MAX_CPU_CORES, coreId))]
    {
      cpus[p] := cpus[p].(coreBits := WithMember(cpus[p].coreBits, MAX_CPU_CORES, coreId));
    }

    /** hw_get_cpu_freq once the frequency is read. */
    method GetCpuFreq(p: nat, freqKhz: nat)
      requires p < cpus.Length
      modifies cpus
      ensures cpus[..] == old(cpus[..])
                [p := old(cpus[p]).(frequency := if freqKhz > old(cpus[p]).frequency then freqKhz else old(cpus[p]).frequency)]
    {
      if freqKhz > cpus[p].frequency {
        cpus[p] := cpus[p].(frequency := freqKhz);
      }
    }

    /** The writes of the fallback that make package 0 up. */
    method MakePackage0(freqKhz: nat)
      requires cpus.Length == cpuMap.Length == MAX_CPU_PACKAGES && |cpus[0].coreBits| == CORES_SET_BLOCKS
      modifies `packages, cpus, cpuMap
      ensures cpus[..] == old(cpus[..])[0 := Updated(old(cpus[0]), 0, freqKhz)]
      ensures cpuMap[..] == old(cpuMap[..])[0 := if old(cpuMap[0]) == NO_CPU then 0 else old(cpuMap[0])]
      ensures packages == if !old(cpus[0]).present then old(packages) + 1 else if old(packages) == 0 then 1 else old(packages)
    {
      if !cpus[0].present {
        cpus[0] := cpus[0].(present := true);
        packages := packages + 1;
      }
      AddCore(0, 0);
      if cpuMap[0] == NO_CPU {
        cpuMap[0] := 0;
      }
      if packages == 0 {
        packages := 1;
      }
      GetCpuFreq(0, freqKhz);
    }

    /**
     * hw_cpu_apply_single_core_fallback, after the nodes `seen`: package 0 is made up when no node
     * counted for it, other packages or not. `cpu0` is None when neither cpu0 nor cpuinfo exists.
     */
    method ApplyFallback(cpu0: Option<nat>, ghost seen: multiset<CoreNode>)
      requires Valid() && Describes(Summaries(), seen)
      modifies `packages, cpus, cpuMap
      ensures Valid() && Describes(Summaries(), WithFallback(seen, cpu0))
    {
      if packages > 0 && cpus[0].present {
        assert Summaries()[0].present;
        return;
      }
      if cpu0.None? {
        return;
      }
      ghost var wasCpus, wasIds, was := cpus[..], cpuMap[..], Summaries();
      assert !was[0].present && cpuMap[0] == NO_CPU by {
        assert was[0].present ==> 0 in Existing(was);
      }
      MakePackage0(cpu0.value);
      ghost var node := Cpu0(cpu0.value);
      SummariesJoined(wasCpus, wasIds, node);
      DescribesMore(was, seen, node);
    }

    /** hw_parse_cpu_topology over the directory entries in the order readdir gives them. */
    method ParseTopology(nodes: seq<CoreNode>, cpu0: Option<nat>)
      requires Valid() && Describes(Summaries(), multiset{})
      modifies `packages, cpus, cpuMap
      ensures Valid() && Describes(Summaries(), WithFallback(multiset(nodes), cpu0))
    {
      for i := 0 to |nodes|
        invariant Valid() && Describes(Summaries(), multiset(nodes[..i]))
      {
        OneMore(nodes, i);
        DescribesMore(Summaries(), multiset(nodes[..i]), nodes[i]);
        ProcessCoreNode(nodes[i]);
      }
      assert nodes[..|nodes|] == nodes;
      ApplyFallback(cpu0, multiset(nodes));
    }
  }

  lemma OneMore(nodes: seq<CoreNode>, i: nat)
    requires i < |nodes|
    ensures multiset(nodes[..i + 1]) == multiset(nodes[..i]) + multiset{nodes[i]}
  {
    assert nodes[..i + 1] == nodes[..i] + [nodes[i]];
  }

  /** The node the fallback pretends to have seen. */
  function Cpu0(freqKhz: nat): CoreNode {
    CoreNode(0, NoFile, Some(0), Some(0), freqKhz)
  }

  ghost function WithFallback(seen: multiset<CoreNode>, cpu0: Option<nat>): multiset<CoreNode> {
    if cpu0.Some? && !exists node :: Counts(seen, node, 0) then seen + multiset{Cpu0(cpu0.value)} else seen
  }

  /**
   * What the fallback adds: package 0 with core 0, logical id 0 and the frequency of cpu0, exactly when
   * package 0 does not exist and there is a cpu0 or a cpuinfo; every other package stays as it is.
   */
  lemma FallbackIs(seen: multiset<CoreNode>, cpu0: Option<nat>, a: seq<Summary>, b: seq<Summary>)
    requires Describes(a, seen) && Describes(b, WithFallback(seen, cpu0))
    ensures b == if a[0].present || cpu0.None? then a else a[0 := Summary(true, 0, {0}, cpu0.value)]
  {
    assert Summarises(a[0], seen, 0);
    if a[0].present || cpu0.None? {
      DescribesUnique(a, b, seen);
    } else {
      var node := Cpu0(cpu0.value);
      DescribesMore(a, seen, node);
      assert a[0].cores == {};
      assert Joined(a[0], node) == Summary(true, 0, {0}, cpu0.value);
      DescribesUnique(a[0 := Joined(a[0], node)], b, WithFallback(seen, cpu0));
    }
  }

  /** Two directory orders of the same nodes give the same packages, ids, cores and peak frequencies. */
  method ParseTwice(a: seq<CoreNode>, b: seq<CoreNode>, cpu0: Option<nat>) returns (s: Topology, t: Topology)
    requires multiset(a) == multiset(b)
    ensures s.Valid() && t.Valid()
    ensures s.cpus[..] == t.cpus[..] && s.cpuMap[..] == t.cpuMap[..] && s.packages == t.packages
  {
    s := new Topology();
    s.ParseTopology(a, cpu0);
    t := new Topology();
    t.ParseTopology(b, cpu0);
    DescribesUnique(s.Summaries(), t.Summaries(), WithFallback(multiset(a), cpu0));
    SummariesDetermine(s, t);
  }

  /** The summaries say everything about the arrays. */
  lemma SummariesDetermine(s: Topology, t: Topology)
    requires s.Valid() && t.Valid() && s.Summaries() == t.Summaries()
    ensures s.cpus[..] == t.cpus[..] && s.cpuMap[..] == t.cpuMap[..] && s.packages == t.packages
  {
    forall p | 0 <= p < MAX_CPU_PACKAGES
      ensures s.cpus[p] == t.cpus[p] && s.cpuMap[p] == t.cpuMap[p]
    {
      assert SummaryOf(s.cpus[p], s.cpuMap[p]) == s.Summaries()[p] == t.Summaries()[p];
      MembersDetermine(s.cpus[p].coreBits, t.cpus[p].coreBits);
    }
  }

  /** A package's record with one more core and one more frequency reading. */
  function Updated(cpu: CpuData, coreId: nat, freqKhz: nat): CpuData
    requires |cpu.coreBits| == CORES_SET_BLOCKS
  {
    CpuData(true, if freqKhz > cpu.frequency then freqKhz else cpu.frequency,
            WithMember(cpu.coreBits, MAX_CPU_CORES, coreId))
  }

  lemma SummariesJoined(cpus: seq<CpuData>, ids: seq<nat>, node: CoreNode)
    requires |cpus| == |ids| == MAX_CPU_PACKAGES && |cpus[Package(node)].coreBits| == CORES_SET_BLOCKS
    ensures var p := Package(node);
      var was := SummarySeq(cpus, ids);
      var now := SummarySeq(cpus[p := Updated(cpus[p], CoreIdOf(node), node.freqKhz)], ids[p := Joined(was[p], node).firstId]);
      now == was[p := Joined(was[p], node)] &&
      |Existing(now)| == |Existing(was)| + if cpus[p].present then 0 else 1
  {
    var p := Package(node);
    var was := SummarySeq(cpus, ids);
    var now := SummarySeq(cpus[p := Updated(cpus[p], CoreIdOf(node), node.freqKhz)], ids[p := Joined(was[p], node).firstId]);
    if CoreIdOf(node) < MAX_CPU_CORES {
      AddMember(cpus[p].coreBits, CoreIdOf(node));
    }
    assert now == was[p := Joined(was[p], node)];
    assert Existing(now) == Existing(was) + {p};
  }

  ghost function SummarySeq(cpus: seq<CpuData>, ids: seq<nat>): seq<Summary>
    requires |cpus| == |ids|
  {
    seq(|cpus|, p requires 0 <= p < |cpus| => SummaryOf(cpus[p], ids[p]))
  }

  lemma NoMembers()
    ensures Members([0, 0, 0, 0, 0, 0, 0, 0]) == {}
  {
    forall i: nat
      ensures !Bit(0, i)
    {
      BitZero(i);
    }
  }
}
