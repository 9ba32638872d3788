/** Which packets the generated policy rules lead to the tunnel's table, outside mark mode. */
module RuleReach {
  import opened Wrappers
  import opened PolicyRules
  import opened Marks
  import opened IpvsSets
  import opened RuleCompiler
  import opened RuleProperties

  /** The packet goes to an IPVS backend. */
  ghost predicate ToBackend(o: Options, p: Packet) {
    o.ipvs.Some? && exists d :: d in o.ipvs.value && IsTo(d, p)
  }

  predicate IsTo(d: Dest, p: Packet) {
    d.addr.V6? == p.v6 && p.dst == d.addr.bits && p.protocol == d.protocol && p.dport == d.port
  }

  predicate InSome(ranges: seq<Range>, x: nat) {
    exists r :: r in ranges && InRange(r, x)
  }

  /** The packet has an excluded port or user. */
  predicate IsExcluded(o: Options, p: Packet) {
    InSome(o.excludeSrcPort, p.sport) || InSome(o.excludeDstPort, p.dport) || InSome(o.excludedRanges, p.uid)
  }

  /** The packet's interface is included, or not excluded. */
  predicate Admitted(o: Options, p: Packet) {
    if o.includeInterface != [] then p.iif in o.includeInterface else p.iif !in o.excludeInterface
  }

  predicate LeftToVpn(o: Options, p: Packet) {
    o.android && o.androidVPN && MarkMatches(VpnTest(o), p.mark)
  }

  /** The packet goes to the tunnel's networks, or comes neither from the tunnel nor from a foreign local address. */
  predicate Routed4(o: Options, p: Packet) {
    || (!o.android && InSome(o.inet4, p.dst))
    || (p.iif != o.name && (p.iif != "lo" || p.src == 0 || InSome(o.inet4, p.src)))
  }

  predicate Routed6(o: Options, p: Packet) {
    || (p.iif == "lo" && InSome(o.inet6, p.src))
    || (p.iif != o.name && !(p.iif == "lo" && p.src < 2 * HALF))
  }

  /** What the options say of a packet. */
  ghost predicate Enters(o: Options, p: Packet) {
    && Enabled(o, p.v6)
    && !(o.dnat && Bypassed(o.marks, p.mark)) && !ToBackend(o, p) && !IsExcluded(o, p)
    && Admitted(o, p) && !LeftToVpn(o, p)
    && (if p.v6 then Routed6(o, p) else Routed4(o, p))
  }

  /** A rule at a priority makes the packet jump. */
  ghost predicate Jumps(rules: seq<Rule>, p: Packet, priority: int) {
    exists r :: r in rules && r.priority == priority && Fires(r, p) && r.action.Goto?
  }

  /** A rule at a priority makes the packet look in a table. */
  ghost predicate Looks(rules: seq<Rule>, p: Packet, priority: int, table: int) {
    exists r :: r in rules && r.priority == priority && Fires(r, p) && r.action == Table(table)
  }

  /** Rules that jump to one place, look in other tables or do nothing. */
  ghost predicate Diverting(rules: seq<Rule>, p: Packet, priority: int, target: int, table: int) {
    forall r :: r in rules && r.priority == priority && Fires(r, p) ==>
      r.action == Goto(target) || r.action.Nop? || (r.action.Table? && r.action.id != table)
  }

  ghost predicate Leading(rules: seq<Rule>, p: Packet, priority: int) {
    forall r :: r in rules && r.priority == priority && Fires(r, p) ==> r.action.Table? || r.action.Nop?
  }

  lemma RestOf(rules: seq<Rule>)
    requires rules != []
    ensures forall r :: r in rules <==> r == rules[0] || r in rules[1..]
  {
  }

  lemma {:induction false} AtDiverting(rules: seq<Rule>, p: Packet, priority: int, target: int, table: int)
    requires Diverting(rules, p, priority, target, table)
    ensures var t := At(rules, p, priority);
      !t.stop && table !in t.tables && t.jump == if Jumps(rules, p, priority) then Some(target) else None
    decreases |rules|
  {
    hide Fires;
    if rules != [] {
      RestOf(rules);
      AtDiverting(rules[1..], p, priority, target, table);
    }
  }

  lemma {:induction false} AtLeading(rules: seq<Rule>, p: Packet, priority: int, table: int)
    requires Leading(rules, p, priority)
    ensures var t := At(rules, p, priority);
      !t.stop && t.jump == None && (table in t.tables <==> Looks(rules, p, priority, table))
    decreases |rules|
  {
    hide Fires;
    if rules != [] {
      RestOf(rules);
      AtLeading(rules[1..], p, priority, table);
    }
  }

  /** Evaluation at a priority with nothing but jumps to one place. */
  lemma Diverts(rules: seq<Rule>, p: Packet, from: int, target: int, end: int, table: int)
    requires Diverting(rules, p, from, target, table) && from < end && from < target
    ensures table in Visit(rules, p, from, end) <==>
      table in Visit(rules, p, if Jumps(rules, p, from) then target else from + 1, end)
  {
    hide Diverting;
    hide Jumps;
    AtDiverting(rules, p, from, target, table);
    VisitStep(rules, p, from, end);
  }

  /** Evaluation at a priority with nothing but lookups. */
  lemma Leads(rules: seq<Rule>, p: Packet, from: int, end: int, table: int)
    requires Leading(rules, p, from) && from < end
    ensures table in Visit(rules, p, from, end) <==>
      Looks(rules, p, from, table) || table in Visit(rules, p, from + 1, end)
  {
    hide Leading;
    hide Looks;
    AtLeading(rules, p, from, table);
    VisitStep(rules, p, from, end);
  }

  /** The packet looks in the tunnel's table from a priority on. */
  ghost predicate Reaches(o: Options, rules: seq<Rule>, p: Packet, from: int, end: int) {
    o.tableIndex in Visit(rules, p, from, end)
  }

  /** The rules of an enabled family, evaluated to the end. */
  ghost predicate Evaluated(o: Options, rules: seq<Rule>, p: Packet, end: int) {
    Exact(o, rules) && Enabled(o, p.v6) && end >= NopPriority(o) && o.tableIndex != MAIN_TABLE
  }

  lemma MarkedAt(o: Options, r: Rule)
    requires IsMarked(o, r)
    ensures r.priority == o.ruleIndex < IpvsAt(o)
  {
    hide BypassMark;
    hide BypassMask;
  }

  lemma BackendAt(o: Options, r: Rule)
    requires o.ipvs.Some? && IsBackend(o, o.ipvs.value, r)
    ensures r.priority == IpvsAt(o) < ExcludeAt(o)
  {
  }

  lemma ExclusionAt(o: Options, r: Rule)
    requires IsExclusion(o, Counter(o, false, ExcludeAt(o)), Counter(o, true, ExcludeAt(o)), r)
    ensures IsExclusion(o, ExcludeAt(o), ExcludeAt(o), r) && r.priority == ExcludeAt(o) < InterfaceAt(o)
  {
  }

  lemma InterfacesAt(o: Options, r: Rule)
    requires InInterfaces(o, Counter(o, false, InterfaceAt(o)), Counter(o, true, InterfaceAt(o)), r)
    ensures InInterfaces(o, InterfaceAt(o), InterfaceAt(o), r) && InterfaceAt(o) <= r.priority < ProtectAt(o)
  {
  }

  lemma ProtectionAt(o: Options, r: Rule)
    requires IsProtection(o, Counter(o, false, ProtectAt(o)), Counter(o, true, ProtectAt(o)), r)
    ensures IsProtection(o, ProtectAt(o), ProtectAt(o), r) && r.priority == ProtectAt(o) < NetworkAt(o)
  {
  }

  lemma NetworksAt(o: Options, r: Rule)
    requires IsNetwork(o, Counter(o, false, NetworkAt(o)), Counter(o, true, NetworkAt(o)), r)
    ensures IsNetwork(o, NetworkAt(o), NetworkAt(o), r) && NetworkAt(o) <= r.priority < NopPriority(o)
  {
  }

  /** The rules of a family that lead into the tunnel. */
  ghost predicate IsTunnel(o: Options, r: Rule) {
    if r.v6 then IsTunnel6(o, TunnelAt(o, true), r) else IsTunnel4(o, TunnelAt(o, false), r)
  }

  lemma TunnelsAt(o: Options, r: Rule)
    requires IsTunnel(o, r)
    ensures NetworkAt(o) <= r.priority < NopPriority(o)
  {
  }

  lemma StagesInOrder(o: Options)
    ensures o.ruleIndex <= IpvsAt(o) <= ExcludeAt(o) <= InterfaceAt(o) <= ProtectAt(o) <= NetworkAt(o)
      <= NopPriority(o) - 3
    ensures ProtectAt(o) <= InterfaceAt(o) + 3
    ensures forall v6 :: NetworkAt(o) <= TunnelAt(o, v6) < NopPriority(o) - 2
  {
  }

  /** A stage has the priorities from its own to the next one's to itself. */
  lemma StageOf(o: Options, r: Rule)
    requires Listed(o, r) && Enabled(o, r.v6)
    ensures o.ruleIndex <= r.priority <= NopPriority(o)
    ensures r.priority < IpvsAt(o) ==> IsMarked(o, r)
    ensures IpvsAt(o) <= r.priority < ExcludeAt(o) ==> o.ipvs.Some? && IsBackend(o, o.ipvs.value, r)
    ensures ExcludeAt(o) <= r.priority < InterfaceAt(o) ==> IsExclusion(o, ExcludeAt(o), ExcludeAt(o), r)
    ensures InterfaceAt(o) <= r.priority < ProtectAt(o) ==> InInterfaces(o, InterfaceAt(o), InterfaceAt(o), r)
    ensures ProtectAt(o) <= r.priority < NetworkAt(o) ==> IsProtection(o, ProtectAt(o), ProtectAt(o), r)
    ensures NetworkAt(o) <= r.priority < NopPriority(o) ==>
      IsNetwork(o, NetworkAt(o), NetworkAt(o), r) || IsTunnel(o, r)
    ensures r.priority == NopPriority(o) ==> r.action == Nop
  {
    StagesInOrder(o);
    StageCases(o, r);
    hide *;
    if IsMarked(o, r) {
      MarkedAt(o, r);
    } else if o.ipvs.Some? && IsBackend(o, o.ipvs.value, r) {
      BackendAt(o, r);
    } else if IsExclusion(o, Counter(o, false, ExcludeAt(o)), Counter(o, true, ExcludeAt(o)), r) {
      ExclusionAt(o, r);
    } else if InInterfaces(o, Counter(o, false, InterfaceAt(o)), Counter(o, true, InterfaceAt(o)), r) {
      InterfacesAt(o, r);
    } else if IsProtection(o, Counter(o, false, ProtectAt(o)), Counter(o, true, ProtectAt(o)), r) {
      ProtectionAt(o, r);
    } else if IsNetwork(o, Counter(o, false, NetworkAt(o)), Counter(o, true, NetworkAt(o)), r) {
      NetworksAt(o, r);
    } else if IsTunnel(o, r) {
      TunnelsAt(o, r);
    }
  }

  lemma StageCases(o: Options, r: Rule)
    requires Listed(o, r) && Enabled(o, r.v6)
    ensures || IsMarked(o, r) || (o.ipvs.Some? && IsBackend(o, o.ipvs.value, r))
            || IsExclusion(o, Counter(o, false, ExcludeAt(o)), Counter(o, true, ExcludeAt(o)), r)
            || InInterfaces(o, Counter(o, false, InterfaceAt(o)), Counter(o, true, InterfaceAt(o)), r)
            || IsProtection(o, Counter(o, false, ProtectAt(o)), Counter(o, true, ProtectAt(o)), r)
            || IsNetwork(o, Counter(o, false, NetworkAt(o)), Counter(o, true, NetworkAt(o)), r)
            || IsTunnel(o, r) || (r.priority == NopPriority(o) && r.action == Nop)
  {
    hide IsMarked;
    hide IsBackend;
    hide IsExclusion;
    hide InInterfaces;
    hide IsProtection;
    hide IsNetwork;
    hide IsTunnel4;
    hide IsTunnel6;
  }

  /** What a stage calls for is in the list. */
  lemma ListedBy(o: Options, r: Rule)
    requires Enabled(o, r.v6)
    requires || IsMarked(o, r) || (o.ipvs.Some? && IsBackend(o, o.ipvs.value, r))
             || IsExclusion(o, ExcludeAt(o), ExcludeAt(o), r) || InInterfaces(o, InterfaceAt(o), InterfaceAt(o), r)
             || IsProtection(o, ProtectAt(o), ProtectAt(o), r) || IsNetwork(o, NetworkAt(o), NetworkAt(o), r)
             || IsTunnel(o, r)
    ensures Listed(o, r)
  {
    hide IsMarked;
    hide IsBackend;
    hide IsTunnel4;
    hide IsTunnel6;
    if IsExclusion(o, ExcludeAt(o), ExcludeAt(o), r) {
      assert IsExclusion(o, Counter(o, false, ExcludeAt(o)), Counter(o, true, ExcludeAt(o)), r);
    } else if InInterfaces(o, InterfaceAt(o), InterfaceAt(o), r) {
      assert InInterfaces(o, Counter(o, false, InterfaceAt(o)), Counter(o, true, InterfaceAt(o)), r);
    } else if IsProtection(o, ProtectAt(o), ProtectAt(o), r) {
      assert IsProtection(o, Counter(o, false, ProtectAt(o)), Counter(o, true, ProtectAt(o)), r);
    } else if IsNetwork(o, NetworkAt(o), NetworkAt(o), r) {
      assert IsNetwork(o, Counter(o, false, NetworkAt(o)), Counter(o, true, NetworkAt(o)), r);
    }
  }

  lemma EndReached(o: Options, rules: seq<Rule>, p: Packet, end: int)
    requires Evaluated(o, rules, p, end)
    ensures !Reaches(o, rules, p, NopPriority(o), end)
  {
    hide Listed;
    forall i | 0 <= i < |rules| && rules[i].v6 == p.v6 && NopPriority(o) <= rules[i].priority < end
      ensures rules[i].action != Table(o.tableIndex)
    {
      assert rules[i] in rules;
      StageOf(o, rules[i]);
    }
    NotConsulted(rules, p, NopPriority(o), end, o.tableIndex);
  }

  /** Where every rule at a priority leads past the tunnel, exactly the packets they select leave. */
  lemma GateStage(o: Options, rules: seq<Rule>, p: Packet, at: int, end: int)
    requires Evaluated(o, rules, p, end) && o.ruleIndex <= at < NopPriority(o)
    requires forall r :: r in rules && r.v6 == p.v6 && r.priority == at ==> r.action == Goto(NopPriority(o))
    ensures Reaches(o, rules, p, at, end) <==> !Jumps(rules, p, at) && Reaches(o, rules, p, at + 1, end)
  {
    hide Evaluated;
    hide Reaches;
    hide Jumps;
    DivertingStage(o, rules, p, at, end);
  }

  lemma DivertingStage(o: Options, rules: seq<Rule>, p: Packet, at: int, end: int)
    requires Evaluated(o, rules, p, end) && o.ruleIndex <= at < NopPriority(o)
    requires Diverting(rules, p, at, NopPriority(o), o.tableIndex)
    ensures Reaches(o, rules, p, at, end) <==> !Jumps(rules, p, at) && Reaches(o, rules, p, at + 1, end)
  {
    EndReached(o, rules, p, end);
    assert at < end;
    hide *;
    Diverts(rules, p, at, NopPriority(o), end, o.tableIndex);
    ReachesIs(o, rules, p, at, end);
    ReachesIs(o, rules, p, at + 1, end);
    ReachesIs(o, rules, p, NopPriority(o), end);
  }

  lemma ReachesIs(o: Options, rules: seq<Rule>, p: Packet, from: int, end: int)
    ensures Reaches(o, rules, p, from, end) <==> o.tableIndex in Visit(rules, p, from, end)
  {
  }

  /** Marked packets leave. */
  lemma MarkStage(o: Options, rules: seq<Rule>, p: Packet, end: int)
    requires Evaluated(o, rules, p, end)
    ensures Reaches(o, rules, p, o.ruleIndex, end) <==>
      !(o.dnat && Bypassed(o.marks, p.mark)) && Reaches(o, rules, p, IpvsAt(o), end)
  {
    hide BypassRule;
    hide Bypassed;
    hide Reaches;
    hide Fires;
    StagesInOrder(o);
    if o.dnat {
      var x := BypassRule(o, p.v6, NopPriority(o));
      assert Fires(x, p) <==> Bypassed(o.marks, p.mark) by {
        BypassRuleFires(o, p, NopPriority(o));
      }
      BypassRuleIs(o, p.v6);
      ListedBy(o, x);
      hide Listed;
      forall r | r in rules && r.v6 == p.v6 && r.priority == o.ruleIndex ensures r == x {
        StageOf(o, r);
      }
      assert x in rules;
      GateStage(o, rules, p, o.ruleIndex, end);
      assert Jumps(rules, p, o.ruleIndex) <==> Fires(x, p) by {
        FamilyFires(rules, p);
      }
    }
  }

  /** A rule that fires is of the packet's family. */
  lemma FamilyFires(rules: seq<Rule>, p: Packet)
    ensures forall r :: r in rules && Fires(r, p) ==> r.v6 == p.v6
  {
  }

  lemma BypassRuleIs(o: Options, v6: bool)
    ensures var x := BypassRule(o, v6, NopPriority(o));
      x.v6 == v6 && x.priority == o.ruleIndex && x.action == Goto(NopPriority(o))
  {
    hide BypassMark;
    hide BypassMask;
  }

  /** Packets to an IPVS backend leave. */
  lemma BackendStage(o: Options, rules: seq<Rule>, p: Packet, end: int)
    requires Evaluated(o, rules, p, end)
    ensures Reaches(o, rules, p, IpvsAt(o), end) <==> !ToBackend(o, p) && Reaches(o, rules, p, ExcludeAt(o), end)
  {
    hide Reaches;
    hide Listed;
    StagesInOrder(o);
    if o.ipvs.Some? {
      forall r | r in rules && r.v6 == p.v6 && r.priority == IpvsAt(o) ensures IsBackend(o, o.ipvs.value, r) {
        StageOf(o, r);
      }
      GateStage(o, rules, p, IpvsAt(o), end);
      if ToBackend(o, p) {
        var d :| d in o.ipvs.value && IsTo(d, p);
        ListedBy(o, BackendRule(o, d));
        assert Fires(BackendRule(o, d), p);
        assert BackendRule(o, d) in rules;
      }
    }
  }

  /** Excluded ports and users leave. */
  lemma ExcludeStage(o: Options, rules: seq<Rule>, p: Packet, end: int)
    requires Evaluated(o, rules, p, end)
    ensures Reaches(o, rules, p, ExcludeAt(o), end) <==> !IsExcluded(o, p) && Reaches(o, rules, p, InterfaceAt(o), end)
  {
    hide Reaches;
    hide Listed;
    StagesInOrder(o);
    if HasExclusions(o) {
      forall r | r in rules && r.v6 == p.v6 && r.priority == ExcludeAt(o)
        ensures IsExclusion(o, ExcludeAt(o), ExcludeAt(o), r)
      {
        StageOf(o, r);
      }
      GateStage(o, rules, p, ExcludeAt(o), end);
      if IsExcluded(o, p) {
        var s := ExcludedBy(o, p);
        var r := Plain(p.v6, ExcludeAt(o), s, Goto(NopPriority(o)));
        ListedBy(o, r);
        assert r in rules && Fires(r, p);
      }
    }
  }

  lemma ExcludedBy(o: Options, p: Packet) returns (s: Selector)
    requires IsExcluded(o, p)
    ensures Excluded(o, s) && Selects(s, p)
  {
    if InSome(o.excludeSrcPort, p.sport) {
      var r :| r in o.excludeSrcPort && InRange(r, p.sport);
      s := Sport(r);
    } else if InSome(o.excludeDstPort, p.dport) {
      var r :| r in o.excludeDstPort && InRange(r, p.dport);
      s := Dport(r);
    } else {
      var r :| r in o.excludedRanges && InRange(r, p.uid);
      s := Uid(r);
    }
  }

  /** Packets from interfaces that are not included, or are excluded, leave. */
  lemma InterfaceStage(o: Options, rules: seq<Rule>, p: Packet, end: int)
    requires Evaluated(o, rules, p, end)
    ensures Reaches(o, rules, p, InterfaceAt(o), end) <==> Admitted(o, p) && Reaches(o, rules, p, ProtectAt(o), end)
  {
    if o.includeInterface != [] {
      IncludeStage(o, rules, p, end);
    } else if o.excludeInterface != [] {
      ExcludeInterfaceStage(o, rules, p, end);
    }
  }

  lemma ExcludeInterfaceStage(o: Options, rules: seq<Rule>, p: Packet, end: int)
    requires Evaluated(o, rules, p, end) && o.includeInterface == [] && o.excludeInterface != []
    ensures Reaches(o, rules, p, InterfaceAt(o), end) <==> Admitted(o, p) && Reaches(o, rules, p, ProtectAt(o), end)
  {
    hide Reaches;
    hide Listed;
    StagesInOrder(o);
    var at := InterfaceAt(o);
    forall r | r in rules && r.v6 == p.v6 && r.priority == at ensures InInterfaces(o, at, at, r) {
      StageOf(o, r);
    }
    GateStage(o, rules, p, at, end);
    if p.iif in o.excludeInterface {
      var r := Plain(p.v6, at, Iif(p.iif), Goto(NopPriority(o)));
      ListedBy(o, r);
      assert r in rules && Fires(r, p);
    }
  }

  /** Included interfaces jump over the gate that the others leave by. */
  lemma IncludeStage(o: Options, rules: seq<Rule>, p: Packet, end: int)
    requires Evaluated(o, rules, p, end) && o.includeInterface != []
    ensures Reaches(o, rules, p, InterfaceAt(o), end) <==> Admitted(o, p) && Reaches(o, rules, p, ProtectAt(o), end)
  {
    hide Reaches;
    hide Evaluated;
    hide ExcludeAt;
    EntryTurn(o, rules, p, end);
    GateTurn(o, rules, p, end);
    LandingTurn(o, rules, p, end);
  }

  lemma GateTurn(o: Options, rules: seq<Rule>, p: Packet, end: int)
    requires Evaluated(o, rules, p, end) && o.includeInterface != []
    ensures !Reaches(o, rules, p, InterfaceAt(o) + 1, end)
  {
    hide Reaches;
    hide Listed;
    StagesInOrder(o);
    var at := InterfaceAt(o);
    forall r | r in rules && r.v6 == p.v6 && r.priority == at + 1 ensures InInterfaces(o, at, at, r) {
      StageOf(o, r);
    }
    var gate := GateRule(o, p.v6, at);
    ListedBy(o, gate);
    assert gate in rules && Fires(gate, p);
    GateStage(o, rules, p, at + 1, end);
  }

  lemma LandingTurn(o: Options, rules: seq<Rule>, p: Packet, end: int)
    requires Evaluated(o, rules, p, end) && o.includeInterface != []
    ensures Reaches(o, rules, p, InterfaceAt(o) + 2, end) <==> Reaches(o, rules, p, ProtectAt(o), end)
  {
    hide Visit;
    hide Listed;
    StagesInOrder(o);
    var at := InterfaceAt(o);
    forall r | r in rules && r.v6 == p.v6 && r.priority == at + 2 ensures InInterfaces(o, at, at, r) {
      StageOf(o, r);
    }
    assert Leading(rules, p, at + 2) && !Looks(rules, p, at + 2, o.tableIndex);
    Leads(rules, p, at + 2, end, o.tableIndex);
  }

  lemma EntryTurn(o: Options, rules: seq<Rule>, p: Packet, end: int)
    requires Evaluated(o, rules, p, end) && o.includeInterface != []
    ensures var at := InterfaceAt(o);
      Reaches(o, rules, p, at, end) <==>
        Reaches(o, rules, p, if p.iif in o.includeInterface then at + 2 else at + 1, end)
  {
    hide Visit;
    hide Listed;
    StagesInOrder(o);
    var at := InterfaceAt(o);
    forall r | r in rules && r.v6 == p.v6 && r.priority == at ensures InInterfaces(o, at, at, r) {
      StageOf(o, r);
    }
    assert Diverting(rules, p, at, at + 2, o.tableIndex);
    Diverts(rules, p, at, at + 2, end, o.tableIndex);
    if p.iif in o.includeInterface {
      var r := Plain(p.v6, at, Iif(p.iif), Goto(at + 2));
      ListedBy(o, r);
      assert r in rules && Fires(r, p);
    }
  }

  /** Packets left to the Android VPN leave. */
  lemma ProtectStage(o: Options, rules: seq<Rule>, p: Packet, end: int)
    requires Evaluated(o, rules, p, end)
    ensures Reaches(o, rules, p, ProtectAt(o), end) <==> !LeftToVpn(o, p) && Reaches(o, rules, p, NetworkAt(o), end)
  {
    hide Reaches;
    hide Listed;
    hide MarkMatches;
    hide VpnTest;
    StagesInOrder(o);
    if o.android && o.androidVPN {
      var at := ProtectAt(o);
      forall r | r in rules && r.v6 == p.v6 && r.priority == at ensures IsProtection(o, at, at, r) {
        StageOf(o, r);
      }
      var x := Rule(p.v6, at, VpnTest(o), Any, Goto(NopPriority(o)));
      ListedBy(o, x);
      assert x in rules;
      GateStage(o, rules, p, at, end);
    }
  }

  /** The rules of a family from its networks on. */
  lemma TailRulesAt(o: Options, rules: seq<Rule>, p: Packet, end: int)
    requires Evaluated(o, rules, p, end)
    ensures forall r :: r in rules && r.v6 == p.v6 && NetworkAt(o) <= r.priority < NopPriority(o) ==>
      IsNetwork(o, NetworkAt(o), NetworkAt(o), r) || IsTunnel(o, r)
  {
    hide Listed;
    hide IsNetwork;
    hide IsTunnel;
    forall r | r in rules && r.v6 == p.v6 && NetworkAt(o) <= r.priority < NopPriority(o)
      ensures IsNetwork(o, NetworkAt(o), NetworkAt(o), r) || IsTunnel(o, r)
    {
      StageOf(o, r);
    }
  }

  /** Outside Android, packets to the tunnel's own networks look in its table. */
  lemma NetworkTurn4(o: Options, rules: seq<Rule>, p: Packet, end: int)
    requires Evaluated(o, rules, p, end) && !p.v6
    ensures Reaches(o, rules, p, NetworkAt(o), end) <==>
      (!o.android && InSome(o.inet4, p.dst)) || Reaches(o, rules, p, TunnelAt(o, false), end)
  {
    hide Visit;
    hide Listed;
    StagesInOrder(o);
    if !o.android {
      var at := NetworkAt(o);
      TailRulesAt(o, rules, p, end);
      assert Leading(rules, p, at);
      Leads(rules, p, at, end, o.tableIndex);
      if InSome(o.inet4, p.dst) {
        var x :| x in o.inet4 && InRange(x, p.dst);
        var r := Plain(false, at, Dst(x), Table(o.tableIndex));
        ListedBy(o, r);
        assert r in rules && Fires(r, p);
      }
    }
  }

  lemma OwnRules4(o: Options, rules: seq<Rule>, p: Packet, end: int)
    requires Evaluated(o, rules, p, end) && !p.v6
    ensures forall r :: r in rules && r.v6 == p.v6 && r.priority == TunnelAt(o, false) ==>
      || r == Plain(false, TunnelAt(o, false), Iif(o.name), Goto(NopPriority(o)))
      || r.action == Table(MAIN_TABLE)
  {
    StagesInOrder(o);
    TailRulesAt(o, rules, p, end);
    hide Listed;
  }

  /** A packet jumps there exactly if it comes from the tunnel. */
  lemma OwnJumps4(o: Options, rules: seq<Rule>, p: Packet, end: int)
    requires Evaluated(o, rules, p, end) && !p.v6
    ensures Diverting(rules, p, TunnelAt(o, false), NopPriority(o), o.tableIndex)
    ensures Jumps(rules, p, TunnelAt(o, false)) <==> p.iif == o.name
  {
    OwnRules4(o, rules, p, end);
    var r := Plain(false, TunnelAt(o, false), Iif(o.name), Goto(NopPriority(o)));
    if p.iif == o.name {
      Leaving(o, rules, p, r);
    }
    hide Listed;
    hide TunnelAt;
    hide NopPriority;
  }

  /** Packets from the tunnel leave. */
  lemma OwnTurn4(o: Options, rules: seq<Rule>, p: Packet, end: int)
    requires Evaluated(o, rules, p, end) && !p.v6
    ensures Reaches(o, rules, p, TunnelAt(o, false), end) <==>
      p.iif != o.name && Reaches(o, rules, p, TunnelAt(o, false) + 1, end)
  {
    hide *;
    StagesInOrder(o);
    OwnJumps4(o, rules, p, end);
    DivertingStage(o, rules, p, TunnelAt(o, false), end);
  }

  /** Packets that are not local, or come from an address of the tunnel, look in its table. */
  lemma SourceTurn4(o: Options, rules: seq<Rule>, p: Packet, end: int)
    requires Evaluated(o, rules, p, end) && !p.v6
    ensures Reaches(o, rules, p, TunnelAt(o, false) + 1, end) <==> p.iif != "lo" || p.src == 0 || InSome(o.inet4, p.src)
  {
    StagesInOrder(o);
    hide Visit;
    hide Listed;
    var at := TunnelAt(o, false) + 1;
    TailRulesAt(o, rules, p, end);
    assert Leading(rules, p, at);
    Leads(rules, p, at, end, o.tableIndex);
    NothingLeft(o, rules, p, at + 1, end);
    if p.iif != "lo" {
      Looking(o, rules, p, Plain(false, at, NotIif("lo"), Table(o.tableIndex)));
    } else if p.src == 0 {
      Looking(o, rules, p, Plain(false, at, IifSrc("lo", Range(0, 0)), Table(o.tableIndex)));
    } else if InSome(o.inet4, p.src) {
      var x :| x in o.inet4 && InRange(x, p.src);
      Looking(o, rules, p, Plain(false, at, IifSrc("lo", x), Table(o.tableIndex)));
    }
  }

  lemma Looking(o: Options, rules: seq<Rule>, p: Packet, r: Rule)
    requires Exact(o, rules) && Enabled(o, r.v6) && IsTunnel(o, r) && Fires(r, p) && r.action == Table(o.tableIndex)
    ensures Looks(rules, p, r.priority, o.tableIndex)
  {
    hide IsTunnel;
    hide Listed;
    hide Fires;
    ListedBy(o, r);
    assert r in rules;
  }

  lemma NothingLeft(o: Options, rules: seq<Rule>, p: Packet, from: int, end: int)
    requires Evaluated(o, rules, p, end) && from > if p.v6 then TunnelAt(o, true) + 2 else TunnelAt(o, false) + 1
    ensures !Reaches(o, rules, p, from, end)
  {
    hide Listed;
    StagesInOrder(o);
    forall i | 0 <= i < |rules| && rules[i].v6 == p.v6 && from <= rules[i].priority < end
      ensures rules[i].action != Table(o.tableIndex)
    {
      assert rules[i] in rules;
      StageOf(o, rules[i]);
    }
    NotConsulted(rules, p, from, end, o.tableIndex);
  }

  lemma TunnelStage4(o: Options, rules: seq<Rule>, p: Packet, end: int)
    requires Evaluated(o, rules, p, end) && !p.v6
    ensures Reaches(o, rules, p, NetworkAt(o), end) <==> Routed4(o, p)
  {
    hide Reaches;
    hide Evaluated;
    hide NetworkAt;
    NetworkTurn4(o, rules, p, end);
    OwnTurn4(o, rules, p, end);
    SourceTurn4(o, rules, p, end);
  }

  /** Local packets from an address of the tunnel look in its table. */
  lemma SourceTurn6(o: Options, rules: seq<Rule>, p: Packet, end: int)
    requires Evaluated(o, rules, p, end) && p.v6
    ensures Reaches(o, rules, p, NetworkAt(o), end) <==>
      (p.iif == "lo" && InSome(o.inet6, p.src)) || Reaches(o, rules, p, NetworkAt(o) + 1, end)
  {
    hide Visit;
    hide Listed;
    StagesInOrder(o);
    var at := NetworkAt(o);
    TailRulesAt(o, rules, p, end);
    assert Leading(rules, p, at);
    Leads(rules, p, at, end, o.tableIndex);
    if p.iif == "lo" && InSome(o.inet6, p.src) {
      var x :| x in o.inet6 && InRange(x, p.src);
      Looking(o, rules, p, Plain(true, at, IifSrc("lo", x), Table(o.tableIndex)));
    }
  }

  /** Packets from the tunnel, and other local ones, leave. */
  lemma LocalTurn6(o: Options, rules: seq<Rule>, p: Packet, end: int)
    requires Evaluated(o, rules, p, end) && p.v6
    ensures Reaches(o, rules, p, NetworkAt(o) + 1, end) <==>
      p.iif != o.name && !(p.iif == "lo" && p.src < 2 * HALF) && Reaches(o, rules, p, NetworkAt(o) + 2, end)
  {
    hide Reaches;
    hide Listed;
    StagesInOrder(o);
    var at, past := NetworkAt(o) + 1, Goto(NopPriority(o));
    TailRulesAt(o, rules, p, end);
    GateStage(o, rules, p, at, end);
    if p.iif == o.name {
      Leaving(o, rules, p, Plain(true, at, Iif(o.name), past));
    } else if p.iif == "lo" && p.src < HALF {
      Leaving(o, rules, p, Plain(true, at, IifSrc("lo", LOW_HALF), past));
    } else if p.iif == "lo" && p.src < 2 * HALF {
      Leaving(o, rules, p, Plain(true, at, IifSrc("lo", HIGH_HALF), past));
    }
  }

  lemma Leaving(o: Options, rules: seq<Rule>, p: Packet, r: Rule)
    requires Exact(o, rules) && Enabled(o, r.v6) && IsTunnel(o, r) && Fires(r, p) && r.action == Goto(NopPriority(o))
    ensures Jumps(rules, p, r.priority)
  {
    hide IsTunnel;
    hide Listed;
    hide Fires;
    ListedBy(o, r);
    assert r in rules;
  }

  /** Whatever is left looks in the tunnel's table. */
  lemma LastTurn6(o: Options, rules: seq<Rule>, p: Packet, end: int)
    requires Evaluated(o, rules, p, end) && p.v6
    ensures Reaches(o, rules, p, NetworkAt(o) + 2, end)
  {
    hide Visit;
    hide Listed;
    StagesInOrder(o);
    var at := NetworkAt(o) + 2;
    TailRulesAt(o, rules, p, end);
    assert Leading(rules, p, at);
    Leads(rules, p, at, end, o.tableIndex);
    Looking(o, rules, p, Plain(true, at, Any, Table(o.tableIndex)));
  }

  lemma TunnelStage6(o: Options, rules: seq<Rule>, p: Packet, end: int)
    requires Evaluated(o, rules, p, end) && p.v6
    ensures Reaches(o, rules, p, NetworkAt(o), end) <==> Routed6(o, p)
  {
    hide Reaches;
    hide Evaluated;
    hide NetworkAt;
    SourceTurn6(o, rules, p, end);
    LocalTurn6(o, rules, p, end);
    LastTurn6(o, rules, p, end);
  }

  /**
  A family without addresses looks in no table; its packets are unreachable exactly under strict
  routing.
  */
  lemma {:induction false} DisabledExact(o: Options, rules: seq<Rule>, p: Packet, end: int)
    requires Exact(o, rules) && !Enabled(o, p.v6)
    ensures Visit(rules, p, o.ruleIndex, end) == []
    ensures At(rules, p, o.ruleIndex).stop <==> o.strictRoute
  {
    hide Listed;
    DisabledVisit(o, rules, p, o.ruleIndex, end);
    StopsAt(o, rules, p);
  }

  lemma {:induction false} DisabledVisit(o: Options, rules: seq<Rule>, p: Packet, from: int, end: int)
    requires forall r :: r in rules && r.v6 == p.v6 ==> r.action == Unreachable
    ensures Visit(rules, p, from, end) == []
    decreases end - from
  {
    if from < end {
      NoTables(rules, p, from);
      DisabledVisit(o, rules, p, from + 1, end);
    }
  }

  lemma {:induction false} NoTables(rules: seq<Rule>, p: Packet, priority: int)
    requires forall r :: r in rules && r.v6 == p.v6 ==> r.action == Unreachable
    ensures var t := At(rules, p, priority); t.tables == [] && t.jump == None
    ensures At(rules, p, priority).stop <==> exists r :: r in rules && r.priority == priority && Fires(r, p)
    decreases |rules|
  {
    if rules != [] {
      RestOf(rules);
      NoTables(rules[1..], p, priority);
    }
  }

  lemma StopsAt(o: Options, rules: seq<Rule>, p: Packet)
    requires Exact(o, rules) && !Enabled(o, p.v6)
    ensures At(rules, p, o.ruleIndex).stop <==> o.strictRoute
  {
    hide Listed;
    hide At;
    FamilyFires(rules, p);
    NoTables(rules, p, o.ruleIndex);
    var r := Plain(p.v6, o.ruleIndex, Any, Unreachable);
    assert o.strictRoute ==> r in rules && Fires(r, p);
  }

  /** A packet looks in the tunnel's table if and only if the options say that it enters. */
  lemma TunnelExact(o: Options, rules: seq<Rule>, p: Packet, end: int)
    requires Exact(o, rules) && end >= NopPriority(o) && o.tableIndex != MAIN_TABLE
    ensures o.tableIndex in Visit(rules, p, o.ruleIndex, end) <==> Enters(o, p)
  {
    if !Enabled(o, p.v6) {
      DisabledExact(o, rules, p, end);
    } else {
      assert Evaluated(o, rules, p, end);
      ReachesIs(o, rules, p, o.ruleIndex, end);
      EntersIs(o, p);
      hide *;
      MarkStage(o, rules, p, end);
      BackendStage(o, rules, p, end);
      ExcludeStage(o, rules, p, end);
      InterfaceStage(o, rules, p, end);
      ProtectStage(o, rules, p, end);
      if p.v6 {
        TunnelStage6(o, rules, p, end);
      } else {
        TunnelStage4(o, rules, p, end);
      }
    }
  }

  lemma EntersIs(o: Options, p: Packet)
    requires Enabled(o, p.v6)
    ensures Enters(o, p) <==>
      && !(o.dnat && Bypassed(o.marks, p.mark)) && !ToBackend(o, p) && !IsExcluded(o, p)
      && Admitted(o, p) && !LeftToVpn(o, p) && (if p.v6 then Routed6(o, p) else Routed4(o, p))
  {
    hide Bypassed;
  }

  /** In mark mode, the packets that are taken past the tunnel. */
  predicate PastInMarkMode(o: Options, mark: bv32) {
    if o.dnat then Bypassed(o.marks, mark) else o.marks.outputMark == 0 || mark == o.marks.outputMark
  }

  /** In mark mode, the packets that are led into the tunnel unless taken past it. */
  predicate InputMarked(o: Options, mark: bv32) {
    o.marks.inputMark == 0 || mark == o.marks.inputMark
  }

  lemma FirstMarkFires(o: Options, p: Packet)
    ensures Fires(FirstMarkRule(o, p.v6), p) <==> PastInMarkMode(o, p.mark)
    ensures var r := FirstMarkRule(o, p.v6);
      r.v6 == p.v6 && r.priority == o.ruleIndex && r.action == Goto(o.ruleIndex + 2)
  {
    hide BypassMark;
    hide BypassMask;
    hide UnderMask;
  }

  lemma InputMarkFires(o: Options, p: Packet)
    ensures Fires(InputRule(o, p.v6), p) <==> InputMarked(o, p.mark)
  {
  }

  /** The rules of mark mode at a priority before the fallback. */
  lemma MarkRulesAt(o: Options, p: Packet, priority: int)
    requires priority != o.fallbackIndex
    ensures forall r :: r in MarkModeRules(o) && r.v6 == p.v6 && r.priority == priority ==>
      && Enabled(o, p.v6)
      && (|| (priority == o.ruleIndex && r == FirstMarkRule(o, p.v6))
          || (priority == o.ruleIndex + 1 && r == InputRule(o, p.v6))
          || (priority == o.ruleIndex + 2 && r.action == Nop))
  {
    hide MarkModeRules;
    hide BypassMark;
    hide BypassMask;
    forall r | r in MarkModeRules(o) ensures InMarkMode(o, r) {
      MarkModeMembers(o, r);
    }
  }

  /** What follows the three rules does not look in the tunnel's table before the fallback. */
  lemma MarkRest(o: Options, p: Packet, from: int, end: int)
    requires from >= o.ruleIndex + 2 && (end <= o.fallbackIndex || o.fallbackIndex < o.ruleIndex)
    ensures o.tableIndex !in Visit(MarkModeRules(o), p, from, end)
  {
    hide MarkModeRules;
    hide FirstMarkRule;
    var rules := MarkModeRules(o);
    forall i | 0 <= i < |rules| && rules[i].v6 == p.v6 && from <= rules[i].priority < end
      ensures rules[i].action != Table(o.tableIndex)
    {
      assert rules[i] in rules;
      MarkRulesAt(o, p, rules[i].priority);
    }
    NotConsulted(rules, p, from, end, o.tableIndex);
  }

  /** The first rule of mark mode takes packets over the second. */
  lemma FirstTurn(o: Options, p: Packet, end: int)
    requires Enabled(o, p.v6) && o.ruleIndex + 2 <= end && (end <= o.fallbackIndex || o.fallbackIndex < o.ruleIndex)
    ensures var rules := MarkModeRules(o);
      o.tableIndex in Visit(rules, p, o.ruleIndex, end) <==>
        !PastInMarkMode(o, p.mark) && o.tableIndex in Visit(rules, p, o.ruleIndex + 1, end)
  {
    hide MarkModeRules;
    hide FirstMarkRule;
    hide PastInMarkMode;
    hide Fires;
    hide Visit;
    var rules, first := MarkModeRules(o), FirstMarkRule(o, p.v6);
    FirstMarkFires(o, p);
    FamilyFires(rules, p);
    MarkRulesAt(o, p, o.ruleIndex);
    MarkModeMembers(o, first);
    assert first in rules;
    Diverts(rules, p, o.ruleIndex, o.ruleIndex + 2, end, o.tableIndex);
    MarkRest(o, p, o.ruleIndex + 2, end);
  }

  /** The second leads packets into the tunnel. */
  lemma InputTurn(o: Options, p: Packet, end: int)
    requires Enabled(o, p.v6) && o.ruleIndex + 2 <= end && (end <= o.fallbackIndex || o.fallbackIndex < o.ruleIndex)
    ensures o.tableIndex in Visit(MarkModeRules(o), p, o.ruleIndex + 1, end) <==> InputMarked(o, p.mark)
  {
    hide MarkModeRules;
    hide FirstMarkRule;
    hide InputMarked;
    hide Fires;
    hide Visit;
    var rules, input := MarkModeRules(o), InputRule(o, p.v6);
    InputMarkFires(o, p);
    FamilyFires(rules, p);
    MarkRulesAt(o, p, o.ruleIndex + 1);
    MarkModeMembers(o, input);
    assert input in rules;
    Leads(rules, p, o.ruleIndex + 1, end, o.tableIndex);
    MarkRest(o, p, o.ruleIndex + 2, end);
  }

  /**
  In mark mode, up to the fallback, a packet looks in the tunnel's table if and only if its family
  is enabled, it has the input mark, and it has not the output mark, or with the DNAT bypass the
  bypass mark.
  */
  lemma MarkTunnelExact(o: Options, p: Packet, end: int)
    requires o.ruleIndex + 2 <= end && (end <= o.fallbackIndex || o.fallbackIndex < o.ruleIndex)
    ensures o.tableIndex in Visit(MarkModeRules(o), p, o.ruleIndex, end) <==>
      Enabled(o, p.v6) && InputMarked(o, p.mark) && !PastInMarkMode(o, p.mark)
  {
    hide *;
    if Enabled(o, p.v6) {
      FirstTurn(o, p, end);
      InputTurn(o, p, end);
    } else {
      MarkDisabled(o, p, end);
    }
  }

  lemma MarkDisabled(o: Options, p: Packet, end: int)
    requires !Enabled(o, p.v6)
    ensures o.tableIndex !in Visit(MarkModeRules(o), p, o.ruleIndex, end)
  {
    hide MarkModeRules;
    hide FirstMarkRule;
    var rules := MarkModeRules(o);
    forall r | r in rules ensures r.v6 != p.v6 {
      MarkModeMembers(o, r);
    }
    NotConsulted(rules, p, o.ruleIndex, end, o.tableIndex);
  }

  /** From the fallback on, every packet of an enabled family looks in the tunnel's table. */
  lemma FallbackReached(o: Options, p: Packet, end: int)
    requires o.fallbackIndex > o.ruleIndex + 2 && o.fallbackIndex < end
    ensures o.tableIndex in Visit(MarkModeRules(o), p, o.fallbackIndex, end) <==> Enabled(o, p.v6)
  {
    hide MarkModeRules;
    hide FirstMarkRule;
    hide Visit;
    var rules, last := MarkModeRules(o), FallbackRule(o, p.v6);
    forall r | r in rules ensures InMarkMode(o, r) {
      MarkModeMembers(o, r);
    }
    MarkModeMembers(o, last);
    FirstMarkFires(o, p);
    FamilyFires(rules, p);
    assert Enabled(o, p.v6) ==> last in rules && Fires(last, p);
    assert Leading(rules, p, o.fallbackIndex);
    Leads(rules, p, o.fallbackIndex, end, o.tableIndex);
    forall i | 0 <= i < |rules| && rules[i].v6 == p.v6 && o.fallbackIndex + 1 <= rules[i].priority < end
      ensures rules[i].action != Table(o.tableIndex)
    {
      assert rules[i] in rules;
    }
    NotConsulted(rules, p, o.fallbackIndex + 1, end, o.tableIndex);
  }

  lemma PassesOne(rules: seq<Rule>, p: Packet, at: int, table: int)
    requires forall r :: r in rules && r.v6 == p.v6 && r.priority == at ==> r.action == Nop
    ensures Leading(rules, p, at) && !Looks(rules, p, at, table)
  {
  }

  /** Priorities at which nothing jumps, stops or looks in the table are passed. */
  lemma {:induction false} PassedOver(rules: seq<Rule>, p: Packet, from: int, until: int, end: int, table: int)
    requires from <= until < end
    requires forall r :: r in rules && r.v6 == p.v6 && from <= r.priority < until ==> r.action == Nop
    ensures table in Visit(rules, p, from, end) <==> table in Visit(rules, p, until, end)
    decreases until - from
  {
    hide Visit;
    if from < until {
      PassesOne(rules, p, from, table);
      Leads(rules, p, from, end, table);
      PassedOver(rules, p, from + 1, until, end, table);
    }
  }

  /** In mark mode every packet of an enabled family that finds no other route gets to the tunnel's table. */
  lemma FallbackExact(o: Options, p: Packet, end: int)
    requires o.fallbackIndex > o.ruleIndex + 2 && o.fallbackIndex < end
    ensures o.tableIndex in Visit(MarkModeRules(o), p, o.ruleIndex, end) <==> Enabled(o, p.v6)
  {
    hide MarkModeRules;
    hide FirstMarkRule;
    hide Fires;
    hide Visit;
    if Enabled(o, p.v6) {
      var rules, at := MarkModeRules(o), o.ruleIndex;
      FirstMarkFires(o, p);
      FamilyFires(rules, p);
      MarkRulesAt(o, p, at);
      MarkRulesAt(o, p, at + 1);
      Diverts(rules, p, at, at + 2, end, o.tableIndex);
      Leads(rules, p, at + 1, end, o.tableIndex);
      forall r | r in rules && r.v6 == p.v6 && at + 2 <= r.priority < o.fallbackIndex ensures r.action == Nop {
        MarkRulesAt(o, p, r.priority);
      }
      PassedOver(rules, p, at + 2, o.fallbackIndex, end, o.tableIndex);
      FallbackReached(o, p, end);
    } else {
      MarkDisabled(o, p, end);
    }
  }
}
