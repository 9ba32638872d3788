/** What the generated policy rules do to every packet, and that they can all be removed again. */
module RuleProperties {
  import opened Wrappers
  import opened PolicyRules
  import opened Marks
  import opened IpvsSets
  import opened RuleCompiler
  import IpvsBypass

  /** A list generated with AutoRoute. */
  ghost predicate Generated(o: Options, rules: seq<Rule>) {
    if !Enabled(o, false) && !Enabled(o, true) then rules == []
    else if o.marks.markMode then rules == MarkModeRules(o)
    else Compiled(o, rules)
  }

  /** The priorities unsetRules removes. */
  predicate Owned(o: Options, priority: int) {
    o.ruleIndex <= priority <= o.ruleIndex + 10 || (o.marks.markMode && priority == o.fallbackIndex)
  }

  /** Four rules per enabled family. */
  predicate InMarkMode(o: Options, r: Rule) {
    && Enabled(o, r.v6)
    && (|| r == FirstMarkRule(o, r.v6) || r == InputRule(o, r.v6)
        || r == Plain(r.v6, o.ruleIndex + 2, Any, Nop) || r == FallbackRule(o, r.v6))
  }

  /** Membership in the list of mark mode. */
  lemma MarkModeMembers(o: Options, r: Rule)
    ensures r in MarkModeRules(o) <==> InMarkMode(o, r)
  {
    hide BypassMark;
    hide BypassMask;
    var family := (v6: bool) => [FirstMarkRule(o, v6), InputRule(o, v6), Plain(v6, o.ruleIndex + 2, Any, Nop)];
    var four := if Enabled(o, false) then family(false) else [];
    var six := if Enabled(o, true) then family(true) else [];
    assert MarkModeRules(o) == four + six + PerFamily(o, FallbackRule(o, false), FallbackRule(o, true));
  }

  /** Every jump leads to a rule of the same family at a larger priority, so evaluation ends. */
  lemma JumpsForward(o: Options, rules: seq<Rule>, r: Rule)
    requires Generated(o, rules) && r in rules && r.action.Goto?
    ensures r.action.target > r.priority && HasRule(rules, r.v6, r.action.target)
  {
    hide BypassMark;
    hide BypassMask;
    if o.marks.markMode {
      MarkModeMembers(o, r);
      var nop := Plain(r.v6, o.ruleIndex + 2, Any, Nop);
      MarkModeMembers(o, nop);
      var i :| 0 <= i < |rules| && rules[i] == nop;
    } else {
      assert Placed(o, r);
    }
  }

  /** Every rule stands where unsetRules looks. */
  lemma AllOwned(o: Options, rules: seq<Rule>, r: Rule)
    requires Generated(o, rules) && r in rules
    ensures Owned(o, r.priority)
  {
    hide BypassMark;
    hide BypassMask;
    if o.marks.markMode && rules != [] {
      MarkModeMembers(o, r);
    } else {
      assert Placed(o, r);
    }
  }

  /** So do the rules the IPVS bypass adds later. */
  lemma IpvsOwned(o: Options, i: IpvsBypass.Options, d: Dest)
    requires i.ruleIndex == o.ruleIndex && IpvsBypass.RuleFor(i, d).Some?
    ensures Owned(o, IpvsBypass.RuleFor(i, d).value.priority)
    ensures IpvsBypass.RuleFor(i, d).value.goto == NopPriority(o) > IpvsBypass.RuleFor(i, d).value.priority
  {
  }

  /** Where nothing but jumps to the end fire, a packet goes on or jumps to the end. */
  lemma {:induction false} JumpsOrPasses(rules: seq<Rule>, p: Packet, priority: int, target: int)
    requires forall r :: r in rules && Fires(r, p) && r.priority == priority ==> r.action == Goto(target)
    ensures At(rules, p, priority) == Turn([], Some(target), false) || At(rules, p, priority) == Turn([], None, false)
    ensures (exists r :: r in rules && r.priority == priority && Fires(r, p)) ==>
      At(rules, p, priority).jump == Some(target)
    decreases |rules|
  {
    if rules != [] {
      assert rules[0] in rules;
      assert forall r :: r in rules <==> r == rules[0] || r in rules[1..];
      JumpsOrPasses(rules[1..], p, priority, target);
    }
  }

  /** Behind nothing but jumps to the end, a packet that one of them selects ends up there. */
  lemma {:induction false} JumpsToEnd(rules: seq<Rule>, p: Packet, x: Rule, from: int, end: int, nop: int, table: int)
    requires x in rules && Fires(x, p) && from <= x.priority < nop
    requires forall r :: r in rules && Fires(r, p) && r.priority <= x.priority ==> r.action == Goto(nop)
    requires table !in Visit(rules, p, nop, end)
    ensures table !in Visit(rules, p, from, end)
    decreases x.priority - from
  {
    hide Fires;
    hide At;
    if from < end {
      JumpsOrPasses(rules, p, from, nop);
      VisitStep(rules, p, from, end);
      hide Visit;
      if At(rules, p, from).jump.None? {
        JumpsToEnd(rules, p, x, from + 1, end, nop, table);
      }
    }
  }

  /** A packet an exempting rule selects never looks in the tunnel's table. */
  lemma ExemptSkipsTunnel(o: Options, rules: seq<Rule>, p: Packet, x: Rule, end: int)
    requires Compiled(o, rules) && Exempting(o, rules, x) && Fires(x, p)
    ensures o.tableIndex !in Visit(rules, p, o.ruleIndex, end)
  {
    PastTheEnd(o, rules, p, end);
    assert Placed(o, x);
    hide Compiled;
    hide Placed;
    JumpsToEnd(rules, p, x, o.ruleIndex, end, NopPriority(o), o.tableIndex);
  }

  lemma PastTheEnd(o: Options, rules: seq<Rule>, p: Packet, end: int)
    requires Compiled(o, rules)
    ensures o.tableIndex !in Visit(rules, p, NopPriority(o), end)
  {
    forall i | 0 <= i < |rules| && rules[i].v6 == p.v6 && NopPriority(o) <= rules[i].priority < end
      ensures rules[i].action != Table(o.tableIndex)
    {
      assert Placed(o, rules[i]);
    }
    NotConsulted(rules, p, NopPriority(o), end, o.tableIndex);
  }

  /** A packet a gate selects, and no included interface lets in, never looks in the tunnel's table. */
  lemma GateSkipsTunnel(o: Options, rules: seq<Rule>, p: Packet, s: Selector, end: int)
    requires Compiled(o, rules) && GatesFirst(o, rules, s, p.v6) && Selects(s, p) && p.iif !in o.includeInterface
    ensures o.tableIndex !in Visit(rules, p, o.ruleIndex, end)
  {
    PastTheEnd(o, rules, p, end);
    var i :| 0 <= i < |rules| && rules[i] == Plain(p.v6, rules[i].priority, s, Goto(NopPriority(o)))
      && Gate(o, rules, rules[i]);
    var x := rules[i];
    assert Placed(o, x);
    hide Compiled;
    hide Placed;
    JumpsToEnd(rules, p, x, o.ruleIndex, end, NopPriority(o), o.tableIndex);
  }

  /** With interfaces to include, no packet from another interface reaches the tunnel. */
  lemma OnlyIncludedEnter(o: Options, rules: seq<Rule>, p: Packet, end: int)
    requires Compiled(o, rules) && o.includeInterface != [] && p.iif !in o.includeInterface && Enabled(o, p.v6)
    ensures o.tableIndex !in Visit(rules, p, o.ruleIndex, end)
  {
    GateSkipsTunnel(o, rules, p, Any, end);
  }

  /** Without them, no packet from an excluded interface does. */
  lemma ExcludedInterfaceSkips(o: Options, rules: seq<Rule>, p: Packet, end: int)
    requires Compiled(o, rules) && o.includeInterface == [] && p.iif in o.excludeInterface && Enabled(o, p.v6)
    ensures o.tableIndex !in Visit(rules, p, o.ruleIndex, end)
  {
    var j :| 0 <= j < |o.excludeInterface| && o.excludeInterface[j] == p.iif;
    assert GatesFirst(o, rules, Iif(o.excludeInterface[j]), p.v6);
    GateSkipsTunnel(o, rules, p, Iif(p.iif), end);
  }

  /** Excluded ports and users never reach the tunnel. */
  lemma ExcludedSkipsTunnel(o: Options, rules: seq<Rule>, p: Packet, s: Selector, end: int)
    requires Compiled(o, rules) && Excluded(o, s) && Selects(s, p) && Enabled(o, p.v6)
    ensures o.tableIndex !in Visit(rules, p, o.ruleIndex, end)
  {
    assert ExemptsFirst(o, rules, s, p.v6);
    var i :| 0 <= i < |rules| && rules[i] == Plain(p.v6, rules[i].priority, s, Goto(NopPriority(o)))
      && Exempting(o, rules, rules[i]);
    assert Placed(o, rules[i]);
    ExemptSkipsTunnel(o, rules, p, rules[i], end);
  }

  /** DNS packets to an IPVS backend never reach the tunnel. */
  lemma BackendSkipsTunnel(o: Options, rules: seq<Rule>, p: Packet, d: Dest, end: int)
    requires Compiled(o, rules) && o.ipvs.Some? && d in o.ipvs.value && Enabled(o, p.v6) && d.addr.V6? == p.v6
    requires p.dst == d.addr.bits && p.protocol == d.protocol && p.dport == d.port
    ensures o.tableIndex !in Visit(rules, p, o.ruleIndex, end)
  {
    var s := Endpoint(d.addr.bits, d.protocol, d.port);
    assert ExemptsFirst(o, rules, s, p.v6);
    var i :| 0 <= i < |rules| && rules[i] == Plain(p.v6, rules[i].priority, s, Goto(NopPriority(o)))
      && Exempting(o, rules, rules[i]);
    assert Placed(o, rules[i]);
    ExemptSkipsTunnel(o, rules, p, rules[i], end);
  }

  lemma BypassRuleFires(o: Options, p: Packet, target: int)
    ensures Fires(BypassRule(o, p.v6, target), p) <==> Bypassed(o.marks, p.mark)
  {
    hide BypassMask;
    hide BypassMark;
    hide UnderMask;
  }

  /** With the DNAT bypass, a marked packet never reaches the tunnel before the fallback of mark mode. */
  lemma BypassedSkipsTunnel(o: Options, rules: seq<Rule>, p: Packet, end: int)
    requires Generated(o, rules) && o.dnat && Bypassed(o.marks, p.mark)
    requires o.marks.markMode ==> end <= o.fallbackIndex
    ensures o.tableIndex !in Visit(rules, p, o.ruleIndex, end)
  {
    if rules == [] {
      NotConsulted(rules, p, o.ruleIndex, end, o.tableIndex);
    } else if o.marks.markMode {
      MarkedSkips(o, p, end);
    } else if Enabled(o, p.v6) {
      BypassRuleFires(o, p, NopPriority(o));
      ExemptSkipsTunnel(o, rules, p, BypassRule(o, p.v6, NopPriority(o)), end);
    } else {
      forall i | 0 <= i < |rules| && rules[i].v6 == p.v6 ensures rules[i].action != Table(o.tableIndex) {
        assert Placed(o, rules[i]);
      }
      NotConsulted(rules, p, o.ruleIndex, end, o.tableIndex);
    }
  }

  lemma MarkedSkips(o: Options, p: Packet, end: int)
    requires o.marks.markMode && o.dnat && Bypassed(o.marks, p.mark) && end <= o.fallbackIndex
    ensures o.tableIndex !in Visit(MarkModeRules(o), p, o.ruleIndex, end)
  {
    hide BypassMark;
    hide BypassMask;
    hide MarkModeRules;
    hide Bypassed;
    var rules, first := MarkModeRules(o), FirstMarkRule(o, p.v6);
    forall i | 0 <= i < |rules| ensures InMarkMode(o, rules[i]) {
      MarkModeMembers(o, rules[i]);
    }
    if Enabled(o, p.v6) && o.ruleIndex < end {
      BypassRuleFires(o, p, o.ruleIndex + 2);
      MarkModeMembers(o, first);
      JumpsAt(rules, p, o.ruleIndex, first);
      NotConsulted(rules, p, o.ruleIndex + 2, end, o.tableIndex);
    } else {
      NotConsulted(rules, p, o.ruleIndex, end, o.tableIndex);
    }
  }

  /** The marks can be told apart: as New makes sure with the DNAT bypass, or by an output mark of its own. */
  predicate Told(o: Options) {
    if o.dnat then Distinct(o.marks) else o.marks.outputMark != 0 && o.marks.outputMark != o.marks.inputMark
  }

  /** No rule of mark mode diverts an input-marked packet before its own rule. */
  lemma InputPasses(o: Options, p: Packet, priority: int)
    requires o.marks.markMode && Told(o) && p.mark == o.marks.inputMark
    requires priority == o.ruleIndex || priority == o.ruleIndex + 1
    ensures var t := At(MarkModeRules(o), p, priority);
      t.jump.None? && !t.stop && (priority == o.ruleIndex + 1 && Enabled(o, p.v6) ==> o.tableIndex in t.tables)
  {
    hide BypassMark;
    hide BypassMask;
    hide MarkModeRules;
    var rules := MarkModeRules(o);
    forall i | 0 <= i < |rules| ensures InMarkMode(o, rules[i]) {
      MarkModeMembers(o, rules[i]);
    }
    InputNotBypassed(o.marks);
    BypassRuleFires(o, p, o.ruleIndex + 2);
    if !o.dnat {
      OutputRuleFires(o, p);
    }
    InputRuleFires(o, p);
    hide Bypassed;
    hide Fires;
    hide At;
    PassesAt(rules, p, priority);
    if Enabled(o, p.v6) {
      MarkModeMembers(o, InputRule(o, p.v6));
      var i :| 0 <= i < |rules| && rules[i] == InputRule(o, p.v6);
    }
  }

  /** In mark mode no other table is named. */
  lemma OnlyTunnelTable(o: Options, p: Packet, from: int, end: int)
    ensures forall t :: t in Visit(MarkModeRules(o), p, from, end) ==> t == o.tableIndex
  {
    hide BypassMark;
    hide BypassMask;
    hide MarkModeRules;
    hide Visit;
    var rules := MarkModeRules(o);
    forall i | 0 <= i < |rules| ensures InMarkMode(o, rules[i]) {
      MarkModeMembers(o, rules[i]);
    }
    OnlyTable(rules, p, from, end, o.tableIndex);
  }

  /** In mark mode with marks that can be told apart, an input-marked packet looks in the tunnel's table first. */
  lemma InputReachesTunnel(o: Options, p: Packet, end: int)
    requires o.marks.markMode && Told(o) && p.mark == o.marks.inputMark && Enabled(o, p.v6)
    requires end >= o.ruleIndex + 2
    ensures var visited := Visit(MarkModeRules(o), p, o.ruleIndex, end); visited != [] && visited[0] == o.tableIndex
  {
    InputPasses(o, p, o.ruleIndex);
    InputPasses(o, p, o.ruleIndex + 1);
    OnlyTunnelTable(o, p, o.ruleIndex, end);
    hide *;
    var rules := MarkModeRules(o);
    VisitStep(rules, p, o.ruleIndex, end);
    VisitStep(rules, p, o.ruleIndex + 1, end);
    var visited := Visit(rules, p, o.ruleIndex, end);
    assert o.tableIndex in visited;
    assert visited[0] in visited;
  }

  lemma OutputRuleFires(o: Options, p: Packet)
    requires !o.dnat
    ensures Fires(FirstMarkRule(o, p.v6), p) <==> o.marks.outputMark == 0 || p.mark == o.marks.outputMark
  {
  }

  lemma InputRuleFires(o: Options, p: Packet)
    requires p.mark == o.marks.inputMark
    ensures Fires(InputRule(o, p.v6), p)
  {
  }
}
