/** rules of tun_linux.go: the list of policy rules for a configuration. */
module RuleCompiler {
  import opened Wrappers
  import opened PolicyRules
  import opened Marks
  import opened IpvsSets
  import IpvsBypass

  datatype Options = Options(
    autoRoute: bool, name: string, inet4: seq<Range>, inet6: seq<Range>,
    ruleIndex: nat, fallbackIndex: nat, tableIndex: int,
    marks: MarkOptions, dnat: bool, ipvs: Option<seq<Dest>>,
    excludeSrcPort: seq<Range>, excludeDstPort: seq<Range>, excludedRanges: seq<Range>,
    includeInterface: seq<string>, excludeInterface: seq<string>,
    android: bool, androidVPN: bool, overrideAndroidVPN: bool, strictRoute: bool)

  const MAIN_TABLE := 254
  const PROTECTED_FROM_VPN: bv32 := 0x20000

  predicate Enabled(o: Options, v6: bool) {
    if v6 then o.inet6 != [] else o.inet4 != []
  }

  function NopPriority(o: Options): int {
    o.ruleIndex + 10
  }

  /** Where the stages of an enabled family start: each takes the next priority if the options call for it. */
  function IpvsAt(o: Options): int {
    o.ruleIndex + if o.dnat then 1 else 0
  }

  function ExcludeAt(o: Options): int {
    IpvsAt(o) + if o.ipvs.Some? then 1 else 0
  }

  predicate HasExclusions(o: Options) {
    o.excludeSrcPort != [] || o.excludeDstPort != [] || o.excludedRanges != []
  }

  function InterfaceAt(o: Options): int {
    ExcludeAt(o) + if HasExclusions(o) then 1 else 0
  }

  function ProtectAt(o: Options): int {
    InterfaceAt(o) + if o.includeInterface != [] then 3 else if o.excludeInterface != [] then 1 else 0
  }

  function NetworkAt(o: Options): int {
    ProtectAt(o) + if o.android && o.androidVPN then 1 else 0
  }

  function TunnelAt(o: Options, v6: bool): int {
    NetworkAt(o) + if !v6 && !o.android then 1 else 0
  }

  /** The counter of a family: it stays at the start for a family without addresses. */
  function Counter(o: Options, v6: bool, at: int): int {
    if Enabled(o, v6) then at else o.ruleIndex
  }

  function Plain(v6: bool, priority: int, selector: Selector, action: Action): Rule {
    Rule(v6, priority, NoMark, selector, action)
  }

  /** The rule that takes marked packets past the rest. */
  function BypassRule(o: Options, v6: bool, target: int): Rule {
    Rule(v6, o.ruleIndex, MarkTest(BypassMark(o.marks), Some(BypassMask(o.marks))), Any, Goto(target))
  }

  /** One rule per enabled family, IPv4 first. */
  function PerFamily(o: Options, r4: Rule, r6: Rule): (rules: seq<Rule>)
    ensures forall r :: r in rules <==> (Enabled(o, false) && r == r4) || (Enabled(o, true) && r == r6)
  {
    (if Enabled(o, false) then [r4] else []) + (if Enabled(o, true) then [r6] else [])
  }

  /** Where a rule may stand outside mark mode, and what it may do there. */
  ghost predicate Placed(o: Options, r: Rule) {
    && o.ruleIndex <= r.priority <= NopPriority(o)
    && (!Enabled(o, r.v6) ==> r.action == Unreachable)
    && (o.dnat && Enabled(o, r.v6) && r.priority == o.ruleIndex ==> r == BypassRule(o, r.v6, NopPriority(o)))
    && match r.action
       case Goto(target) => r.priority < target
       case Table(id) => id == o.tableIndex ==> r.priority < NopPriority(o)
       case _ => true
  }

  ghost predicate HasRule(rules: seq<Rule>, v6: bool, priority: int) {
    exists i :: 0 <= i < |rules| && rules[i].v6 == v6 && rules[i].priority == priority
  }

  /** Every jump so far has a target in the list, or waits for the no-op rule that ends it. */
  ghost predicate Building(o: Options, rules: seq<Rule>) {
    && (forall r :: r in rules ==> Placed(o, r))
    && (forall r :: r in rules && r.action.Goto? ==>
          r.action.target == NopPriority(o) || HasRule(rules, r.v6, r.action.target))
  }

  /** A rule that jumps, if at all, to the end. */
  ghost predicate Simple(o: Options, r: Rule) {
    Placed(o, r) && (r.action.Goto? ==> r.action.target == NopPriority(o))
  }

  lemma HasRuleMember(rules: seq<Rule>, r: Rule)
    requires r in rules
    ensures HasRule(rules, r.v6, r.priority)
  {
  }

  lemma HasRuleMore(rules: seq<Rule>, more: seq<Rule>, v6: bool, priority: int)
    requires HasRule(rules, v6, priority) || HasRule(more, v6, priority)
    ensures HasRule(rules + more, v6, priority)
  {
    if HasRule(rules, v6, priority) {
      var i :| 0 <= i < |rules| && rules[i].v6 == v6 && rules[i].priority == priority;
      assert (rules + more)[i] == rules[i];
    } else {
      var i :| 0 <= i < |more| && more[i].v6 == v6 && more[i].priority == priority;
      assert (rules + more)[|rules| + i] == more[i];
    }
  }

  /** Two lists whose jumps are accounted for, end to end. */
  lemma BuildingConcat(o: Options, rules: seq<Rule>, more: seq<Rule>)
    requires Building(o, rules) && Building(o, more)
    ensures Building(o, rules + more)
  {
    hide HasRule;
    hide Placed;
    var all := rules + more;
    forall r | r in all && r.action.Goto? && r.action.target != NopPriority(o)
      ensures HasRule(all, r.v6, r.action.target)
    {
      HasRuleMore(rules, more, r.v6, r.action.target);
    }
  }

  lemma BuildingSimple(o: Options, more: seq<Rule>)
    requires forall r :: r in more ==> Simple(o, r)
    ensures Building(o, more)
  {
  }

  /** The priority counters: nothing but the bypass rule stands at the start when it is there. */
  ghost predicate Counters(o: Options, priority: int, priority6: int, ahead: nat) {
    && o.ruleIndex <= priority <= o.ruleIndex + ahead && o.ruleIndex <= priority6 <= o.ruleIndex + ahead
    && (o.inet4 == [] ==> priority == o.ruleIndex) && (o.inet6 == [] ==> priority6 == o.ruleIndex)
    && (o.dnat && o.inet4 != [] ==> priority > o.ruleIndex) && (o.dnat && o.inet6 != [] ==> priority6 > o.ruleIndex)
  }

  function Bumped(o: Options, v6: bool, priority: int): int {
    if Enabled(o, v6) then priority + 1 else priority
  }

  /** Rules that all lead past the tunnel, below the counters. */
  ghost predicate Head(o: Options, rules: seq<Rule>, next: int, next6: int) {
    forall r :: r in rules ==>
      Enabled(o, r.v6) && r.action == Goto(NopPriority(o)) && r.priority < if r.v6 then next6 else next
  }

  /** Rules of enabled families from the counters on. */
  ghost predicate From(o: Options, rules: seq<Rule>, priority: int, priority6: int) {
    forall r :: r in rules && Enabled(o, r.v6) ==> r.priority >= if r.v6 then priority6 else priority
  }

  /** Every enabled family has a rule at its counter that takes the selection past the tunnel. */
  ghost predicate HasBypass(o: Options, rules: seq<Rule>, s: Selector, priority: int, priority6: int) {
    forall v6 :: Enabled(o, v6) ==> Plain(v6, if v6 then priority6 else priority, s, Goto(NopPriority(o))) in rules
  }

  /** The rules that take each of the selections past the tunnel. */
  ghost predicate IsBypass(o: Options, selectors: seq<Selector>, priority: int, priority6: int, r: Rule) {
    && Enabled(o, r.v6) && r.selector in selectors
    && r == Plain(r.v6, if r.v6 then priority6 else priority, r.selector, Goto(NopPriority(o)))
  }

  /** Rules that send a selection past the tunnel, one list entry after another. */
  method Bypasses(o: Options, selectors: seq<Selector>, priority: int, priority6: int) returns (rules: seq<Rule>)
    requires Counters(o, priority, priority6, 9)
    ensures forall r :: r in rules ==> Simple(o, r)
    ensures Head(o, rules, priority + 1, priority6 + 1) && From(o, rules, priority, priority6)
    ensures forall j :: 0 <= j < |selectors| ==> HasBypass(o, rules, selectors[j], priority, priority6)
    ensures selectors == [] ==> rules == []
    ensures forall r :: r in rules <==> IsBypass(o, selectors, priority, priority6, r)
  {
    hide Placed;
    hide HasBypass;
    hide PerFamily;
    rules := [];
    for i := 0 to |selectors|
      invariant i == 0 ==> rules == []
      invariant forall r :: r in rules <==> IsBypass(o, selectors[..i], priority, priority6, r)
      invariant forall r :: r in rules ==> Simple(o, r)
      invariant Head(o, rules, priority + 1, priority6 + 1) && From(o, rules, priority, priority6)
      invariant forall j :: 0 <= j < i ==> HasBypass(o, rules, selectors[j], priority, priority6)
    {
      var pair := PerFamily(o, Plain(false, priority, selectors[i], Goto(NopPriority(o))),
                            Plain(true, priority6, selectors[i], Goto(NopPriority(o))));
      BypassPair(o, selectors[i], priority, priority6, pair);
      BypassOneMore(o, selectors, i, priority, priority6, rules, pair);
      forall j | 0 <= j < i + 1 ensures HasBypass(o, rules + pair, selectors[j], priority, priority6) {
        HasBypassMore(o, rules, pair, selectors[j], priority, priority6);
      }
      rules := rules + pair;
    }
    assert selectors[..|selectors|] == selectors;
  }

  lemma BypassOneMore(o: Options, selectors: seq<Selector>, i: nat, priority: int, priority6: int, rules: seq<Rule>,
                      pair: seq<Rule>)
    requires i < |selectors| && forall r :: r in rules <==> IsBypass(o, selectors[..i], priority, priority6, r)
    requires forall r :: r in pair <==> IsBypass(o, [selectors[i]], priority, priority6, r)
    ensures forall r :: r in rules + pair <==> IsBypass(o, selectors[..i + 1], priority, priority6, r)
  {
    assert selectors[..i + 1] == selectors[..i] + [selectors[i]];
  }

  lemma BypassPair(o: Options, s: Selector, priority: int, priority6: int, pair: seq<Rule>)
    requires Counters(o, priority, priority6, 9)
    requires pair == PerFamily(o, Plain(false, priority, s, Goto(NopPriority(o))),
      Plain(true, priority6, s, Goto(NopPriority(o))))
    ensures forall r :: r in pair ==> Simple(o, r)
    ensures Head(o, pair, priority + 1, priority6 + 1) && From(o, pair, priority, priority6)
    ensures HasBypass(o, pair, s, priority, priority6)
    ensures forall r :: r in pair <==> IsBypass(o, [s], priority, priority6, r)
  {
  }

  lemma HasBypassMore(o: Options, rules: seq<Rule>, more: seq<Rule>, s: Selector, priority: int, priority6: int)
    ensures HasBypass(o, rules, s, priority, priority6) || HasBypass(o, more, s, priority, priority6)
      ==> HasBypass(o, rules + more, s, priority, priority6)
  {
  }

  /** Rules that send a selection into a table, one list entry after another. */
  method Lookups(o: Options, selectors: seq<Selector>, v6: bool, priority: int) returns (rules: seq<Rule>)
    requires Enabled(o, v6) && o.ruleIndex <= priority < NopPriority(o) && (o.dnat ==> priority > o.ruleIndex)
    ensures forall r :: r in rules ==> Simple(o, r)
    ensures rules == seq(|selectors|, i requires 0 <= i < |selectors| =>
      Plain(v6, priority, selectors[i], Table(o.tableIndex)))
  {
    rules := [];
    for i := 0 to |selectors|
      invariant |rules| == i && forall j :: 0 <= j < i ==>
        rules[j] == Plain(v6, priority, selectors[j], Table(o.tableIndex))
    {
      rules := rules + [Plain(v6, priority, selectors[i], Table(o.tableIndex))];
    }
  }

  lemma LookupsAre(o: Options, selectors: seq<Selector>, v6: bool, priority: int, rules: seq<Rule>)
    requires rules == seq(|selectors|, i requires 0 <= i < |selectors| =>
      Plain(v6, priority, selectors[i], Table(o.tableIndex)))
    ensures forall r :: r in rules <==>
      r.selector in selectors && r == Plain(v6, priority, r.selector, Table(o.tableIndex))
  {
    forall r: Rule | r.selector in selectors && r == Plain(v6, priority, r.selector, Table(o.tableIndex))
      ensures r in rules
    {
      var i :| 0 <= i < |selectors| && selectors[i] == r.selector;
      assert rules[i] == r;
    }
  }

  function Selectors(f: Range -> Selector, ranges: seq<Range>): (r: seq<Selector>)
    ensures |r| == |ranges| && forall i :: 0 <= i < |r| ==> r[i] == f(ranges[i])
  {
    seq(|ranges|, i requires 0 <= i < |ranges| => f(ranges[i]))
  }

  /** Excluded source ports, destination ports and users. */
  method Exclusions(o: Options, priority: int, priority6: int) returns (rules: seq<Rule>, next: int, next6: int)
    requires Counters(o, priority, priority6, 2)
    ensures Building(o, rules) && Counters(o, next, next6, 3) && next >= priority && next6 >= priority6
    ensures Head(o, rules, next, next6) && From(o, rules, priority, priority6)
    ensures forall s :: Excluded(o, s) ==> HasBypass(o, rules, s, priority, priority6)
    ensures forall r :: r in rules <==> IsExclusion(o, priority, priority6, r)
    ensures next == (if HasExclusions(o) then Bumped(o, false, priority) else priority)
    ensures next6 == (if HasExclusions(o) then Bumped(o, true, priority6) else priority6)
  {
    var sports := Bypasses(o, Selectors(r => Sport(r), o.excludeSrcPort), priority, priority6);
    var dports := Bypasses(o, Selectors(r => Dport(r), o.excludeDstPort), priority, priority6);
    var uids := Bypasses(o, Selectors(r => Uid(r), o.excludedRanges), priority, priority6);
    rules := sports + dports + uids;
    BuildingSimple(o, rules);
    next, next6 := priority, priority6;
    if HasExclusions(o) {
      next, next6 := Bumped(o, false, priority), Bumped(o, true, priority6);
    }
    ExclusionsKept(o, sports, dports, uids, rules, priority, priority6);
    ExclusionsAre(o, sports, dports, uids, priority, priority6);
  }

  ghost predicate IsExclusion(o: Options, priority: int, priority6: int, r: Rule) {
    && Enabled(o, r.v6) && Excluded(o, r.selector)
    && r == Plain(r.v6, if r.v6 then priority6 else priority, r.selector, Goto(NopPriority(o)))
  }

  /** A selection the options exclude from the tunnel. */
  ghost predicate Excluded(o: Options, s: Selector) {
    match s
    case Sport(r) => r in o.excludeSrcPort
    case Dport(r) => r in o.excludeDstPort
    case Uid(r) => r in o.excludedRanges
    case _ => false
  }

  lemma ExclusionsAre(o: Options, sports: seq<Rule>, dports: seq<Rule>, uids: seq<Rule>, priority: int, priority6: int)
    requires forall r :: r in sports <==>
      IsBypass(o, Selectors(x => Sport(x), o.excludeSrcPort), priority, priority6, r)
    requires forall r :: r in dports <==>
      IsBypass(o, Selectors(x => Dport(x), o.excludeDstPort), priority, priority6, r)
    requires forall r :: r in uids <==> IsBypass(o, Selectors(x => Uid(x), o.excludedRanges), priority, priority6, r)
    ensures forall r :: r in sports + dports + uids <==> IsExclusion(o, priority, priority6, r)
  {
    hide Selectors;
    assert forall s :: s in Selectors(x => Sport(x), o.excludeSrcPort) <==> s.Sport? && s.range in o.excludeSrcPort;
    assert forall s :: s in Selectors(x => Dport(x), o.excludeDstPort) <==> s.Dport? && s.range in o.excludeDstPort;
    assert forall s :: s in Selectors(x => Uid(x), o.excludedRanges) <==> s.Uid? && s.range in o.excludedRanges;
  }

  lemma ExclusionsKept(o: Options, sports: seq<Rule>, dports: seq<Rule>, uids: seq<Rule>, rules: seq<Rule>,
                       priority: int, priority6: int)
    requires forall j :: 0 <= j < |o.excludeSrcPort| ==>
      HasBypass(o, sports, Sport(o.excludeSrcPort[j]), priority, priority6)
    requires forall j :: 0 <= j < |o.excludeDstPort| ==>
      HasBypass(o, dports, Dport(o.excludeDstPort[j]), priority, priority6)
    requires forall j :: 0 <= j < |o.excludedRanges| ==>
      HasBypass(o, uids, Uid(o.excludedRanges[j]), priority, priority6)
    requires rules == sports + dports + uids
    ensures forall s :: Excluded(o, s) ==> HasBypass(o, rules, s, priority, priority6)
  {
    forall s | Excluded(o, s) ensures HasBypass(o, rules, s, priority, priority6) {
      match s {
        case Sport(r) =>
          var j :| 0 <= j < |o.excludeSrcPort| && o.excludeSrcPort[j] == r;
          assert HasBypass(o, sports, Sport(o.excludeSrcPort[j]), priority, priority6);
        case Dport(r) =>
          var j :| 0 <= j < |o.excludeDstPort| && o.excludeDstPort[j] == r;
          assert HasBypass(o, dports, Dport(o.excludeDstPort[j]), priority, priority6);
        case Uid(r) =>
          var j :| 0 <= j < |o.excludedRanges| && o.excludedRanges[j] == r;
          assert HasBypass(o, uids, Uid(o.excludedRanges[j]), priority, priority6);
      }
    }
  }

  /** The rules of the bypass for IPVS backends, which share one priority. */
  method IpvsRules(o: Options, destinations: seq<Dest>) returns (rules: seq<Rule>)
    ensures Building(o, rules)
    ensures forall r :: r in rules ==> IpvsShaped(o, r)
    ensures forall d :: d in destinations && Enabled(o, d.addr.V6?) ==> HasEndpoint(o, rules, d)
    ensures forall r :: r in rules <==> IsBackend(o, destinations, r)
  {
    var options := IpvsBypass.Options(o.inet4 != [], o.inet6 != [], o.ruleIndex, o.dnat, false);
    rules := [];
    for i := 0 to |destinations|
      invariant forall r :: r in rules ==> Simple(o, r) && IpvsShaped(o, r)
      invariant forall j :: 0 <= j < i && Enabled(o, destinations[j].addr.V6?) ==>
        HasEndpoint(o, rules, destinations[j])
      invariant forall r :: r in rules <==> IsBackend(o, destinations[..i], r)
    {
      assert destinations[..i + 1] == destinations[..i] + [destinations[i]];
      var it := IpvsBypass.RuleFor(options, destinations[i]);
      if it.Some? {
        var r := it.value;
        rules := rules + [Plain(r.v6, r.priority, Endpoint(r.dst.bits, r.ipProto, r.dport), Goto(r.goto))];
      }
    }
    assert destinations[..|destinations|] == destinations;
    BuildingSimple(o, rules);
  }

  function BackendRule(o: Options, d: Dest): Rule {
    Plain(d.addr.V6?, IpvsAt(o), Endpoint(d.addr.bits, d.protocol, d.port), Goto(NopPriority(o)))
  }

  ghost predicate IsBackend(o: Options, destinations: seq<Dest>, r: Rule) {
    Enabled(o, r.v6) && exists d :: d in destinations && r == BackendRule(o, d)
  }

  ghost predicate IpvsShaped(o: Options, r: Rule) {
    Enabled(o, r.v6) && r.priority == IpvsAt(o) && r.action == Goto(NopPriority(o))
  }

  ghost predicate HasEndpoint(o: Options, rules: seq<Rule>, d: Dest) {
    BackendRule(o, d) in rules
  }

  /** The jump that lets an included interface in. */
  ghost predicate IsIncludeJump(o: Options, r: Rule) {
    r.selector.Iif? && r.selector.name in o.includeInterface
  }

  /** Up to a priority there is nothing but ways past the tunnel and jumps for included interfaces. */
  ghost predicate Gated(o: Options, rules: seq<Rule>, gate: int, gate6: int) {
    forall r :: r in rules && Enabled(o, r.v6) && r.priority <= (if r.v6 then gate6 else gate) ==>
      r.action == Goto(NopPriority(o)) || IsIncludeJump(o, r)
  }

  /** The jump of an included interface. */
  ghost predicate IsEntry(o: Options, names: seq<string>, priority: int, priority6: int, r: Rule) {
    var at := if r.v6 then priority6 else priority;
    Enabled(o, r.v6) && r.selector.Iif? && r.selector.name in names && r == Plain(r.v6, at, r.selector, Goto(at + 2))
  }

  ghost predicate IsIncluding(o: Options, priority: int, priority6: int, r: Rule) {
    var at := if r.v6 then priority6 else priority;
    || IsEntry(o, o.includeInterface, priority, priority6, r)
    || (Enabled(o, r.v6) && (r == GateRule(o, r.v6, at) || r == Plain(r.v6, at + 2, Any, Nop)))
  }

  /** Packets from an included interface jump over the rule that sends all others past the tunnel. */
  method IncludeInterfaces(o: Options, priority: int, priority6: int) returns (rules: seq<Rule>)
    requires Counters(o, priority, priority6, 3)
    ensures Building(o, rules) && From(o, rules, priority, priority6)
    ensures Gated(o, rules, priority + 1, priority6 + 1) && HasBypass(o, rules, Any, priority + 1, priority6 + 1)
    ensures forall r :: r in rules <==> IsIncluding(o, priority, priority6, r)
  {
    hide FamilyGate;
    var jumps := Entries(o, priority, priority6);
    var gates := FamilyGate(o, false, priority) + FamilyGate(o, true, priority6);
    rules := jumps + gates;
    IncludeBuilding(o, jumps, gates, priority, priority6);
    IncludeGate(o, jumps, gates, priority, priority6);
  }

  /** The jumps of the included interfaces, one list entry after another. */
  method Entries(o: Options, priority: int, priority6: int) returns (jumps: seq<Rule>)
    ensures forall r :: r in jumps <==> IsEntry(o, o.includeInterface, priority, priority6, r)
    ensures forall r :: r in jumps ==> IncludeJump(o, r, priority, priority6)
  {
    hide PerFamily;
    jumps := [];
    for i := 0 to |o.includeInterface|
      invariant forall r :: r in jumps <==> IsEntry(o, o.includeInterface[..i], priority, priority6, r)
    {
      var s := Iif(o.includeInterface[i]);
      assert o.includeInterface[..i + 1] == o.includeInterface[..i] + [o.includeInterface[i]];
      jumps := jumps
        + PerFamily(o, Plain(false, priority, s, Goto(priority + 2)), Plain(true, priority6, s, Goto(priority6 + 2)));
    }
    assert o.includeInterface[..|o.includeInterface|] == o.includeInterface;
  }

  /** All other packets of a family go past the tunnel; the included ones land behind that. */
  function FamilyGate(o: Options, v6: bool, priority: int): (rules: seq<Rule>)
    ensures forall r :: r in rules <==>
      Enabled(o, v6) && (r == GateRule(o, v6, priority) || r == Plain(v6, priority + 2, Any, Nop))
  {
    if Enabled(o, v6) then [GateRule(o, v6, priority), Plain(v6, priority + 2, Any, Nop)] else []
  }

  function GateRule(o: Options, v6: bool, priority: int): Rule {
    Plain(v6, priority + 1, Any, Goto(NopPriority(o)))
  }

  ghost predicate IncludeJump(o: Options, r: Rule, priority: int, priority6: int) {
    && Enabled(o, r.v6) && r.mark.NoMark? && r.priority == (if r.v6 then priority6 else priority)
    && r.action == Goto(r.priority + 2) && IsIncludeJump(o, r)
  }

  lemma IncludeBuilding(o: Options, jumps: seq<Rule>, gates: seq<Rule>, priority: int, priority6: int)
    requires Counters(o, priority, priority6, 3) && forall r :: r in jumps ==> IncludeJump(o, r, priority, priority6)
    requires gates == FamilyGate(o, false, priority) + FamilyGate(o, true, priority6)
    ensures Building(o, jumps + gates) && From(o, jumps + gates, priority, priority6)
  {
    hide FamilyGate;
    hide HasRule;
    var rules := jumps + gates;
    forall r | r in jumps ensures HasRule(rules, r.v6, r.action.target) {
      HasRuleMember(rules, Plain(r.v6, (if r.v6 then priority6 else priority) + 2, Any, Nop));
    }
  }

  lemma IncludeGate(o: Options, jumps: seq<Rule>, gates: seq<Rule>, priority: int, priority6: int)
    requires forall r :: r in jumps ==> IncludeJump(o, r, priority, priority6)
    requires gates == FamilyGate(o, false, priority) + FamilyGate(o, true, priority6)
    ensures Gated(o, jumps + gates, priority + 1, priority6 + 1)
    ensures HasBypass(o, jumps + gates, Any, priority + 1, priority6 + 1)
  {
    hide FamilyGate;
    forall v6 | Enabled(o, v6)
      ensures Plain(v6, if v6 then priority6 + 1 else priority + 1, Any, Goto(NopPriority(o))) in jumps + gates
    {
      assert GateRule(o, v6, if v6 then priority6 else priority) in gates;
    }
  }

  /** Where rules come after the gate of the interfaces. */
  ghost predicate Beyond(o: Options, next: int, next6: int, priority: int, priority6: int) {
    var gap := if o.includeInterface != [] then 1 else 0;
    (o.inet4 != [] ==> next > priority + gap) && (o.inet6 != [] ==> next6 > priority6 + gap)
  }

  ghost predicate InInterfaces(o: Options, priority: int, priority6: int, r: Rule) {
    if o.includeInterface != [] then IsIncluding(o, priority, priority6, r)
    else
      && Enabled(o, r.v6) && r.selector.Iif? && r.selector.name in o.excludeInterface
      && r == Plain(r.v6, if r.v6 then priority6 else priority, r.selector, Goto(NopPriority(o)))
  }

  /** Interfaces to include, or else interfaces to exclude. */
  method Interfaces(o: Options, priority: int, priority6: int) returns (rules: seq<Rule>, next: int, next6: int)
    requires Counters(o, priority, priority6, 3)
    ensures Building(o, rules) && From(o, rules, priority, priority6)
    ensures Counters(o, next, next6, 6) && next >= priority && next6 >= priority6
    ensures o.includeInterface != [] ==>
      Gated(o, rules, priority + 1, priority6 + 1) && HasBypass(o, rules, Any, priority + 1, priority6 + 1)
    ensures o.includeInterface == [] ==>
      && Gated(o, rules, priority, priority6)
      && forall j :: 0 <= j < |o.excludeInterface| ==>
         HasBypass(o, rules, Iif(o.excludeInterface[j]), priority, priority6)
    ensures o.includeInterface != [] || o.excludeInterface != [] ==> Beyond(o, next, next6, priority, priority6)
    ensures forall r :: r in rules <==> InInterfaces(o, priority, priority6, r)
    ensures next == Counter(o, false, priority + ProtectAt(o) - InterfaceAt(o))
    ensures next6 == Counter(o, true, priority6 + ProtectAt(o) - InterfaceAt(o))
  {
    rules, next, next6 := [], priority, priority6;
    if o.includeInterface != [] {
      rules := IncludeInterfaces(o, priority, priority6);
      next := if o.inet4 != [] then priority + 3 else priority;
      next6 := if o.inet6 != [] then priority6 + 3 else priority6;
    } else if o.excludeInterface != [] {
      var selectors := seq(|o.excludeInterface|, i requires 0 <= i < |o.excludeInterface| =>
        Iif(o.excludeInterface[i]));
      rules := Bypasses(o, selectors, priority, priority6);
      BuildingSimple(o, rules);
      assert forall j :: 0 <= j < |o.excludeInterface| ==> selectors[j] == Iif(o.excludeInterface[j]);
      next, next6 := Bumped(o, false, priority), Bumped(o, true, priority6);
    }
  }

  /** A rule for the selection leads past the tunnel, in every enabled family. */
  ghost predicate Exempts(o: Options, rules: seq<Rule>, s: Selector) {
    forall v6 :: Enabled(o, v6) ==> ExemptsFamily(o, rules, s, v6)
  }

  ghost predicate ExemptsFamily(o: Options, rules: seq<Rule>, s: Selector, v6: bool) {
    exists i :: 0 <= i < |rules| && rules[i] == Plain(v6, rules[i].priority, s, Goto(NopPriority(o)))
  }

  lemma ExemptsFrom(o: Options, rules: seq<Rule>, more: seq<Rule>, s: Selector, priority: int, priority6: int)
    requires HasBypass(o, more, s, priority, priority6)
    ensures Exempts(o, rules + more, s)
  {
    forall v6 | Enabled(o, v6) ensures ExemptsFamily(o, rules + more, s, v6) {
      var r := Plain(v6, if v6 then priority6 else priority, s, Goto(NopPriority(o)));
      var i :| 0 <= i < |more| && more[i] == r;
      assert (rules + more)[|rules| + i] == r;
    }
  }

  lemma HeadConcat(o: Options, a: seq<Rule>, b: seq<Rule>, mid: int, mid6: int, next: int, next6: int)
    requires Head(o, a, mid, mid6) && Head(o, b, next, next6) && mid <= next && mid6 <= next6
    ensures Head(o, a + b, next, next6)
  {
  }

  ghost predicate InHead(o: Options, r: Rule) {
    || IsMarked(o, r)
    || (o.ipvs.Some? && IsBackend(o, o.ipvs.value, r))
    || IsExclusion(o, Counter(o, false, ExcludeAt(o)), Counter(o, true, ExcludeAt(o)), r)
  }

  /** The rules that come first: marked packets, IPVS backends, excluded ports and users. */
  method HeadRules(o: Options) returns (rules: seq<Rule>, next: int, next6: int)
    ensures Building(o, rules) && Head(o, rules, next, next6) && Counters(o, next, next6, 3)
    ensures forall v6 :: o.dnat && Enabled(o, v6) ==> BypassRule(o, v6, NopPriority(o)) in rules
    ensures forall d :: o.ipvs.Some? && d in o.ipvs.value && Enabled(o, d.addr.V6?) ==> HasEndpoint(o, rules, d)
    ensures forall s :: Excluded(o, s) ==> Exempts(o, rules, s)
    ensures forall r :: r in rules <==> InHead(o, r)
    ensures next == Counter(o, false, InterfaceAt(o)) && next6 == Counter(o, true, InterfaceAt(o))
  {
    hide IsMarked;
    hide IsBackend;
    hide IsExclusion;
    rules, next, next6 := MarkedRules(o);
    if o.ipvs.Some? {
      var more := IpvsRules(o, o.ipvs.value);
      BuildingConcat(o, rules, more);
      var mid, mid6 := next, next6;
      next, next6 := Bumped(o, false, next), Bumped(o, true, next6);
      HeadConcat(o, rules, more, mid, mid6, next, next6);
      rules := rules + more;
    }
    var before, mid, mid6 := rules, next, next6;
    var more;
    more, next, next6 := Exclusions(o, mid, mid6);
    BuildingConcat(o, before, more);
    HeadConcat(o, before, more, mid, mid6, next, next6);
    rules := before + more;
    forall s | Excluded(o, s) ensures Exempts(o, rules, s) {
      ExemptsFrom(o, before, more, s, mid, mid6);
    }
  }

  ghost predicate IsMarked(o: Options, r: Rule) {
    o.dnat && Enabled(o, r.v6) && r == BypassRule(o, r.v6, NopPriority(o))
  }

  /** The bypass rule of every enabled family. */
  method MarkedRules(o: Options) returns (rules: seq<Rule>, next: int, next6: int)
    ensures Building(o, rules) && Head(o, rules, next, next6) && Counters(o, next, next6, 1)
    ensures next == o.ruleIndex + (if o.dnat && o.inet4 != [] then 1 else 0)
    ensures next6 == o.ruleIndex + (if o.dnat && o.inet6 != [] then 1 else 0)
    ensures forall v6 :: o.dnat && Enabled(o, v6) ==> BypassRule(o, v6, NopPriority(o)) in rules
    ensures forall r :: r in rules <==> IsMarked(o, r)
  {
    hide BypassMark;
    hide BypassMask;
    rules, next, next6 := [], o.ruleIndex, o.ruleIndex;
    if o.dnat {
      rules := PerFamily(o, BypassRule(o, false, NopPriority(o)), BypassRule(o, true, NopPriority(o)));
      BuildingSimple(o, rules);
      next, next6 := Bumped(o, false, next), Bumped(o, true, next6);
    }
  }

  const HALF := 0x8000_0000_0000_0000_0000_0000_0000_0000
  const DNS := Range(53, 53)

  function VpnTest(o: Options): MarkTest {
    MarkTest(if o.overrideAndroidVPN then PROTECTED_FROM_VPN else 0, Some(PROTECTED_FROM_VPN))
  }

  ghost predicate IsProtection(o: Options, priority: int, priority6: int, r: Rule) {
    && o.android && o.androidVPN && Enabled(o, r.v6)
    && r == Rule(r.v6, if r.v6 then priority6 else priority, VpnTest(o), Any, Goto(NopPriority(o)))
  }

  /** Packets the Android VPN protects, or does not, lead past the tunnel. */
  method AndroidRules(o: Options, priority: int, priority6: int) returns (rules: seq<Rule>, next: int, next6: int)
    requires Counters(o, priority, priority6, 6)
    ensures Building(o, rules) && From(o, rules, priority, priority6)
    ensures Counters(o, next, next6, if o.android then 7 else 6) && next >= priority && next6 >= priority6
    ensures forall r :: r in rules <==> IsProtection(o, priority, priority6, r)
    ensures next == (if o.android && o.androidVPN then Bumped(o, false, priority) else priority)
    ensures next6 == (if o.android && o.androidVPN then Bumped(o, true, priority6) else priority6)
  {
    rules, next, next6 := [], priority, priority6;
    if o.android && o.androidVPN {
      var test := VpnTest(o);
      rules := PerFamily(o, Rule(false, priority, test, Any, Goto(NopPriority(o))),
        Rule(true, priority6, test, Any, Goto(NopPriority(o))));
      BuildingSimple(o, rules);
      next, next6 := Bumped(o, false, priority), Bumped(o, true, priority6);
    }
  }

  ghost predicate IsStrict(o: Options, r: Rule) {
    o.strictRoute && !Enabled(o, r.v6) && r == Plain(r.v6, o.ruleIndex, Any, Unreachable)
  }

  /** A family without addresses is unreachable under strict routing. */
  method StrictRules(o: Options, priority: int, priority6: int) returns (rules: seq<Rule>)
    requires Counters(o, priority, priority6, 7)
    ensures Building(o, rules) && From(o, rules, priority, priority6)
    ensures forall v6 :: o.strictRoute && !Enabled(o, v6) ==> Plain(v6, o.ruleIndex, Any, Unreachable) in rules
    ensures forall r :: r in rules ==> !Enabled(o, r.v6)
    ensures forall r :: r in rules <==> IsStrict(o, r)
  {
    rules := [];
    if o.strictRoute {
      if o.inet4 == [] {
        rules := rules + [Plain(false, priority, Any, Unreachable)];
      }
      if o.inet6 == [] {
        rules := rules + [Plain(true, priority6, Any, Unreachable)];
      }
    }
    BuildingSimple(o, rules);
  }

  ghost predicate IsNetwork(o: Options, priority: int, priority6: int, r: Rule) {
    && !o.android && Enabled(o, r.v6)
    && (|| (!r.v6 && r.selector.Dst? && r.selector.range in o.inet4
            && r == Plain(false, priority, r.selector, Table(o.tableIndex)))
        || r == Plain(r.v6, if r.v6 then priority6 else priority + 1, NotDport(DNS), Table(MAIN_TABLE)))
  }

  /** Outside Android, the tunnel's own IPv4 networks and everything but DNS that has a more specific route. */
  method NetworkRules(o: Options, priority: int, priority6: int) returns (rules: seq<Rule>, next: int)
    requires Counters(o, priority, priority6, if o.android then 7 else 6)
    ensures Building(o, rules) && From(o, rules, priority, priority6)
    ensures Counters(o, next, priority6, 7) && next >= priority
    ensures forall r :: r in rules <==> IsNetwork(o, priority, priority6, r)
    ensures next == if o.android then priority else Bumped(o, false, priority)
  {
    rules, next := [], priority;
    if !o.android {
      if o.inet4 != [] {
        rules := Lookups(o, Selectors(r => Dst(r), o.inet4), false, priority);
        LookupsAre(o, Selectors(r => Dst(r), o.inet4), false, priority, rules);
        next := priority + 1;
      }
      rules := rules + PerFamily(o, Plain(false, next, NotDport(DNS), Table(MAIN_TABLE)),
        Plain(true, priority6, NotDport(DNS), Table(MAIN_TABLE)));
    }
    BuildingSimple(o, rules);
  }

  ghost predicate IsTunnel4(o: Options, priority: int, r: Rule) {
    || r == Plain(false, priority, Iif(o.name), Goto(NopPriority(o)))
    || ((|| r.selector == NotIif("lo")
         || (r.selector.IifSrc? && r.selector.name == "lo"
             && (r.selector.range == Range(0, 0) || r.selector.range in o.inet4)))
        && r == Plain(false, priority + 1, r.selector, Table(o.tableIndex)))
  }

  /** The IPv4 rules that lead into the tunnel. */
  method TunnelRules4(o: Options, priority: int) returns (rules: seq<Rule>)
    requires o.inet4 != [] && o.ruleIndex <= priority <= o.ruleIndex + 7 && (o.dnat ==> priority > o.ruleIndex)
    ensures Building(o, rules) && forall r :: r in rules ==> !r.v6 && r.priority >= priority
    ensures Plain(false, priority + 1, NotIif("lo"), Table(o.tableIndex)) in rules
    ensures forall r :: r in rules <==> IsTunnel4(o, priority, r)
  {
    var tun := Table(o.tableIndex);
    var sources := Lookups(o, Selectors(r => IifSrc("lo", r), o.inet4), false, priority + 1);
    LookupsAre(o, Selectors(r => IifSrc("lo", r), o.inet4), false, priority + 1, sources);
    rules := [Plain(false, priority, Iif(o.name), Goto(NopPriority(o))), Plain(false, priority + 1, NotIif("lo"), tun),
              Plain(false, priority + 1, IifSrc("lo", Range(0, 0)), tun)];
    assert rules[1] in rules;
    BuildingSimple(o, rules);
    BuildingSimple(o, sources);
    BuildingConcat(o, rules, sources);
    rules := rules + sources;
  }

  const LOW_HALF := Range(0, HALF - 1)
  const HIGH_HALF := Range(HALF, 2 * HALF - 1)

  ghost predicate IsTunnel6(o: Options, priority6: int, r: Rule) {
    || (r.selector.IifSrc? && r.selector.name == "lo" && r.selector.range in o.inet6
        && r == Plain(true, priority6, r.selector, Table(o.tableIndex)))
    || ((r.selector == Iif(o.name) || r.selector == IifSrc("lo", LOW_HALF) || r.selector == IifSrc("lo", HIGH_HALF))
        && r == Plain(true, priority6 + 1, r.selector, Goto(NopPriority(o))))
    || r == Plain(true, priority6 + 2, Any, Table(o.tableIndex))
  }

  /** The IPv6 rules that lead into the tunnel. */
  method TunnelRules6(o: Options, priority6: int) returns (rules: seq<Rule>)
    requires o.inet6 != [] && o.ruleIndex <= priority6 <= o.ruleIndex + 7 && (o.dnat ==> priority6 > o.ruleIndex)
    ensures Building(o, rules) && forall r :: r in rules ==> r.v6 && r.priority >= priority6
    ensures Plain(true, priority6 + 2, Any, Table(o.tableIndex)) in rules
    ensures forall r :: r in rules <==> IsTunnel6(o, priority6, r)
  {
    var tun, past := Table(o.tableIndex), Goto(NopPriority(o));
    var sources := Lookups(o, Selectors(r => IifSrc("lo", r), o.inet6), true, priority6);
    LookupsAre(o, Selectors(r => IifSrc("lo", r), o.inet6), true, priority6, sources);
    rules := [Plain(true, priority6 + 1, Iif(o.name), past), Plain(true, priority6 + 1, IifSrc("lo", LOW_HALF), past),
              Plain(true, priority6 + 1, IifSrc("lo", HIGH_HALF), past), Plain(true, priority6 + 2, Any, tun)];
    assert rules[3] in rules;
    BuildingSimple(o, rules);
    BuildingSimple(o, sources);
    BuildingConcat(o, sources, rules);
    rules := sources + rules;
  }

  lemma InterfacesEnabled(o: Options, priority: int, priority6: int)
    ensures forall r :: InInterfaces(o, priority, priority6, r) ==> Enabled(o, r.v6)
  {
  }

  lemma HeadEnabled(o: Options)
    ensures forall r :: InHead(o, r) ==> Enabled(o, r.v6)
  {
    hide BypassRule;
    hide Excluded;
  }

  ghost predicate InTail(o: Options, r: Rule) {
    || InInterfaces(o, Counter(o, false, InterfaceAt(o)), Counter(o, true, InterfaceAt(o)), r)
    || InTunnelTail(o, r)
  }

  /** The interfaces, then everything that leads into the tunnel. */
  method TailRules(o: Options, priority: int, priority6: int) returns (rules: seq<Rule>)
    requires priority == Counter(o, false, InterfaceAt(o)) && priority6 == Counter(o, true, InterfaceAt(o))
    requires Counters(o, priority, priority6, 3)
    ensures Building(o, rules) && From(o, rules, priority, priority6)
    ensures forall v6 :: o.strictRoute && !Enabled(o, v6) ==> Plain(v6, o.ruleIndex, Any, Unreachable) in rules
    ensures forall v6 :: Enabled(o, v6) ==> LeadsToTunnel(o, rules, v6)
    ensures o.includeInterface != [] ==>
      Gated(o, rules, priority + 1, priority6 + 1) && HasBypass(o, rules, Any, priority + 1, priority6 + 1)
    ensures o.includeInterface == [] && o.excludeInterface != [] ==>
      && Gated(o, rules, priority, priority6)
      && forall j :: 0 <= j < |o.excludeInterface| ==>
         HasBypass(o, rules, Iif(o.excludeInterface[j]), priority, priority6)
    ensures forall r: Rule :: Enabled(o, r.v6) ==> (r in rules <==> InTail(o, r))
    ensures forall r: Rule :: !Enabled(o, r.v6) ==> (r in rules <==> IsStrict(o, r))
  {
    hide Building;
    hide Placed;
    hide LeadsToTunnel;
    hide HasBypass;
    hide InInterfaces;
    hide InTunnelTail;
    hide IsStrict;
    hide From;
    hide Gated;
    var interfaces, p, q := Interfaces(o, priority, priority6);
    InterfacesEnabled(o, priority, priority6);
    var rest := TunnelTail(o, p, q);
    BuildingConcat(o, interfaces, rest);
    FromConcat(o, interfaces, rest, priority, priority6, p, q);
    rules := interfaces + rest;
    forall v6 | Enabled(o, v6) ensures LeadsToTunnel(o, rules, v6) {
      LeadsMore(o, interfaces, rest, [], v6);
      assert rules + [] == rules;
    }
    GateKept(o, interfaces, rest, p, q, priority, priority6);
  }

  lemma FromConcat(o: Options, a: seq<Rule>, b: seq<Rule>, priority: int, priority6: int, next: int, next6: int)
    requires From(o, a, priority, priority6) && From(o, b, next, next6) && priority <= next && priority6 <= next6
    ensures From(o, a + b, priority, priority6)
  {
  }

  /** What comes after the gate does not weaken it. */
  lemma GateKept(o: Options, interfaces: seq<Rule>, rest: seq<Rule>, p: int, q: int, priority: int, priority6: int)
    requires From(o, rest, p, q)
    requires o.includeInterface != [] || o.excludeInterface != [] ==> Beyond(o, p, q, priority, priority6)
    requires o.includeInterface != [] ==>
      Gated(o, interfaces, priority + 1, priority6 + 1) && HasBypass(o, interfaces, Any, priority + 1, priority6 + 1)
    requires o.includeInterface == [] ==>
      && Gated(o, interfaces, priority, priority6)
      && forall j :: 0 <= j < |o.excludeInterface| ==>
         HasBypass(o, interfaces, Iif(o.excludeInterface[j]), priority, priority6)
    ensures var rules := interfaces + rest;
      && (o.includeInterface != [] ==>
            Gated(o, rules, priority + 1, priority6 + 1) && HasBypass(o, rules, Any, priority + 1, priority6 + 1))
      && (o.includeInterface == [] && o.excludeInterface != [] ==>
            && Gated(o, rules, priority, priority6)
            && forall j :: 0 <= j < |o.excludeInterface| ==>
               HasBypass(o, rules, Iif(o.excludeInterface[j]), priority, priority6))
  {
    hide HasBypass;
    hide IsIncludeJump;
    if o.includeInterface != [] {
      HasBypassMore(o, interfaces, rest, Any, priority + 1, priority6 + 1);
    } else {
      forall j | 0 <= j < |o.excludeInterface|
        ensures HasBypass(o, interfaces + rest, Iif(o.excludeInterface[j]), priority, priority6)
      {
        HasBypassMore(o, interfaces, rest, Iif(o.excludeInterface[j]), priority, priority6);
      }
    }
  }

  ghost predicate InTunnelTail(o: Options, r: Rule) {
    || IsProtection(o, Counter(o, false, ProtectAt(o)), Counter(o, true, ProtectAt(o)), r)
    || IsNetwork(o, Counter(o, false, NetworkAt(o)), Counter(o, true, NetworkAt(o)), r)
    || (if r.v6 then IsTunnel6(o, TunnelAt(o, true), r) else IsTunnel4(o, TunnelAt(o, false), r))
  }

  lemma ApproachEnabled(o: Options, priority: int, priority6: int)
    ensures forall r :: IsProtection(o, priority, priority6, r) || IsNetwork(o, priority, priority6, r) ==>
      Enabled(o, r.v6)
  {
  }

  /** Protection, strictness and networks, each after the other. */
  method Approach(o: Options, priority: int, priority6: int) returns (rules: seq<Rule>, next: int, next6: int)
    requires priority == Counter(o, false, ProtectAt(o)) && priority6 == Counter(o, true, ProtectAt(o))
    requires Counters(o, priority, priority6, 6)
    ensures Building(o, rules) && From(o, rules, priority, priority6)
    ensures forall v6 :: o.strictRoute && !Enabled(o, v6) ==> Plain(v6, o.ruleIndex, Any, Unreachable) in rules
    ensures next == Counter(o, false, TunnelAt(o, false)) && next6 == Counter(o, true, TunnelAt(o, true))
    ensures Counters(o, next, next6, 7) && next >= priority && next6 >= priority6
    ensures forall r: Rule :: Enabled(o, r.v6) ==> (r in rules <==>
      || IsProtection(o, priority, priority6, r)
      || IsNetwork(o, Counter(o, false, NetworkAt(o)), Counter(o, true, NetworkAt(o)), r))
    ensures forall r: Rule :: !Enabled(o, r.v6) ==> (r in rules <==> IsStrict(o, r))
  {
    hide Building;
    hide Placed;
    hide IsProtection;
    hide IsNetwork;
    ApproachEnabled(o, priority, priority6);
    ApproachEnabled(o, Counter(o, false, NetworkAt(o)), Counter(o, true, NetworkAt(o)));
    var android, p, q := AndroidRules(o, priority, priority6);
    var strict := StrictRules(o, p, q);
    var networks, p' := NetworkRules(o, p, q);
    BuildingConcat(o, android, strict);
    BuildingConcat(o, android + strict, networks);
    rules, next, next6 := android + strict + networks, p', q;
  }

  /** The approach, then the tunnel itself. */
  method TunnelTail(o: Options, priority: int, priority6: int) returns (rules: seq<Rule>)
    requires priority == Counter(o, false, ProtectAt(o)) && priority6 == Counter(o, true, ProtectAt(o))
    requires Counters(o, priority, priority6, 6)
    ensures Building(o, rules) && From(o, rules, priority, priority6)
    ensures forall v6 :: o.strictRoute && !Enabled(o, v6) ==> Plain(v6, o.ruleIndex, Any, Unreachable) in rules
    ensures forall v6 :: Enabled(o, v6) ==> LeadsToTunnel(o, rules, v6)
    ensures forall r: Rule :: Enabled(o, r.v6) ==> (r in rules <==> InTunnelTail(o, r))
    ensures forall r: Rule :: !Enabled(o, r.v6) ==> (r in rules <==> IsStrict(o, r))
  {
    hide Building;
    hide Placed;
    hide IsProtection;
    hide IsNetwork;
    hide IsTunnel4;
    hide IsTunnel6;
    hide ProtectAt;
    hide NetworkAt;
    hide TunnelAt;
    var p, q;
    rules, p, q := Approach(o, priority, priority6);
    if o.inet4 != [] {
      var more := TunnelRules4(o, p);
      BuildingConcat(o, rules, more);
      rules := rules + more;
      assert LeadsToTunnel(o, rules, false);
    }
    if o.inet6 != [] {
      var more := TunnelRules6(o, q);
      BuildingConcat(o, rules, more);
      rules := rules + more;
      assert LeadsToTunnel(o, rules, true);
    }
  }

  /** Something does lead into the tunnel. */
  ghost predicate LeadsToTunnel(o: Options, rules: seq<Rule>, v6: bool) {
    exists r :: r in rules && r.v6 == v6 && r.mark.NoMark? && r.selector == (if v6 then Any else NotIif("lo"))
      && r.action == Table(o.tableIndex)
  }

  /** Rule `x` leads past the tunnel, and so does every rule of its family at the same priority or below. */
  ghost predicate Exempting(o: Options, rules: seq<Rule>, x: Rule) {
    && x in rules && x.action == Goto(NopPriority(o))
    && (forall r :: r in rules && r.v6 == x.v6 && r.priority <= x.priority ==> r.action == Goto(NopPriority(o)))
  }

  ghost predicate ExemptsFirst(o: Options, rules: seq<Rule>, s: Selector, v6: bool) {
    exists i :: 0 <= i < |rules| && rules[i] == Plain(v6, rules[i].priority, s, Goto(NopPriority(o)))
      && Exempting(o, rules, rules[i])
  }

  /** Rule `x` leads past the tunnel behind nothing but such rules and the jumps of included interfaces. */
  ghost predicate Gate(o: Options, rules: seq<Rule>, x: Rule) {
    && x in rules && x.action == Goto(NopPriority(o))
    && (forall r :: r in rules && r.v6 == x.v6 && r.priority <= x.priority ==>
          r.action == Goto(NopPriority(o)) || IsIncludeJump(o, r))
  }

  ghost predicate GatesFirst(o: Options, rules: seq<Rule>, s: Selector, v6: bool) {
    exists i :: 0 <= i < |rules| && rules[i] == Plain(v6, rules[i].priority, s, Goto(NopPriority(o)))
      && Gate(o, rules, rules[i])
  }

  /** The rules of an enabled family outside mark mode. */
  ghost predicate Listed(o: Options, r: Rule) {
    InHead(o, r) || InTail(o, r) || r == Plain(r.v6, NopPriority(o), Any, Nop)
  }

  /** A family has exactly the rules its options call for. */
  ghost predicate Exact(o: Options, rules: seq<Rule>) {
    forall r: Rule :: r in rules <==> if Enabled(o, r.v6) then Listed(o, r) else IsStrict(o, r)
  }

  /** What the list promises outside mark mode. */
  ghost predicate Compiled(o: Options, rules: seq<Rule>) {
    && (forall r :: r in rules ==> Placed(o, r))
    && (forall r :: r in rules && r.action.Goto? ==> HasRule(rules, r.v6, r.action.target))
    && (forall v6 :: o.dnat && Enabled(o, v6) ==> Exempting(o, rules, BypassRule(o, v6, NopPriority(o))))
    && (forall d :: o.ipvs.Some? && d in o.ipvs.value && Enabled(o, d.addr.V6?) ==>
          ExemptsFirst(o, rules, Endpoint(d.addr.bits, d.protocol, d.port), d.addr.V6?))
    && (forall s, v6 :: Excluded(o, s) && Enabled(o, v6) ==> ExemptsFirst(o, rules, s, v6))
    && (forall v6 :: o.includeInterface != [] && Enabled(o, v6) ==> GatesFirst(o, rules, Any, v6))
    && (forall j, v6 :: o.includeInterface == [] && 0 <= j < |o.excludeInterface| && Enabled(o, v6) ==>
          GatesFirst(o, rules, Iif(o.excludeInterface[j]), v6))
    && (forall v6 :: Enabled(o, v6) ==> LeadsToTunnel(o, rules, v6))
    && (forall v6 :: o.strictRoute && !Enabled(o, v6) ==> Plain(v6, o.ruleIndex, Any, Unreachable) in rules)
  }

  /** Head rules exempt: nothing of their family before them does anything else. */
  lemma HeadExempts(o: Options, head: seq<Rule>, rest: seq<Rule>, next: int, next6: int, x: Rule)
    requires Head(o, head, next, next6) && From(o, rest, next, next6) && x in head
    ensures Exempting(o, head + rest, x)
  {
  }

  lemma HeadExemptsFirst(o: Options, head: seq<Rule>, rest: seq<Rule>, next: int, next6: int, s: Selector, v6: bool)
    requires Head(o, head, next, next6) && From(o, rest, next, next6) && ExemptsFamily(o, head, s, v6)
    ensures ExemptsFirst(o, head + rest, s, v6)
  {
    var i :| 0 <= i < |head| && head[i] == Plain(v6, head[i].priority, s, Goto(NopPriority(o)));
    HeadExempts(o, head, rest, next, next6, head[i]);
    assert (head + rest)[i] == head[i];
  }

  /** The gate of the tail stands behind the head. */
  lemma TailGates(o: Options, head: seq<Rule>, tail: seq<Rule>, nops: seq<Rule>, next: int, next6: int, gate: int,
                  gate6: int, s: Selector, v6: bool)
    requires Head(o, head, next, next6) && Gated(o, tail, gate, gate6) && HasBypass(o, tail, s, gate, gate6)
      && Enabled(o, v6)
    requires gate < NopPriority(o) && gate6 < NopPriority(o) && forall r :: r in nops ==> r.priority == NopPriority(o)
    ensures GatesFirst(o, head + tail + nops, s, v6)
  {
    hide IsIncludeJump;
    var rules, g := head + tail + nops, Plain(v6, if v6 then gate6 else gate, s, Goto(NopPriority(o)));
    assert g in tail;
    assert g in rules;
    var i :| 0 <= i < |rules| && rules[i] == g;
    assert Gate(o, rules, g);
  }

  lemma EndpointFamily(o: Options, head: seq<Rule>, d: Dest)
    requires HasEndpoint(o, head, d)
    ensures ExemptsFamily(o, head, Endpoint(d.addr.bits, d.protocol, d.port), d.addr.V6?)
  {
  }

  /** Closing the list with the no-op rules gives every jump its target. */
  lemma Closed(o: Options, rules: seq<Rule>, nops: seq<Rule>)
    requires Building(o, rules) && (forall r :: r in nops ==> Placed(o, r) && r.action.Nop?)
    requires forall v6 :: Enabled(o, v6) ==> Plain(v6, NopPriority(o), Any, Nop) in nops
    ensures var all := rules + nops;
      && (forall r :: r in all ==> Placed(o, r))
      && (forall r :: r in all && r.action.Goto? ==> HasRule(all, r.v6, r.action.target))
  {
    var all := rules + nops;
    forall r | r in all && r.action.Goto? ensures HasRule(all, r.v6, r.action.target) {
      assert r in rules && Placed(o, r);
      if r.action.target == NopPriority(o) {
        var nop := Plain(r.v6, NopPriority(o), Any, Nop);
        var i :| 0 <= i < |nops| && nops[i] == nop;
        assert HasRule(nops, r.v6, NopPriority(o));
      }
      HasRuleMore(rules, nops, r.v6, r.action.target);
    }
  }

  /** The first rule of mark mode: output-marked packets, or those with the bypass mark, jump over the second. */
  function FirstMarkRule(o: Options, v6: bool): Rule {
    if o.dnat then BypassRule(o, v6, o.ruleIndex + 2)
    else Rule(v6, o.ruleIndex, MarkTest(o.marks.outputMark, None), Any, Goto(o.ruleIndex + 2))
  }

  function InputRule(o: Options, v6: bool): Rule {
    Rule(v6, o.ruleIndex + 1, MarkTest(o.marks.inputMark, None), Any, Table(o.tableIndex))
  }

  function FallbackRule(o: Options, v6: bool): Rule {
    Plain(v6, o.fallbackIndex, Any, Table(o.tableIndex))
  }

  /** The list in mark mode. */
  function MarkModeRules(o: Options): seq<Rule> {
    var family := (v6: bool) => [FirstMarkRule(o, v6), InputRule(o, v6), Plain(v6, o.ruleIndex + 2, Any, Nop)];
    (if Enabled(o, false) then family(false) else [])
      + (if Enabled(o, true) then family(true) else [])
      + PerFamily(o, FallbackRule(o, false), FallbackRule(o, true))
  }

  /** The policy rules of a configuration; `index6` is a free priority below all IPv6 rules. */
  method Rules(o: Options, index6: int) returns (rules: seq<Rule>)
    ensures !o.autoRoute ==>
      rules == if o.inet6 != [] then [Plain(true, index6, Oif(o.name), Table(o.tableIndex))] else []
    ensures o.autoRoute && !Enabled(o, false) && !Enabled(o, true) ==> rules == []
    ensures o.autoRoute && o.marks.markMode ==> rules == MarkModeRules(o)
    ensures o.autoRoute && !o.marks.markMode && (Enabled(o, false) || Enabled(o, true)) ==>
      Compiled(o, rules) && Exact(o, rules)
  {
    if !o.autoRoute {
      return if o.inet6 != [] then [Plain(true, index6, Oif(o.name), Table(o.tableIndex))] else [];
    }
    if o.inet4 == [] && o.inet6 == [] {
      return [];
    }
    if o.marks.markMode {
      return MarkModeRules(o);
    }
    rules := TableRules(o);
  }

  /** The list outside mark mode: what leads past the tunnel, what leads into it, and the end of the list. */
  method TableRules(o: Options) returns (rules: seq<Rule>)
    requires Enabled(o, false) || Enabled(o, true)
    ensures Compiled(o, rules) && Exact(o, rules)
  {
    hide Building;
    hide Placed;
    hide HasEndpoint;
    hide Exempts;
    hide ExemptsFamily;
    hide Excluded;
    hide BypassRule;
    hide LeadsToTunnel;
    hide Exempting;
    hide ExemptsFirst;
    hide Head;
    hide HasRule;
    hide PerFamily;
    hide Gated;
    hide HasBypass;
    hide GatesFirst;
    hide InHead;
    hide InTail;
    hide IsStrict;
    var head, next, next6 := HeadRules(o);
    var tail := TailRules(o, next, next6);
    HeadEnabled(o);
    var nops := PerFamily(o, Plain(false, NopPriority(o), Any, Nop), Plain(true, NopPriority(o), Any, Nop));
    NopsPlaced(o, nops);
    BuildingConcat(o, head, tail);
    Closed(o, head + tail, nops);
    rules := head + tail + nops;
    ghost var rest := tail + nops;
    assert rules == head + rest;
    HeadPromises(o, head, rest, next, next6);
    TailPromises(o, head, tail, nops, next, next6);
    forall v6 | Enabled(o, v6) ensures LeadsToTunnel(o, rules, v6) {
      LeadsMore(o, head, tail, nops, v6);
    }
  }

  /** What the head exempts stays exempt whatever follows it. */
  lemma HeadPromises(o: Options, head: seq<Rule>, rest: seq<Rule>, next: int, next6: int)
    requires Head(o, head, next, next6) && From(o, rest, next, next6)
    requires forall v6 :: o.dnat && Enabled(o, v6) ==> BypassRule(o, v6, NopPriority(o)) in head
    requires forall d :: o.ipvs.Some? && d in o.ipvs.value && Enabled(o, d.addr.V6?) ==> HasEndpoint(o, head, d)
    requires forall s :: Excluded(o, s) ==> Exempts(o, head, s)
    ensures var rules := head + rest;
      && (forall v6 :: o.dnat && Enabled(o, v6) ==> Exempting(o, rules, BypassRule(o, v6, NopPriority(o))))
      && (forall d :: o.ipvs.Some? && d in o.ipvs.value && Enabled(o, d.addr.V6?) ==>
            ExemptsFirst(o, rules, Endpoint(d.addr.bits, d.protocol, d.port), d.addr.V6?))
      && (forall s, v6 :: Excluded(o, s) && Enabled(o, v6) ==> ExemptsFirst(o, rules, s, v6))
  {
    hide HasEndpoint;
    hide Exempts;
    hide ExemptsFamily;
    hide Excluded;
    hide BypassRule;
    hide Exempting;
    hide ExemptsFirst;
    hide Head;
    hide From;
    var rules := head + rest;
    forall v6 | o.dnat && Enabled(o, v6) ensures Exempting(o, rules, BypassRule(o, v6, NopPriority(o))) {
      HeadExempts(o, head, rest, next, next6, BypassRule(o, v6, NopPriority(o)));
    }
    forall d | o.ipvs.Some? && d in o.ipvs.value && Enabled(o, d.addr.V6?)
      ensures ExemptsFirst(o, rules, Endpoint(d.addr.bits, d.protocol, d.port), d.addr.V6?)
    {
      EndpointFamily(o, head, d);
      HeadExemptsFirst(o, head, rest, next, next6, Endpoint(d.addr.bits, d.protocol, d.port), d.addr.V6?);
    }
    forall s, v6 | Excluded(o, s) && Enabled(o, v6) ensures ExemptsFirst(o, rules, s, v6) {
      ExemptsIn(o, head, s, v6);
      HeadExemptsFirst(o, head, rest, next, next6, s, v6);
    }
  }

  /** The interfaces are sorted out wherever the head ends. */
  lemma TailPromises(o: Options, head: seq<Rule>, tail: seq<Rule>, nops: seq<Rule>, next: int, next6: int)
    requires Head(o, head, next, next6) && Counters(o, next, next6, 3)
    requires forall r :: r in nops ==> r.priority == NopPriority(o)
    requires o.includeInterface != [] ==>
      Gated(o, tail, next + 1, next6 + 1) && HasBypass(o, tail, Any, next + 1, next6 + 1)
    requires o.includeInterface == [] && o.excludeInterface != [] ==>
      && Gated(o, tail, next, next6)
      && forall j :: 0 <= j < |o.excludeInterface| ==> HasBypass(o, tail, Iif(o.excludeInterface[j]), next, next6)
    ensures var rules := head + tail + nops;
      && (forall v6 :: o.includeInterface != [] && Enabled(o, v6) ==> GatesFirst(o, rules, Any, v6))
      && (forall j, v6 :: o.includeInterface == [] && 0 <= j < |o.excludeInterface| && Enabled(o, v6) ==>
            GatesFirst(o, rules, Iif(o.excludeInterface[j]), v6))
  {
    hide Head;
    hide Gated;
    hide HasBypass;
    hide GatesFirst;
    forall v6 | o.includeInterface != [] && Enabled(o, v6) ensures GatesFirst(o, head + tail + nops, Any, v6) {
      TailGates(o, head, tail, nops, next, next6, next + 1, next6 + 1, Any, v6);
    }
    forall j, v6 | o.includeInterface == [] && 0 <= j < |o.excludeInterface| && Enabled(o, v6)
      ensures GatesFirst(o, head + tail + nops, Iif(o.excludeInterface[j]), v6)
    {
      TailGates(o, head, tail, nops, next, next6, next, next6, Iif(o.excludeInterface[j]), v6);
    }
  }

  lemma NopsPlaced(o: Options, nops: seq<Rule>)
    requires nops == PerFamily(o, Plain(false, NopPriority(o), Any, Nop), Plain(true, NopPriority(o), Any, Nop))
    ensures forall r :: r in nops ==> Placed(o, r) && r.action.Nop? && r.priority == NopPriority(o)
    ensures forall v6 :: Enabled(o, v6) ==> Plain(v6, NopPriority(o), Any, Nop) in nops
    ensures forall next, next6 :: Counters(o, next, next6, 3) ==> From(o, nops, next, next6)
  {
  }

  lemma ExemptsIn(o: Options, head: seq<Rule>, s: Selector, v6: bool)
    requires Exempts(o, head, s) && Enabled(o, v6)
    ensures ExemptsFamily(o, head, s, v6)
  {
  }

  lemma LeadsMore(o: Options, head: seq<Rule>, tail: seq<Rule>, nops: seq<Rule>, v6: bool)
    requires LeadsToTunnel(o, tail, v6)
    ensures LeadsToTunnel(o, head + tail + nops, v6)
  {
  }
}
