/**
The IPVS DNS bypass: lookup rules in the routing policy and re-routing in the OUTPUT firewall,
kept in step although any kernel operation may fail.  A failed operation changes nothing.
*/
module IpvsBypass {
  import opened Wrappers
  import opened IpvsSets
  import opened IpvsFirewall

  datatype Options = Options(inet4: bool, inet6: bool, ruleIndex: nat, dnat: bool, useNFTables: bool)

  datatype IpvsRule = IpvsRule(v6: bool, priority: nat, dst: Addr, ipProto: nat, dport: nat, goto: nat)

  predicate FamilyEnabled(o: Options, d: Dest) {
    if d.addr.V4? then o.inet4 else o.inet6
  }

  /** ipvsDNSRule. */
  function RuleFor(o: Options, d: Dest): Option<IpvsRule> {
    if !FamilyEnabled(o, d) then None
    else
      var priority := if o.dnat then o.ruleIndex + 1 else o.ruleIndex;
      Some(IpvsRule(d.addr.V6?, priority, d.addr, d.protocol, d.port, o.ruleIndex + 10))
  }

  /** Different destinations have different rules. */
  lemma RuleInjective(o: Options, d: Dest, e: Dest)
    requires RuleFor(o, d).Some? && RuleFor(o, d) == RuleFor(o, e)
    ensures d == e
  {
  }

  /** The firewall of one family: an iptables chain with its jumps, or an nftables base chain. */
  datatype Firewall = IpTables(mangle: Mangle) | NfTables(chain: Option<seq<Dest>>)

  datatype Kernel = Kernel(rules: set<IpvsRule>, firewall: seq<Firewall>)

  /** The destinations a firewall re-routes; a chain nothing jumps to re-routes none. */
  function Rerouted(f: Firewall): seq<Dest> {
    match f
    case IpTables(m) => if m.chain.Some? && m.jumps > 0 then m.chain.value else []
    case NfTables(chain) => if chain.Some? then chain.value else []
  }

  /** Every re-routed destination has its lookup rule. */
  ghost predicate Safe(o: Options, k: Kernel) {
    forall i, d :: 0 <= i < |k.firewall| && d in Rerouted(k.firewall[i]) ==>
      RuleFor(o, d).Some? && RuleFor(o, d).value in k.rules
  }

  /** The rules of a set of destinations. */
  ghost function RulesFor(o: Options, s: set<Dest>): set<IpvsRule> {
    set d | d in s && RuleFor(o, d).Some? :: RuleFor(o, d).value
  }

  predicate FirewallMatches(recorded: seq<Dest>, f: Firewall) {
    match f
    case IpTables(m) => Matches(recorded, m)
    case NfTables(chain) => NftMatches(recorded, chain)
  }

  /** What a firewall matching its record re-routes is the record. */
  lemma MatchingReroutes(recorded: seq<Dest>, f: Firewall)
    requires FirewallMatches(recorded, f)
    ensures Rerouted(f) == recorded
  {
  }

  lemma RulesForAdd(o: Options, s: set<Dest>, d: Dest)
    ensures RulesFor(o, s + {d}) == RulesFor(o, s) + (if RuleFor(o, d).Some? then {RuleFor(o, d).value} else {})
  {
  }

  lemma RulesForRemove(o: Options, s: set<Dest>, d: Dest)
    requires d in s
    ensures RulesFor(o, s - {d}) == RulesFor(o, s) - (if RuleFor(o, d).Some? then {RuleFor(o, d).value} else {})
  {
    forall e | e in s && RuleFor(o, e).Some? && RuleFor(o, e) == RuleFor(o, d) ensures e == d {
      RuleInjective(o, e, d);
    }
  }

  class Bypass {
    const o: Options
    var tracked: seq<Dest>
    var recorded: seq<seq<Dest>>
    var kernel: Kernel
    ghost var history: seq<Kernel>
    /** How many operations have failed. */
    ghost var faults: nat

    /** What holds between any two kernel operations. */
    ghost predicate Steady()
      reads this
    {
      && |recorded| == 2 && |kernel.firewall| == 2
      && (forall i :: 0 <= i < 2 ==> kernel.firewall[i].NfTables? == o.useNFTables)
      && (forall i :: 0 <= i < 2 ==> FirewallMatches(recorded[i], kernel.firewall[i]))
      && (!o.dnat ==> recorded == [[], []])
      && Safe(o, kernel)
      && (forall k :: k in history ==> Safe(o, k))
    }

    /** What holds between refreshes. */
    ghost predicate Valid()
      reads this
    {
      Steady() && Sorted(tracked) && kernel.rules == RulesFor(o, Set(tracked))
    }

    /** After setup the rules of the loaded destinations are installed and nothing is re-routed. */
    constructor (o: Options, loaded: seq<Dest>)
      requires Sorted(loaded)
      ensures Valid() && tracked == loaded && this.o == o
    {
      this.o := o;
      tracked := loaded;
      recorded := [[], []];
      var empty := if o.useNFTables then NfTables(None) else IpTables(Mangle(None, 0));
      kernel := Kernel(set d | d in loaded && RuleFor(o, d).Some? :: RuleFor(o, d).value, [empty, empty]);
      history, faults := [], 0;
    }

    /** Every change of the kernel goes through here and leaves its state in the history. */
    method Commit(next: Kernel)
      requires Safe(o, next) && (forall k :: k in history ==> Safe(o, k))
      modifies this`kernel, this`history
      ensures kernel == next && history == old(history) + [next]
      ensures forall k :: k in history ==> Safe(o, k)
    {
      kernel := next;
      history := history + [next];
    }

    method AddRule(rule: IpvsRule) returns (ok: bool)
      requires Steady()
      modifies this`kernel, this`history, this`faults
      ensures faults == if ok then old(faults) else old(faults) + 1
      ensures Steady() && kernel.firewall == old(kernel.firewall) && old(history) <= history
      ensures kernel.rules == if ok then old(kernel.rules) + {rule} else old(kernel.rules)
    {
      ok := *;
      if !ok {
        faults := faults + 1;
      } else {
        Commit(kernel.(rules := kernel.rules + {rule}));
      }
    }

    /** Only for rules of destinations that are not re-routed. */
    method DeleteRule(rule: IpvsRule) returns (ok: bool)
      requires Steady()
      requires forall i, d :: 0 <= i < 2 && d in recorded[i] ==> RuleFor(o, d) != Some(rule)
      modifies this`kernel, this`history, this`faults
      ensures faults == if ok then old(faults) else old(faults) + 1
      ensures Steady() && kernel.firewall == old(kernel.firewall) && old(history) <= history
      ensures kernel.rules == if ok then old(kernel.rules) - {rule} else old(kernel.rules)
    {
      ok := *;
      if !ok {
        faults := faults + 1;
      } else {
        MatchingReroutes(recorded[0], kernel.firewall[0]);
        MatchingReroutes(recorded[1], kernel.firewall[1]);
        Commit(kernel.(rules := kernel.rules - {rule}));
      }
    }
  
    /** replaceIPTablesIPVSOutput or replaceNFTIPVSOutput for one family, as one transaction. */
    method ReplaceOutput(family: nat, next: seq<Dest>) returns (ok: bool)
      requires Steady() && o.dnat && family < 2 && recorded[family] != next
      requires forall d :: d in next ==> RuleFor(o, d).Some? && RuleFor(o, d).value in kernel.rules
      modifies this`kernel, this`history, this`faults, this`recorded
      ensures faults == if ok then old(faults) else old(faults) + 1
      ensures Steady() && kernel.rules == old(kernel.rules) && old(history) <= history
      ensures recorded == if ok then old(recorded)[family := next] else old(recorded)
    {
      ghost var was := recorded[family];
      var firewall := kernel.firewall[family];
      ok := *;
      if !ok {
        faults := faults + 1;
      } else {
        match firewall {
          case NfTables(chain) =>
            NftApplies(was, chain, next);
            firewall := NfTables(NftReplace(chain, next).value);
          case IpTables(m) =>
            var script := BuildScript(recorded[family] != [], next);
            ScriptApplies(was, m, next);
            firewall := IpTables(Run(m, script).value);
        }
        MatchingReroutes(next, firewall);
        var changed := kernel.(firewall := kernel.firewall[family := firewall]);
        assert forall i :: 0 <= i < 2 && i != family ==> changed.firewall[i] == kernel.firewall[i];
        Commit(changed);
        recorded := recorded[family := next];
      }
    }

    /** Every destination with a rule has it installed. */
    ghost predicate Installed(s: set<Dest>)
      reads this
    {
      RulesFor(o, s) <= kernel.rules
    }

    /** The recorded output of a family is the enabled part of `s`. */
    ghost predicate Recorded(family: nat, s: set<Dest>)
      requires family < |recorded|
      reads this
    {
      Set(recorded[family]) == FamilySet(o, s, family)
    }

    /** updateIPVSDNSOutput: each family whose list changed is replaced; one failure does not stop the other. */
    method UpdateOutput(destinations: seq<Dest>) returns (failed: bool)
      requires Steady() && o.dnat && Sorted(destinations) && Installed(Set(destinations))
      modifies this`kernel, this`history, this`faults, this`recorded
      ensures faults >= old(faults) && (failed <==> faults > old(faults))
      ensures Steady() && kernel.rules == old(kernel.rules) && old(history) <= history
      ensures forall i :: 0 <= i < 2 ==> Recorded(i, Set(destinations)) || (failed && recorded[i] == old(recorded[i]))
    {
      hide Sorted;
      var v4, v6 := SplitFamilies(o, destinations);
      var families := [v4, v6];
      FamilyInstalled(o, Set(destinations), 0, kernel.rules);
      FamilyInstalled(o, Set(destinations), 1, kernel.rules);
      failed := false;
      for family := 0 to 2
        invariant Steady() && kernel.rules == old(kernel.rules) && old(history) <= history
        invariant faults >= old(faults) && (failed <==> faults > old(faults))
        invariant forall i :: 0 <= i < family ==>
          Recorded(i, Set(destinations)) || (failed && recorded[i] == old(recorded[i]))
        invariant forall i :: family <= i < 2 ==> recorded[i] == old(recorded[i])
      {
        var changed := DestinationsChanged(recorded[family], families[family]);
        if changed {
          var ok := ReplaceOutput(family, families[family]);
          failed := failed || !ok;
        }
      }
    }

    /** updateIPVSDNSRules: add rules, re-route, then delete rules; it stops at the first failure. */
    method UpdateRules(was: seq<Dest>, now: seq<Dest>) returns (installed: seq<Dest>, failed: bool)
      requires Steady() && Sorted(was) && Sorted(now) && kernel.rules == RulesFor(o, Set(was))
      modifies this`kernel, this`history, this`faults, this`recorded
      ensures faults >= old(faults) && (failed <==> faults > old(faults))
      ensures Steady() && Sorted(installed) && kernel.rules == RulesFor(o, Set(installed)) && old(history) <= history
      ensures !failed ==> Set(installed) == Set(now) && (o.dnat ==> Recorded(0, Set(now)) && Recorded(1, Set(now)))
    {
      hide Sorted;
      var added := Difference(now, was);
      var current;
      current, failed := AddRules(was, added);
      if failed {
        installed := SortedDestinations(current);
        return;
      }
      if o.dnat {
        SubsetInstalled(o, Set(now), current);
        failed := UpdateOutput(now);
        if failed {
          installed := SortedDestinations(current);
          return;
        }
      }
      var removed := Difference(was, now);
      SortedDistinct(removed);
      assert forall i, d :: 0 <= i < 2 && d in recorded[i] ==> d in Set(now) by {
        assert forall i, d :: 0 <= i < 2 && d in recorded[i] ==> d in Set(recorded[i]);
      }
      current, failed := DeleteRules(current, removed, now);
      installed := SortedDestinations(current);
    }

    /** The first loop of updateIPVSDNSRules. */
    method AddRules(was: seq<Dest>, added: seq<Dest>) returns (current: set<Dest>, failed: bool)
      requires Steady() && kernel.rules == RulesFor(o, Set(was))
      modifies this`kernel, this`history, this`faults
      ensures faults >= old(faults) && (failed <==> faults > old(faults))
      ensures Steady() && kernel.rules == RulesFor(o, current) && old(history) <= history
      ensures !failed ==> current == Set(was) + Set(added)
    {
      hide Steady;
      current, failed := set d | d in was, false;
      for i := 0 to |added|
        invariant Steady() && kernel.rules == RulesFor(o, current) && old(history) <= history && faults == old(faults)
        invariant current == Set(was) + Set(added[..i])
      {
        var d := added[i];
        SetPush(added, i);
        RulesForAdd(o, current, d);
        var rule := RuleFor(o, d);
        if rule.Some? {
          var ok := AddRule(rule.value);
          if !ok {
            return current, true;
          }
        }
        current := current + {d};
      }
      assert added[..|added|] == added;
    }

    /** The last loop of updateIPVSDNSRules; the firewall no longer selects what it deletes. */
    method DeleteRules(installed: set<Dest>, removed: seq<Dest>, now: seq<Dest>)
      returns (current: set<Dest>, failed: bool)
      requires Steady() && kernel.rules == RulesFor(o, installed) && Set(removed) <= installed
        && Set(removed) !! Set(now)
      requires forall i, d :: 0 <= i < 2 && d in recorded[i] ==> d in Set(now)
      requires forall i, j :: 0 <= i < j < |removed| ==> removed[i] != removed[j]
      modifies this`kernel, this`history, this`faults
      ensures faults >= old(faults) && (failed <==> faults > old(faults))
      ensures Steady() && kernel.rules == RulesFor(o, current) && old(history) <= history
      ensures !failed ==> current == installed - Set(removed)
    {
      current, failed := installed, false;
      for i := 0 to |removed|
        invariant Steady() && kernel.rules == RulesFor(o, current) && old(history) <= history && faults == old(faults)
        invariant current == installed - Set(removed[..i])
      {
        var d := removed[i];
        SetPush(removed, i);
        assert d in Set(removed) && d !in Set(removed[..i]);
        RulesForRemove(o, current, d);
        var rule := RuleFor(o, d);
        if rule.Some? {
          NotRecorded(o, recorded, d, now);
          var ok := DeleteRule(rule.value);
          if !ok {
            return current, true;
          }
        }
        current := current - {d};
      }
      assert removed[..|removed|] == removed;
    }

    /**
    refreshIPVSDNSBypass.  Whatever failed before, a refresh without failure leaves the rules and
    the re-routed destinations equal to what was loaded, for the enabled families.
    */
    method Refresh(loaded: Option<seq<Dest>>) returns (failed: bool)
      requires Valid() && (loaded.Some? ==> Sorted(loaded.value))
      modifies this
      ensures Valid() && old(history) <= history
      ensures failed <==> loaded.None? || faults > old(faults)
      ensures loaded.None? ==> failed && kernel == old(kernel) && tracked == old(tracked)
      ensures loaded.Some? && !failed ==>
        && tracked == loaded.value && kernel.rules == RulesFor(o, Set(loaded.value))
        && (o.dnat ==> forall i :: 0 <= i < 2 ==>
              Set(Rerouted(kernel.firewall[i])) == FamilySet(o, Set(loaded.value), i))
    {
      if loaded.None? {
        return true;
      }
      hide Sorted;
      var now := loaded.value;
      failed := false;
      var changed := DestinationsChanged(tracked, now);
      if changed {
        var installed;
        installed, failed := UpdateRules(tracked, now);
        if !failed {
          SortedUnique(installed, now);
        }
        tracked := installed;
      } else if o.dnat {
        failed := UpdateOutput(now);
      }
      MatchingReroutes(recorded[0], kernel.firewall[0]);
      MatchingReroutes(recorded[1], kernel.firewall[1]);
    }
  }

  /** The destinations of an enabled family. */
  ghost function FamilySet(o: Options, s: set<Dest>, family: nat): set<Dest> {
    set d | d in s && d.addr.V6? == (family == 1) && FamilyEnabled(o, d)
  }

  /** The loop of updateIPVSDNSOutput that sorts destinations into families. */
  method SplitFamilies(o: Options, destinations: seq<Dest>) returns (v4: seq<Dest>, v6: seq<Dest>)
    requires Sorted(destinations)
    ensures Sorted(v4) && Set(v4) == FamilySet(o, Set(destinations), 0)
    ensures Sorted(v6) && Set(v6) == FamilySet(o, Set(destinations), 1)
  {
    v4, v6 := [], [];
    for i := 0 to |destinations|
      invariant Sorted(v4) && Set(v4) == FamilySet(o, Set(destinations[..i]), 0)
      invariant Sorted(v6) && Set(v6) == FamilySet(o, Set(destinations[..i]), 1)
    {
      var d := destinations[i];
      SetPush(destinations, i);
      Before(destinations, i);
      if d.addr.V4? {
        if o.inet4 {
          PushSorted(v4, d);
          v4 := v4 + [d];
        }
      } else if o.inet6 {
        PushSorted(v6, d);
        v6 := v6 + [d];
      }
    }
    assert destinations[..|destinations|] == destinations;
  }

  lemma Before(s: seq<Dest>, i: nat)
    requires Sorted(s) && i < |s|
    ensures forall e :: e in Set(s[..i]) ==> Less(e, s[i])
  {
  }

  lemma PushSorted(s: seq<Dest>, d: Dest)
    requires Sorted(s) && forall e :: e in Set(s) ==> Less(e, d)
    ensures Sorted(s + [d]) && Set(s + [d]) == Set(s) + {d}
  {
    assert forall i :: 0 <= i < |s| ==> s[i] in Set(s);
    forall e ensures e in Set(s + [d]) <==> e in Set(s) + {d} {
    }
  }

  /** The rules of an enabled family are among the rules of the whole set. */
  lemma FamilyInstalled(o: Options, s: set<Dest>, family: nat, rules: set<IpvsRule>)
    requires RulesFor(o, s) <= rules
    ensures forall d :: d in FamilySet(o, s, family) ==> RuleFor(o, d).Some? && RuleFor(o, d).value in rules
  {
    forall d | d in FamilySet(o, s, family) ensures RuleFor(o, d).Some? && RuleFor(o, d).value in rules {
      assert RuleFor(o, d).value in RulesFor(o, s);
    }
  }

  lemma SortedDistinct(s: seq<Dest>)
    requires Sorted(s)
    ensures forall i, j :: 0 <= i < j < |s| ==> s[i] != s[j]
  {
  }

  lemma SubsetInstalled(o: Options, s: set<Dest>, t: set<Dest>)
    requires s <= t
    ensures RulesFor(o, s) <= RulesFor(o, t)
  {
  }

  lemma NotRecorded(o: Options, recorded: seq<seq<Dest>>, d: Dest, now: seq<Dest>)
    requires |recorded| == 2 && RuleFor(o, d).Some? && d !in Set(now)
    requires forall i, e :: 0 <= i < 2 && e in recorded[i] ==> e in Set(now)
    ensures forall i, e :: 0 <= i < 2 && e in recorded[i] ==> RuleFor(o, e) != Some(RuleFor(o, d).value)
  {
    forall i, e | 0 <= i < 2 && e in recorded[i] ensures RuleFor(o, e) != Some(RuleFor(o, d).value) {
      if RuleFor(o, e) == RuleFor(o, d) {
        RuleInjective(o, d, e);
      }
    }
  }
}
