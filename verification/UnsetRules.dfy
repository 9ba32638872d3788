/** unsetRules of tun_linux.go against the kernel's rule table. */
module UnsetRules {
  import opened Wrappers
  import opened PolicyRules
  import opened RuleCompiler
  import opened RuleProperties

  predicate Is(r: Rule, v6: bool, priority: int) {
    r.v6 == v6 && r.priority == priority
  }

  /** netlink.RuleDel by family and priority: the first such rule goes; without one it fails. */
  function DeleteFirst(rules: seq<Rule>, v6: bool, priority: int): Option<seq<Rule>> {
    if rules == [] then None
    else if Is(rules[0], v6, priority) then Some(rules[1..])
    else
      match DeleteFirst(rules[1..], v6, priority)
      case None => None
      case Some(rest) => Some([rules[0]] + rest)
  }

  function Count(rules: seq<Rule>, v6: bool, priority: int): nat {
    if rules == [] then 0 else (if Is(rules[0], v6, priority) then 1 else 0) + Count(rules[1..], v6, priority)
  }

  /** The rules that are not ours, in order. */
  function Foreign(o: Options, rules: seq<Rule>): seq<Rule> {
    if rules == [] then []
    else (if Owned(o, rules[0].priority) then [] else [rules[0]]) + Foreign(o, rules[1..])
  }

  lemma {:induction false} DeleteFirstCounts(rules: seq<Rule>, v6: bool, priority: int)
    ensures DeleteFirst(rules, v6, priority).Some? <==> Count(rules, v6, priority) > 0
    ensures DeleteFirst(rules, v6, priority).Some? ==>
      var rest := DeleteFirst(rules, v6, priority).value;
      forall w, q :: Count(rest, w, q) == Count(rules, w, q) - if w == v6 && q == priority then 1 else 0
    decreases |rules|
  {
    if rules != [] && !Is(rules[0], v6, priority) {
      DeleteFirstCounts(rules[1..], v6, priority);
      if DeleteFirst(rules, v6, priority).Some? {
        assert DeleteFirst(rules, v6, priority).value[1..] == DeleteFirst(rules[1..], v6, priority).value;
      }
    }
  }

  /** Deleting one of our rules does not touch the others. */
  lemma {:induction false} DeleteFirstForeign(o: Options, rules: seq<Rule>, v6: bool, priority: int)
    requires Owned(o, priority) && DeleteFirst(rules, v6, priority).Some?
    ensures Foreign(o, DeleteFirst(rules, v6, priority).value) == Foreign(o, rules)
    decreases |rules|
  {
    if !Is(rules[0], v6, priority) {
      DeleteFirstForeign(o, rules[1..], v6, priority);
      var rest := DeleteFirst(rules[1..], v6, priority).value;
      assert ([rules[0]] + rest)[1..] == rest;
    }
  }

  /** A table without owned rules is its own foreign part. */
  lemma {:induction false} OnlyForeign(o: Options, rules: seq<Rule>)
    requires forall v6, q :: Owned(o, q) ==> Count(rules, v6, q) == 0
    ensures Foreign(o, rules) == rules
    decreases |rules|
  {
    if rules != [] {
      var r := rules[0];
      assert Count(rules, r.v6, r.priority) > 0;
      forall v6, q | Owned(o, q) ensures Count(rules[1..], v6, q) == 0 {
        assert Count(rules, v6, q) == 0;
      }
      OnlyForeign(o, rules[1..]);
      assert rules == [r] + rules[1..];
    }
  }

  /** Outside the eleven priorities, and the fallback's in mark mode, every rule stays. */
  lemma {:induction false} OthersStay(o: Options, rules: seq<Rule>, r: Rule)
    requires r in rules && (r.priority < o.ruleIndex || r.priority > o.ruleIndex + 10)
    requires o.marks.markMode ==> r.priority != o.fallbackIndex
    ensures r in Foreign(o, rules)
    decreases |rules|
  {
    if r != rules[0] {
      OthersStay(o, rules[1..], r);
    }
  }

  lemma {:induction false} CountTail(rules: seq<Rule>, i: nat)
    requires i < |rules|
    ensures forall v6, q ::
      Count(rules[i..], v6, q) == Count(rules[i + 1..], v6, q) + if Is(rules[i], v6, q) then 1 else 0
  {
    assert rules[i..][0] == rules[i] && rules[i..][1..] == rules[i + 1..];
  }

  /** The listed IPv6 rules, one after another, as far as they exist. */
  ghost function DeleteEach(rules: seq<Rule>, indices: seq<int>): Option<seq<Rule>> {
    if indices == [] then Some(rules)
    else
      match DeleteEach(rules, indices[..|indices| - 1])
      case None => None
      case Some(rest) => DeleteFirst(rest, true, indices[|indices| - 1])
  }

  lemma {:induction false} NoneStays(rules: seq<Rule>, indices: seq<int>, i: nat)
    requires i <= |indices| && DeleteEach(rules, indices[..i]).None?
    ensures DeleteEach(rules, indices).None?
    decreases |indices| - i
  {
    if i < |indices| {
      assert indices[..i + 1][..i] == indices[..i];
      NoneStays(rules, indices, i + 1);
    } else {
      assert indices[..i] == indices;
    }
  }

  lemma {:induction false} ForeignConcat(o: Options, a: seq<Rule>, b: seq<Rule>)
    ensures Foreign(o, a + b) == Foreign(o, a) + Foreign(o, b)
    decreases |a|
  {
    if a == [] {
      assert a + b == b;
    } else {
      assert (a + b)[1..] == a[1..] + b;
      ForeignConcat(o, a[1..], b);
    }
  }

  lemma {:induction false} AllOurs(o: Options, rules: seq<Rule>)
    requires forall r :: r in rules ==> Owned(o, r.priority)
    ensures Foreign(o, rules) == []
    decreases |rules|
  {
    if rules != [] {
      assert rules[0] in rules;
      AllOurs(o, rules[1..]);
    }
  }

  /** Wherever the generated rules were put, unsetting leaves the table it would leave without them. */
  lemma UnsetUndoesSet(o: Options, before: seq<Rule>, rules: seq<Rule>, after: seq<Rule>)
    requires Generated(o, rules)
    ensures Foreign(o, before + rules + after) == Foreign(o, before + after)
  {
    forall r | r in rules ensures Owned(o, r.priority) {
      AllOwned(o, rules, r);
    }
    AllOurs(o, rules);
    ForeignConcat(o, before + rules, after);
    ForeignConcat(o, before, rules);
    ForeignConcat(o, before, after);
  }

  class PolicyTable {
    var kernel: seq<Rule>
    var ruleIndex6: seq<int>

    method RuleDel(v6: bool, priority: int) returns (ok: bool)
      modifies this`kernel
      ensures ok == DeleteFirst(old(kernel), v6, priority).Some?
      ensures kernel == if ok then DeleteFirst(old(kernel), v6, priority).value else old(kernel)
    {
      var r := DeleteFirst(kernel, v6, priority);
      ok := r.Some?;
      if ok {
        kernel := r.value;
      }
    }

    /** The rule of a tunnel without AutoRoute. */
    method UnsetIndex6() returns (ok: bool)
      modifies this
      ensures ok == DeleteEach(old(kernel), old(ruleIndex6)).Some?
      ensures ok ==> kernel == DeleteEach(old(kernel), old(ruleIndex6)).value && ruleIndex6 == []
    {
      for i := 0 to |ruleIndex6|
        invariant ruleIndex6 == old(ruleIndex6)
        invariant DeleteEach(old(kernel), ruleIndex6[..i]) == Some(kernel)
      {
        assert ruleIndex6[..i + 1][..i] == ruleIndex6[..i];
        ghost var front := ruleIndex6[..i + 1];
        ok := RuleDel(true, ruleIndex6[i]);
        if !ok {
          NoneStays(old(kernel), ruleIndex6, i + 1);
          return;
        }
      }
      assert ruleIndex6[..|ruleIndex6|] == ruleIndex6;
      ruleIndex6 := [];
      ok := true;
    }

    /** With AutoRoute every rule of ours goes and no other; nothing is deleted for a caller's file descriptor. */
    method Unset(o: Options, fileDescriptor: bool) returns (ok: bool)
      modifies this
      ensures fileDescriptor ==> ok && kernel == old(kernel) && ruleIndex6 == old(ruleIndex6)
      ensures !fileDescriptor ==> (ok <==> DeleteEach(old(kernel), old(ruleIndex6)).Some?)
      ensures !fileDescriptor && ok ==>
        var rest := DeleteEach(old(kernel), old(ruleIndex6)).value;
        ruleIndex6 == [] && kernel == if o.autoRoute then Foreign(o, rest) else rest
    {
      if fileDescriptor {
        return true;
      }
      if ruleIndex6 != [] {
        ok := UnsetIndex6();
        if !ok {
          return;
        }
      }
      ok := true;
      if o.autoRoute {
        ok := UnsetOwned(o);
      }
    }

    method UnsetOwned(o: Options) returns (ok: bool)
      modifies this`kernel
      ensures ok && kernel == Foreign(o, old(kernel))
    {
      var list := kernel;
      ok := true;
      for i := 0 to |list|
        invariant ok && Foreign(o, kernel) == Foreign(o, list)
        invariant forall v6, q :: Owned(o, q) ==> Count(kernel, v6, q) == Count(list[i..], v6, q)
      {
        CountTail(list, i);
        var rule := list[i];
        if Owned(o, rule.priority) {
          DeleteFirstCounts(kernel, rule.v6, rule.priority);
          assert Count(list[i..], rule.v6, rule.priority) > 0;
          DeleteFirstForeign(o, kernel, rule.v6, rule.priority);
          ok := RuleDel(rule.v6, rule.priority);
        }
      }
      OnlyForeign(o, kernel);
    }
  }
}
