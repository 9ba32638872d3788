/** route_ipvs_output_linux.go: the OUTPUT firewall of one family, and the transactions that change it. */
module IpvsFirewall {
  import opened Wrappers
  import opened IpvsSets

  /** The commands of an iptables-restore script that concern the bypass chain. */
  datatype Command = DeleteJump | FlushChain | DeleteChain | NewChain | AppendJump | AppendRule(dest: Dest)

  /** The bypass chain, if it exists, and how many OUTPUT rules jump to it. */
  datatype Mangle = Mangle(chain: Option<seq<Dest>>, jumps: nat)

  /** One command: deleting or flushing what is not there, or deleting a chain in use, fails. */
  function Execute(m: Mangle, c: Command): Option<Mangle> {
    match c
    case DeleteJump => if m.jumps > 0 then Some(m.(jumps := m.jumps - 1)) else None
    case FlushChain => if m.chain.Some? then Some(m.(chain := Some([]))) else None
    case DeleteChain => if m.chain == Some([]) && m.jumps == 0 then Some(m.(chain := None)) else None
    case NewChain => Some(m.(chain := Some([])))
    case AppendJump => if m.chain.Some? then Some(m.(jumps := m.jumps + 1)) else None
    case AppendRule(d) => if m.chain.Some? then Some(m.(chain := Some(m.chain.value + [d]))) else None
  }

  /** A script applies as a whole or not at all. */
  function Run(m: Mangle, script: seq<Command>): Option<Mangle>
    decreases |script|
  {
    if script == [] then Some(m)
    else
      match Execute(m, script[0])
      case None => None
      case Some(next) => Run(next, script[1..])
  }

  function Rules(targets: seq<Dest>): (r: seq<Command>)
    ensures |r| == |targets| && forall i :: 0 <= i < |r| ==> r[i] == AppendRule(targets[i])
  {
    if targets == [] then [] else [AppendRule(targets[0])] + Rules(targets[1..])
  }

  /** The script of replaceIPTablesIPVSOutput. */
  function Script(existed: bool, targets: seq<Dest>): seq<Command> {
    if targets == [] then [DeleteJump, FlushChain, DeleteChain]
    else (if existed then [FlushChain] else [NewChain, AppendJump]) + Rules(targets)
  }

  /** The script, written line by line. */
  method BuildScript(existed: bool, targets: seq<Dest>) returns (script: seq<Command>)
    ensures script == Script(existed, targets)
  {
    if targets == [] {
      return [DeleteJump, FlushChain, DeleteChain];
    }
    hide Rules;
    script := if existed then [FlushChain] else [NewChain, AppendJump];
    var head := script;
    ghost var rules := Rules(targets);
    for i := 0 to |targets|
      invariant script == head + rules[..i]
    {
      script := script + [AppendRule(targets[i])];
      assert rules[..i + 1] == rules[..i] + [AppendRule(targets[i])];
    }
    assert rules[..|targets|] == rules;
  }

  /** The chain stands, with one jump, exactly while the recorded list is not empty, and holds that list. */
  predicate Matches(recorded: seq<Dest>, m: Mangle) {
    m == if recorded == [] then Mangle(None, 0) else Mangle(Some(recorded), 1)
  }

  lemma {:induction false} RunConcat(m: Mangle, a: seq<Command>, b: seq<Command>)
    ensures Run(m, a + b) == match Run(m, a) case None => None case Some(n) => Run(n, b)
    decreases |a|
  {
    if a == [] {
      assert a + b == b;
    } else {
      assert (a + b)[1..] == a[1..] + b;
      match Execute(m, a[0]) {
        case None =>
        case Some(n) => RunConcat(n, a[1..], b);
      }
    }
  }

  lemma {:induction false} RunRules(m: Mangle, targets: seq<Dest>)
    requires m.chain.Some?
    ensures Run(m, Rules(targets)) == Some(m.(chain := Some(m.chain.value + targets)))
    decreases |targets|
  {
    if targets == [] {
      assert m.chain.value + [] == m.chain.value;
    } else {
      RulesCons(targets);
      hide Rules;
      var n := m.(chain := Some(m.chain.value + [targets[0]]));
      RunRules(n, targets[1..]);
      assert m.chain.value + [targets[0]] + targets[1..] == m.chain.value + targets;
    }
  }

  lemma RulesCons(targets: seq<Dest>)
    requires targets != []
    ensures Rules(targets) != [] && Rules(targets)[0] == AppendRule(targets[0])
      && Rules(targets)[1..] == Rules(targets[1..])
  {
  }

  lemma RunTwo(m: Mangle, c: Command, d: Command)
    ensures Run(m, [c, d]) == match Execute(m, c) case None => None case Some(n) => Execute(n, d)
  {
    match Execute(m, c) {
      case None =>
      case Some(n) =>
        assert [c, d][1..] == [d];
        assert Run(n, [d]) == match Execute(n, d) case None => None case Some(k) => Run(k, [d][1..]);
    }
  }

  lemma RemovalRuns(m: Mangle)
    ensures m.jumps == 1 && m.chain.Some? ==> Run(m, Script(true, [])) == Some(Mangle(None, 0))
    ensures m.jumps == 0 ==> Run(m, Script(true, [])) == None
  {
    var s := [DeleteJump, FlushChain, DeleteChain];
    assert s == [DeleteJump, FlushChain] + [DeleteChain];
    RunConcat(m, [DeleteJump, FlushChain], [DeleteChain]);
    RunTwo(m, DeleteJump, FlushChain);
    assert Run(Mangle(Some([]), 0), [DeleteChain]) == Some(Mangle(None, 0));
  }

  lemma RefillRuns(m: Mangle, targets: seq<Dest>)
    requires targets != []
    ensures Run(m, Script(true, targets)) == if m.chain.Some? then Some(m.(chain := Some(targets))) else None
  {
    RunConcat(m, [FlushChain], Rules(targets));
    if m.chain.Some? {
      var n := m.(chain := Some([]));
      assert Run(m, [FlushChain]) == Some(n);
      RunRules(n, targets);
      assert [] + targets == targets;
    }
  }

  lemma CreationRuns(m: Mangle, targets: seq<Dest>)
    requires targets != []
    ensures Run(m, Script(false, targets)) == Some(Mangle(Some(targets), m.jumps + 1))
  {
    RunConcat(m, [NewChain, AppendJump], Rules(targets));
    RunTwo(m, NewChain, AppendJump);
    RunRules(Mangle(Some([]), m.jumps + 1), targets);
    assert [] + targets == targets;
  }

  /** Every script the update generates applies, and leaves the firewall matching the new list. */
  lemma ScriptApplies(recorded: seq<Dest>, m: Mangle, targets: seq<Dest>)
    requires Matches(recorded, m) && recorded != targets
    ensures Run(m, Script(recorded != [], targets)).Some?
    ensures Matches(targets, Run(m, Script(recorded != [], targets)).value)
  {
    RecordDecides(recorded, m, recorded != [], targets);
  }

  /**
  The record has to be right: generated from any record, a script leaves the new list exactly if
  the chain is there when it is to be removed, or the record tells whether it is there.  A wrong
  record makes the script fail, or leaves a second jump.
  */
  lemma RecordDecides(actual: seq<Dest>, m: Mangle, existed: bool, targets: seq<Dest>)
    requires Matches(actual, m)
    ensures var r := Run(m, Script(existed, targets));
      && (r.Some? && Matches(targets, r.value) <==> if targets == [] then actual != [] else existed == (actual != []))
      && (targets == [] && actual == [] ==> r == None)
      && (targets != [] && existed && actual == [] ==> r == None)
      && (targets != [] && !existed && actual != [] ==> r == Some(Mangle(Some(targets), 2)))
  {
    hide Run;
    if targets == [] {
      assert Script(existed, targets) == Script(true, []);
      RemovalRuns(m);
    } else if existed {
      RefillRuns(m, targets);
    } else {
      CreationRuns(m, targets);
    }
  }

  /** The nftables transaction of replaceNFTIPVSOutput on its base chain; hooks come with the chain. */
  function NftReplace(chain: Option<seq<Dest>>, targets: seq<Dest>): Option<Option<seq<Dest>>> {
    if targets == [] then (if chain.Some? then Some(None) else None)
    else Some(Some(targets))
  }

  predicate NftMatches(recorded: seq<Dest>, chain: Option<seq<Dest>>) {
    chain == if recorded == [] then None else Some(recorded)
  }

  lemma NftApplies(recorded: seq<Dest>, chain: Option<seq<Dest>>, targets: seq<Dest>)
    requires NftMatches(recorded, chain) && recorded != targets
    ensures NftReplace(chain, targets).Some? && NftMatches(targets, NftReplace(chain, targets).value)
  {
  }
}
