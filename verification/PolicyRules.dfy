/** Policy routing rules, as tun_linux.go generates them and as the kernel evaluates them. */
module PolicyRules {
  import opened Wrappers
  import opened Marks

  /** A range of ports, user ids or, as numbers, addresses; both ends are included. */
  datatype Range = Range(lo: nat, hi: nat)

  predicate InRange(r: Range, x: nat) {
    r.lo <= x <= r.hi
  }

  datatype Selector =
    | Any
    | Sport(range: Range)
    | Dport(range: Range)
    | NotDport(range: Range)
    | Uid(range: Range)
    | Iif(name: string)
    | NotIif(name: string)
    | Oif(name: string)
    | Dst(range: Range)
    | IifSrc(name: string, range: Range)
    | Endpoint(address: nat, protocol: nat, port: nat)

  /** A mark to compare under a mask; the kernel compares all bits of a mark without mask, and none of mark zero. */
  datatype MarkTest = NoMark | MarkTest(mark: bv32, mask: Option<bv32>)

  datatype Action = Goto(target: int) | Table(id: int) | Unreachable | Nop

  datatype Rule = Rule(v6: bool, priority: int, mark: MarkTest, selector: Selector, action: Action)

  datatype Packet = Packet(
    v6: bool, mark: bv32, src: nat, dst: nat, protocol: nat, sport: nat, dport: nat, uid: nat, iif: string, oif: string)

  predicate MarkMatches(t: MarkTest, mark: bv32) {
    match t
    case NoMark => true
    case MarkTest(m, Some(mask)) => UnderMask(mark, m, mask)
    case MarkTest(m, None) => m == 0 || mark == m
  }

  predicate Selects(s: Selector, p: Packet) {
    match s
    case Any => true
    case Sport(r) => InRange(r, p.sport)
    case Dport(r) => InRange(r, p.dport)
    case NotDport(r) => !InRange(r, p.dport)
    case Uid(r) => InRange(r, p.uid)
    case Iif(name) => p.iif == name
    case NotIif(name) => p.iif != name
    case Oif(name) => p.oif == name
    case Dst(r) => InRange(r, p.dst)
    case IifSrc(name, r) => p.iif == name && InRange(r, p.src)
    case Endpoint(a, proto, port) => p.dst == a && p.protocol == proto && p.dport == port
  }

  predicate Fires(r: Rule, p: Packet) {
    r.v6 == p.v6 && MarkMatches(r.mark, p.mark) && Selects(r.selector, p)
  }

  /** What the rules of one priority do with a packet: tables to look in, then a jump, a stop, or neither. */
  datatype Turn = Turn(tables: seq<int>, jump: Option<int>, stop: bool)

  function At(rules: seq<Rule>, p: Packet, priority: int): Turn {
    if rules == [] then Turn([], None, false)
    else
      var r, rest := rules[0], rules[1..];
      if r.priority != priority || !Fires(r, p) then At(rest, p, priority)
      else
        match r.action
        case Goto(target) => Turn([], Some(target), false)
        case Unreachable => Turn([], None, true)
        case Nop => At(rest, p, priority)
        case Table(id) =>
          var t := At(rest, p, priority);
          t.(tables := [id] + t.tables)
  }

  /**
  The tables consulted for a packet from one priority up to another, in order.  Routing takes the
  first of them that has a route.  A jump goes to a larger priority; any other is ignored.
  */
  function Visit(rules: seq<Rule>, p: Packet, from: int, end: int): seq<int>
    decreases end - from
  {
    if from >= end then []
    else
      var t := At(rules, p, from);
      t.tables +
      if t.stop then []
      else Visit(rules, p, if t.jump.Some? && t.jump.value > from then t.jump.value else from + 1, end)
  }

  /** One priority of a visit. */
  lemma VisitStep(rules: seq<Rule>, p: Packet, from: int, end: int)
    requires from < end && !At(rules, p, from).stop
    ensures At(rules, p, from).jump.None? ==>
      Visit(rules, p, from, end) == At(rules, p, from).tables + Visit(rules, p, from + 1, end)
    ensures At(rules, p, from).jump.Some? && At(rules, p, from).jump.value > from ==>
      Visit(rules, p, from, end) == At(rules, p, from).tables + Visit(rules, p, At(rules, p, from).jump.value, end)
  {
    hide At;
  }

  /** What no rule of a family looks in from some priority on is not consulted from there. */
  lemma {:induction false} NotConsulted(rules: seq<Rule>, p: Packet, from: int, end: int, table: int)
    requires forall i :: 0 <= i < |rules| && rules[i].v6 == p.v6 && from <= rules[i].priority < end ==>
      rules[i].action != Table(table)
    ensures table !in Visit(rules, p, from, end)
    decreases end - from
  {
    if from < end {
      NotAt(rules, p, from, table);
      var t := At(rules, p, from);
      NotConsulted(rules, p, if t.jump.Some? && t.jump.value > from then t.jump.value else from + 1, end, table);
    }
  }

  lemma {:induction false} NotAt(rules: seq<Rule>, p: Packet, priority: int, table: int)
    requires forall i :: 0 <= i < |rules| && rules[i].v6 == p.v6 && rules[i].priority == priority ==>
      rules[i].action != Table(table)
    ensures table !in At(rules, p, priority).tables
    decreases |rules|
  {
    if rules != [] {
      NotAt(rules[1..], p, priority, table);
    }
  }

  /** If every rule of the family at a priority jumps to one place, and one of them fires, the packet jumps there. */
  lemma {:induction false} JumpsAt(rules: seq<Rule>, p: Packet, priority: int, r: Rule)
    requires r in rules && r.priority == priority && Fires(r, p) && r.action.Goto?
    requires forall i :: 0 <= i < |rules| && rules[i].v6 == p.v6 && rules[i].priority == priority ==> rules[i] == r
    ensures At(rules, p, priority) == Turn([], Some(r.action.target), false)
    decreases |rules|
  {
    if rules[0] != r {
      JumpsAt(rules[1..], p, priority, r);
    }
  }

  /** If none of the rules at a priority that fire jump or stop, evaluation goes on with the next priority. */
  lemma {:induction false} PassesAt(rules: seq<Rule>, p: Packet, priority: int)
    requires forall i :: 0 <= i < |rules| && rules[i].priority == priority && Fires(rules[i], p) ==>
      rules[i].action.Table? || rules[i].action.Nop?
    ensures At(rules, p, priority).jump == None && !At(rules, p, priority).stop
    ensures forall i ::
      0 <= i < |rules| && rules[i].priority == priority && Fires(rules[i], p) && rules[i].action.Table? ==>
      rules[i].action.id in At(rules, p, priority).tables
    decreases |rules|
  {
    if rules != [] {
      var rest := rules[1..];
      PassesAt(rest, p, priority);
      forall i | 0 <= i < |rules| && rules[i].priority == priority && Fires(rules[i], p) && rules[i].action.Table?
        ensures rules[i].action.id in At(rules, p, priority).tables
      {
        if i > 0 {
          assert rules[i] == rest[i - 1];
        }
      }
    }
  }

  /** Only tables some rule of the family names are consulted. */
  lemma {:induction false} OnlyTable(rules: seq<Rule>, p: Packet, from: int, end: int, table: int)
    requires forall i :: 0 <= i < |rules| && rules[i].v6 == p.v6 && rules[i].action.Table? ==>
      rules[i].action.id == table
    ensures forall t :: t in Visit(rules, p, from, end) ==> t == table
    decreases end - from
  {
    if from < end {
      OnlyTableAt(rules, p, from, table);
      var t := At(rules, p, from);
      OnlyTable(rules, p, if t.jump.Some? && t.jump.value > from then t.jump.value else from + 1, end, table);
    }
  }

  lemma {:induction false} OnlyTableAt(rules: seq<Rule>, p: Packet, priority: int, table: int)
    requires forall i :: 0 <= i < |rules| && rules[i].v6 == p.v6 && rules[i].action.Table? ==>
      rules[i].action.id == table
    ensures forall t :: t in At(rules, p, priority).tables ==> t == table
    decreases |rules|
  {
    if rules != [] {
      OnlyTableAt(rules[1..], p, priority, table);
    }
  }
}
