/**
The close protocol of tun_windows.go: any number of readers and writers against one closer.

Every read or write of a shared variable is one event.  A call into the session begins with one
event and ends with another, so that a call may be under way when anything else happens.
*/
module WintunClose {
  datatype Kind = Read | ReadPacket | ReadFunc | Write

  datatype Call = Receive | Release | Allocate | Send

  /** Where an operation stands between entering and leaving the wait group. */
  datatype Pc =
    | AtCheck(kind: Kind)
    | AtLoop(kind: Kind)
    | AtCall(kind: Kind, call: Call)
    | InCall(kind: Kind, call: Call)
    | Holding(kind: Kind)
    | Parked(kind: Kind)
    | Leaving

  datatype Closer = Open | Stored | Waited | Ended

  /** `lent` are packets handed out by ReadPacket and not yet released. */
  datatype State = State(running: int, close: bool, closer: Closer, ops: map<nat, Pc>, lent: set<nat>)

  /** How a session call ends: with a packet or success, with an empty ring, or with an error. */
  datatype Outcome = Done | Spin | Park | Fail

  datatype Event =
    | Enter(op: nat, kind: Kind)
    | Check(op: nat)
    | Begin(op: nat)
    | Finish(op: nat, outcome: Outcome)
    | Wake(op: nat)
    | Use(op: nat)
    | Lend(op: nat, packet: nat)
    | ReleaseLent(op: nat, packet: nat)
    | Leave(op: nat)
    | StoreClose
    | WaitZero
    | End

  function Init(): State {
    State(0, false, Open, map[], {})
  }

  predicate Enabled(s: State, e: Event) {
    match e
    case Enter(t, _) => t !in s.ops
    case Check(t) => t in s.ops && (s.ops[t].AtCheck? || s.ops[t].AtLoop?)
    case Begin(t) => t in s.ops && s.ops[t].AtCall?
    case Finish(t, outcome) =>
      t in s.ops && s.ops[t].InCall? && (outcome == Spin || outcome == Park ==> s.ops[t].call == Receive)
    case Wake(t) => t in s.ops && s.ops[t].Parked?
    case Use(t) => t in s.ops && s.ops[t].Holding? && s.ops[t].kind != ReadPacket
    case Lend(t, p) => t in s.ops && s.ops[t] == Holding(ReadPacket) && p !in s.lent
    case ReleaseLent(t, p) => t !in s.ops && p in s.lent
    case Leave(t) => t in s.ops && s.ops[t].Leaving?
    case StoreClose => s.closer == Open
    case WaitZero => s.closer == Stored && s.running == 0
    case End => s.closer == Waited
  }

  /** What an operation does after a session call. */
  function AfterCall(kind: Kind, call: Call, outcome: Outcome): Pc {
    match call
    case Receive =>
      (match outcome
       case Done => Holding(kind)
       case Spin => AtLoop(kind)
       case Park => Parked(kind)
       case Fail => Leaving)
    case Allocate => if outcome == Done then AtCall(kind, Send) else Leaving
    case _ => Leaving
  }

  function Apply(s: State, e: Event): State
    requires Enabled(s, e)
  {
    match e
    case Enter(t, kind) => s.(running := s.running + 1, ops := s.ops[t := AtCheck(kind)])
    case Check(t) =>
      var next :=
        if s.close then Leaving
        else if s.ops[t].AtLoop? then AtCall(s.ops[t].kind, Receive)
        else if s.ops[t].kind == Write then AtCall(Write, Allocate)
        else AtLoop(s.ops[t].kind);
      s.(ops := s.ops[t := next])
    case Begin(t) => s.(ops := s.ops[t := InCall(s.ops[t].kind, s.ops[t].call)])
    case Finish(t, outcome) => s.(ops := s.ops[t := AfterCall(s.ops[t].kind, s.ops[t].call, outcome)])
    case Wake(t) => s.(ops := s.ops[t := AtCheck(s.ops[t].kind)])
    case Use(t) => s.(ops := s.ops[t := AtCall(s.ops[t].kind, Release)])
    case Lend(t, p) => s.(ops := s.ops - {t}, lent := s.lent + {p})
    case ReleaseLent(t, p) => s.(ops := s.ops[t := AtCall(ReadPacket, Release)], lent := s.lent - {p})
    case Leave(t) => s.(running := s.running - 1, ops := s.ops - {t})
    case StoreClose => s.(close := true, closer := Stored)
    case WaitZero => s.(closer := Waited)
    case End => s.(closer := Ended)
  }

  /** The state after a list of events; what is not enabled does not happen. */
  ghost function Exec(es: seq<Event>): State {
    if es == [] then Init()
    else
      var before, e := Exec(es[..|es| - 1]), es[|es| - 1];
      if Enabled(before, e) then Apply(before, e) else before
  }

  /** The counter is the number of operations under way plus the number of packets not yet released. */
  ghost predicate Counted(s: State) {
    s.running == |s.ops| + |s.lent|
  }

  /** An operation that has not passed the flag, or has seen it set, or has finished. */
  predicate Harmless(pc: Pc) {
    pc.AtCheck? || pc.Leaving?
  }

  /** Once the closer has seen the counter at zero, nobody is past the flag and no packet is out. */
  ghost predicate Drained(s: State) {
    s.lent == {} && forall t :: t in s.ops ==> Harmless(s.ops[t])
  }

  ghost predicate Inv(s: State) {
    && Counted(s)
    && (s.close <==> s.closer != Open)
    && (s.closer == Waited || s.closer == Ended ==> Drained(s))
  }

  lemma UpdateSize(m: map<nat, Pc>, t: nat, pc: Pc)
    ensures |m[t := pc]| == |m| + if t in m then 0 else 1
  {
    assert m[t := pc].Keys == m.Keys + {t};
    if t in m {
      assert m.Keys + {t} == m.Keys;
    }
  }

  lemma RemoveSize(m: map<nat, Pc>, t: nat)
    requires t in m
    ensures |m - {t}| == |m| - 1
  {
    assert (m - {t}).Keys == m.Keys - {t};
  }

  /** Every event keeps the count. */
  lemma CountKept(s: State, e: Event)
    requires Counted(s) && Enabled(s, e)
    ensures Counted(Apply(s, e))
  {
    hide AfterCall;
    match e {
      case Enter(t, kind) => UpdateSize(s.ops, t, AtCheck(kind));
      case Lend(t, p) => RemoveSize(s.ops, t);
      case ReleaseLent(t, p) => UpdateSize(s.ops, t, AtCall(ReadPacket, Release));
      case Leave(t) => RemoveSize(s.ops, t);
      case StoreClose =>
      case WaitZero =>
      case End =>
      case _ => MovesOnly(s, e);
    }
  }

  /** The other events move one operation. */
  lemma MovesOnly(s: State, e: Event)
    requires Enabled(s, e) && (e.Check? || e.Begin? || e.Finish? || e.Wake? || e.Use?)
    ensures var s' := Apply(s, e); s'.running == s.running && |s'.ops| == |s.ops| && s'.lent == s.lent
  {
    hide AfterCall;
    var t, s' := e.op, Apply(s, e);
    assert s'.ops == s.ops[t := s'.ops[t]];
    UpdateSize(s.ops, t, s'.ops[t]);
  }

  lemma StepKeeps(s: State, e: Event)
    requires Inv(s) && Enabled(s, e)
    ensures Inv(Apply(s, e))
  {
    hide Drained;
    hide AfterCall;
    hide Counted;
    CountKept(s, e);
    if e.WaitZero? {
      EmptyDrained(s);
    }
    if s.close && Drained(s) {
      DrainedKept(s, e);
    }
  }

  lemma EmptyDrained(s: State)
    requires Counted(s) && s.running == 0
    ensures Drained(s.(closer := Waited))
  {
    EmptyOps(s.ops);
  }

  /** Behind a set flag, a drained state stays drained. */
  lemma DrainedKept(s: State, e: Event)
    requires Enabled(s, e) && s.close && Drained(s)
    ensures Drained(Apply(s, e))
  {
    hide AfterCall;
  }

  lemma EmptyOps(m: map<nat, Pc>)
    ensures |m| == 0 ==> forall t :: t !in m
  {
  }

  /** How many steps an operation can still make once the flag is set. */
  function Rank(pc: Pc): nat {
    match pc
    case AtCheck(_) => 1
    case AtLoop(_) => 1
    case Parked(_) => 2
    case Holding(_) => 3
    case AtCall(_, call) => if call == Receive then 5 else if call == Allocate then 4 else 2
    case InCall(_, call) => if call == Receive then 4 else if call == Allocate then 3 else 1
    case Leaving => 0
  }

  /** The operation an event belongs to. */
  predicate IsStepOf(e: Event, t: nat) {
    match e
    case Check(u) => u == t
    case Begin(u) => u == t
    case Finish(u, _) => u == t
    case Wake(u) => u == t
    case Use(u) => u == t
    case Lend(u, _) => u == t
    case Leave(u) => u == t
    case _ => false
  }

  /** With the flag set, every step of an operation brings it closer to leaving, and no step of another changes it. */
  lemma ClosingProgress(s: State, e: Event, t: nat)
    requires s.close && t in s.ops && Enabled(s, e)
    ensures var s' := Apply(s, e);
      if IsStepOf(e, t) then t !in s'.ops || Rank(s'.ops[t]) < Rank(s.ops[t])
      else t in s'.ops && s'.ops[t] == s.ops[t]
  {
  }

  lemma {:induction false} AlwaysInv(es: seq<Event>)
    ensures Inv(Exec(es))
    decreases |es|
  {
    if es != [] {
      var front, e := es[..|es| - 1], es[|es| - 1];
      AlwaysInv(front);
      if Enabled(Exec(front), e) {
        StepKeeps(Exec(front), e);
      }
    }
  }

  /** In every run the counter equals the operations under way plus the packets not yet released. */
  lemma RunningCounts(es: seq<Event>)
    ensures Exec(es).running == |Exec(es).ops| + |Exec(es).lent|
  {
    AlwaysInv(es);
  }

  /**
  In every run, once the session has ended there is no session call, none can begin, and no packet is
  held or lent.
  */
  lemma NoUseAfterEnd(es: seq<Event>)
    requires Exec(es).closer == Ended
    ensures var s := Exec(es);
      && s.lent == {}
      && (forall t :: t in s.ops ==> !s.ops[t].InCall? && !s.ops[t].AtCall? && !s.ops[t].Holding?)
      && (forall t :: !Enabled(s, Begin(t)))
  {
    AlwaysInv(es);
  }

  /** Once the flag is set, an operation that enters makes one step and leaves. */
  lemma LateOperationLeaves(es: seq<Event>, t: nat, kind: Kind)
    requires Exec(es).close && t !in Exec(es).ops
    ensures var late := [Enter(t, kind), Check(t), Leave(t)];
      Exec(es + late) == Exec(es)
  {
    var s := Exec(es);
    var a, b := es + [Enter(t, kind)], es + [Enter(t, kind), Check(t)];
    ExecPush(es, Enter(t, kind));
    assert a + [Check(t)] == b;
    ExecPush(a, Check(t));
    assert b + [Leave(t)] == es + [Enter(t, kind), Check(t), Leave(t)];
    ExecPush(b, Leave(t));
    assert Exec(b).ops == s.ops[t := Leaving];
    assert s.ops[t := Leaving] - {t} == s.ops;
  }

  lemma ExecPush(es: seq<Event>, e: Event)
    ensures Exec(es + [e]) == if Enabled(Exec(es), e) then Apply(Exec(es), e) else Exec(es)
  {
    assert (es + [e])[..|es|] == es;
  }

  /** The state after more events. */
  ghost function RunFrom(s: State, es: seq<Event>): State
    decreases |es|
  {
    if es == [] then s else RunFrom(if Enabled(s, es[0]) then Apply(s, es[0]) else s, es[1..])
  }

  lemma RunStep(s: State, e: Event, es: seq<Event>)
    requires Enabled(s, e)
    ensures RunFrom(s, [e] + es) == RunFrom(Apply(s, e), es)
  {
    assert ([e] + es)[1..] == es;
  }

  lemma {:induction false} RunConcat(s: State, a: seq<Event>, b: seq<Event>)
    ensures RunFrom(s, a + b) == RunFrom(RunFrom(s, a), b)
    decreases |a|
  {
    if a == [] {
      assert a + b == b;
    } else {
      assert (a + b)[1..] == a[1..] + b;
      RunConcat(if Enabled(s, a[0]) then Apply(s, a[0]) else s, a[1..], b);
    }
  }

  lemma Unused(s: set<nat>) returns (p: nat)
    ensures p !in s
  {
    var bound: nat := 0;
    var left := s;
    while left != {}
      invariant left <= s && forall x :: x in s && x !in left ==> x < bound
      decreases left
    {
      var x :| x in left;
      bound, left := if x >= bound then x + 1 else bound, left - {x};
    }
    p := bound;
  }

  /** The next move of an operation on its way out. */
  lemma WayOut(s: State, t: nat) returns (es: seq<Event>, pc: Pc)
    requires s.close && t in s.ops && !s.ops[t].Leaving?
    ensures RunFrom(s, es) == s.(ops := s.ops[t := pc]) && Rank(pc) < Rank(s.ops[t])
    ensures forall e :: e in es ==> !e.Enter?
  {
    if s.ops[t] == Holding(ReadPacket) {
      var p := Unused(s.lent);
      pc := AtCall(ReadPacket, Release);
      es := [Lend(t, p)] + [ReleaseLent(t, p)];
      RunStep(s, Lend(t, p), [ReleaseLent(t, p)]);
      var lent := Apply(s, Lend(t, p));
      assert [ReleaseLent(t, p)] == [ReleaseLent(t, p)] + [];
      RunStep(lent, ReleaseLent(t, p), []);
      assert (s.lent + {p}) - {p} == s.lent;
      assert (s.ops - {t})[t := pc] == s.ops[t := pc];
    } else {
      var e := match s.ops[t]
        case AtCall(_, _) => Begin(t)
        case InCall(_, _) => Finish(t, Fail)
        case Holding(_) => Use(t)
        case Parked(_) => Wake(t)
        case _ => Check(t);
      es, pc := [e] + [], Apply(s, e).ops[t];
      RunStep(s, e, []);
    }
  }

  /** With the flag set, an operation can get out whatever it is doing. */
  lemma {:induction false} DriveOut(s: State, t: nat) returns (es: seq<Event>)
    requires s.close && t in s.ops
    ensures RunFrom(s, es) == s.(ops := s.ops - {t}, running := s.running - 1)
    ensures forall e :: e in es ==> !e.Enter?
    decreases Rank(s.ops[t])
  {
    if s.ops[t].Leaving? {
      es := [Leave(t)] + [];
      RunStep(s, Leave(t), []);
    } else {
      hide RunFrom;
      var first, pc := WayOut(s, t);
      var next := s.(ops := s.ops[t := pc]);
      var rest := DriveOut(next, t);
      es := first + rest;
      RunConcat(s, first, rest);
      assert s.ops[t := pc] - {t} == s.ops - {t};
    }
  }

  /** With the flag set, all operations can get out and all packets be released. */
  lemma {:induction false} DrainAll(s: State) returns (es: seq<Event>)
    requires s.close && Counted(s)
    ensures RunFrom(s, es) == s.(ops := map[], lent := {}, running := 0)
    ensures forall e :: e in es ==> !e.Enter?
    decreases s.lent, |s.ops|
  {
    hide RunFrom;
    if s.ops != map[] {
      var t :| t in s.ops;
      RemoveSize(s.ops, t);
      var first := DriveOut(s, t);
      var rest := DrainAll(s.(ops := s.ops - {t}, running := s.running - 1));
      es := first + rest;
      RunConcat(s, first, rest);
    } else if s.lent != {} {
      var p :| p in s.lent;
      var e := ReleaseLent(0, p);
      var next := Apply(s, e);
      CountKept(s, e);
      var rest := DrainAll(next);
      es := [e] + rest;
      RunStep(s, e, rest);
    } else {
      es := [];
      RunNothing(s);
    }
  }

  lemma RunNothing(s: State)
    ensures RunFrom(s, []) == s
  {
  }

  /**
  Close is never stuck: once the flag is set, every run can go on, with nobody entering, to the end of
  the session.
  */
  lemma CloseCanEnd(es: seq<Event>) returns (more: seq<Event>)
    requires Exec(es).close
    ensures RunFrom(Exec(es), more).closer == Ended
    ensures forall e :: e in more ==> !e.Enter?
  {
    AlwaysInv(es);
    hide Exec;
    var s := Exec(es);
    if s.closer == Stored {
      var drain := DrainAll(s);
      var empty := RunFrom(s, drain);
      more := drain + ([WaitZero] + ([End] + []));
      RunConcat(s, drain, [WaitZero] + ([End] + []));
      RunStep(empty, WaitZero, [End] + []);
      RunStep(Apply(empty, WaitZero), End, []);
    } else if s.closer == Waited {
      more := [End] + [];
      RunStep(s, End, []);
    } else {
      more := [];
    }
  }

  // What happens to packets

  datatype Happening = Received | Released | Allocated | Sent

  /**
  The event is one of these: a successful receive or allocation, or the call that gives the packet
  back or sends it.
  */
  predicate Happens(s: State, e: Event, h: Happening) {
    && Enabled(s, e)
    && match h
       case Received => e.Finish? && e.outcome == Done && s.ops[e.op].call == Receive
       case Released => e.Begin? && s.ops[e.op].call == Release
       case Allocated => e.Finish? && e.outcome == Done && s.ops[e.op].call == Allocate
       case Sent => e.Begin? && s.ops[e.op].call == Send
  }

  /** How often it happens in a run. */
  ghost function Times(es: seq<Event>, h: Happening): nat {
    if es == [] then 0
    else
      var front := es[..|es| - 1];
      Times(front, h) + if Happens(Exec(front), es[|es| - 1], h) then 1 else 0
  }

  /** An operation that has a packet to give back. */
  predicate Owes(pc: Pc) {
    pc.Holding? || (pc.AtCall? && pc.call == Release)
  }

  /** An operation that has a packet to send. */
  predicate HasToSend(pc: Pc) {
    pc.AtCall? && pc.call == Send
  }

  ghost function Owing(ops: map<nat, Pc>): set<nat> {
    set t | t in ops && Owes(ops[t])
  }

  ghost function Sending(ops: map<nat, Pc>): set<nat> {
    set t | t in ops && HasToSend(ops[t])
  }

  lemma Replaced(a: set<nat>, b: set<nat>, t: nat, now: bool)
    requires b == a - {t} + if now then {t} else {}
    ensures |b| == |a| - (if t in a then 1 else 0) + (if now then 1 else 0)
  {
    if now {
      assert b == a - {t} + {t};
    } else {
      assert b == a - {t};
    }
  }

  lemma OwingIs(ops: map<nat, Pc>, t: nat, pc: Pc)
    ensures Owing(ops[t := pc]) == Owing(ops) - {t} + if Owes(pc) then {t} else {}
    ensures t in Owing(ops) <==> t in ops && Owes(ops[t])
  {
    hide Owes;
    var a, b := Owing(ops[t := pc]), Owing(ops) - {t} + if Owes(pc) then {t} else {};
    forall x ensures x in a <==> x in b {
    }
  }

  lemma SendingIs(ops: map<nat, Pc>, t: nat, pc: Pc)
    ensures Sending(ops[t := pc]) == Sending(ops) - {t} + if HasToSend(pc) then {t} else {}
    ensures t in Sending(ops) <==> t in ops && HasToSend(ops[t])
  {
    hide HasToSend;
    var a, b := Sending(ops[t := pc]), Sending(ops) - {t} + if HasToSend(pc) then {t} else {};
    forall x ensures x in a <==> x in b {
    }
  }

  lemma OwingMoves(ops: map<nat, Pc>, t: nat, pc: Pc)
    ensures |Owing(ops[t := pc])| == |Owing(ops)|
      + (if Owes(pc) then 1 else 0) - (if t in ops && Owes(ops[t]) then 1 else 0)
    ensures |Sending(ops[t := pc])| ==
      |Sending(ops)| + (if HasToSend(pc) then 1 else 0) - (if t in ops && HasToSend(ops[t]) then 1 else 0)
  {
    hide *;
    OwingIs(ops, t, pc);
    SendingIs(ops, t, pc);
    Replaced(Owing(ops), Owing(ops[t := pc]), t, Owes(pc));
    Replaced(Sending(ops), Sending(ops[t := pc]), t, HasToSend(pc));
  }

  lemma OwingLeaves(ops: map<nat, Pc>, t: nat)
    requires t in ops
    ensures |Owing(ops - {t})| == |Owing(ops)| - (if Owes(ops[t]) then 1 else 0)
    ensures |Sending(ops - {t})| == |Sending(ops)| - (if HasToSend(ops[t]) then 1 else 0)
  {
    assert Owing(ops - {t}) == Owing(ops) - {t};
    assert Sending(ops - {t}) == Sending(ops) - {t};
  }

  /** What one event does to the packets that are out. */
  lemma PacketsStep(s: State, e: Event)
    requires Enabled(s, e)
    ensures var s' := Apply(s, e);
      && |Owing(s'.ops)| + |s'.lent| + (if Happens(s, e, Released) then 1 else 0)
           == |Owing(s.ops)| + |s.lent| + (if Happens(s, e, Received) then 1 else 0)
      && |Sending(s'.ops)| + (if Happens(s, e, Sent) then 1 else 0)
           == |Sending(s.ops)| + (if Happens(s, e, Allocated) then 1 else 0)
  {
    hide Owing;
    hide Sending;
    match e {
      case Enter(t, kind) => OwingMoves(s.ops, t, AtCheck(kind));
      case Check(t) => OwingMoves(s.ops, t, Apply(s, e).ops[t]);
      case Begin(t) => OwingMoves(s.ops, t, Apply(s, e).ops[t]);
      case Finish(t, _) => OwingMoves(s.ops, t, Apply(s, e).ops[t]);
      case Wake(t) => OwingMoves(s.ops, t, Apply(s, e).ops[t]);
      case Use(t) => OwingMoves(s.ops, t, Apply(s, e).ops[t]);
      case Lend(t, p) => OwingLeaves(s.ops, t);
      case ReleaseLent(t, p) => OwingMoves(s.ops, t, AtCall(ReadPacket, Release));
      case Leave(t) => OwingLeaves(s.ops, t);
      case _ =>
    }
  }

  /**
  In every run, the packets received are those given back plus those that are held, about to be
  given back or lent; and the packets allocated are those sent plus those about to be sent.
  */
  lemma {:induction false} PacketsConserved(es: seq<Event>)
    ensures Times(es, Received) == Times(es, Released) + |Owing(Exec(es).ops)| + |Exec(es).lent|
    ensures Times(es, Allocated) == Times(es, Sent) + |Sending(Exec(es).ops)|
    decreases |es|
  {
    hide Happens;
    if es == [] {
      assert Owing(map[]) == {} && Sending(map[]) == {};
    } else {
      var front, e := es[..|es| - 1], es[|es| - 1];
      PacketsConserved(front);
      if Enabled(Exec(front), e) {
        PacketsStep(Exec(front), e);
      } else {
        NothingHappens(Exec(front), e);
      }
    }
  }

  lemma NothingHappens(s: State, e: Event)
    requires !Enabled(s, e)
    ensures forall h :: !Happens(s, e, h)
  {
  }

  /**
  In every run, when the session has ended every packet received has been given back, and every one
  allocated sent.
  */
  lemma AllGivenBack(es: seq<Event>)
    requires Exec(es).closer == Ended
    ensures Times(es, Received) == Times(es, Released) && Times(es, Allocated) == Times(es, Sent)
  {
    NoUseAfterEnd(es);
    PacketsConserved(es);
    hide Exec;
    hide Times;
    assert Owing(Exec(es).ops) == {} && Sending(Exec(es).ops) == {};
  }
}
