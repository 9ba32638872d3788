/**
TCPNat under any interleaving of lookups and its reaper.

Every region that runs under a lock is one atomic event.  A lookup holds no lock between its
regions, so it may act on a port or a session that has meanwhile gone.  The reaper holds the read
lock on the ports while it scans and both write locks while it sweeps.
*/
module NatProtocol {
  import opened Wrappers
  import opened Bytes
  import opened NatPorts
  import opened TcpNat

  datatype Session = Session(key: NatKey, lastActive: int)

  /** Where a lookup goes next. */
  datatype Thread = WantLock(key: NatKey) | WantSession(port: u16) | WantRefresh(session: nat)

  datatype Expired = Expired(port: u16, session: nat)

  datatype Reaper =
    | Idle
    | Timed(now: int)
    | Scanning(now: int, left: set<u16>, expired: seq<Expired>)
    | Waiting(now: int, expired: seq<Expired>)
    | Sweeping(now: int, expired: seq<Expired>)

  /** A lookup of `key` was given `port`, which was that of `session`. */
  datatype Grant = Grant(key: NatKey, port: u16, session: nat)

  /**
  `sessions` holds every session ever made.  The rest is history: `refreshed` the sessions refreshed
  since the reaper read its clock, `granted` what lookups were given, `swept` the sessions removed.
  */
  datatype State = State(
    timeout: int, clock: int, portIndex: u16, addrMap: map<NatKey, u16>, portMap: map<u16, nat>,
    sessions: seq<Session>, threads: map<nat, Thread>, reaper: Reaper, refreshed: set<nat>,
    granted: set<Grant>, swept: set<nat>)

  datatype Event =
    | Tick(now: int)
    | LookupFast(thread: nat, key: NatKey)
    | LookupSlow(thread: nat)
    | LookupBack(thread: nat, port: u16)
    | FindSession(thread: nat)
    | Refresh(thread: nat, later: int)
    | ReadClock
    | ScanStart
    | ScanOne(port: u16)
    | ScanEnd
    | SweepStart
    | SweepOne
    | SweepEnd

  function Init(timeout: int, clock: int): State {
    State(timeout, clock, FIRST_PORT, map[], map[], [], map[], Idle, {}, {}, {})
  }

  /** Lock order and program order. */
  predicate Enabled(s: State, e: Event) {
    match e
    case Tick(now) => now >= s.clock
    case LookupFast(t, _) => t !in s.threads && !s.reaper.Sweeping?
    case LookupSlow(t) =>
      && t in s.threads && s.threads[t].WantLock? && !s.reaper.Sweeping?
      && (s.threads[t].key in s.addrMap || !s.reaper.Scanning?)
    case LookupBack(t, _) => t !in s.threads
    case FindSession(t) => t in s.threads && s.threads[t].WantSession? && !s.reaper.Sweeping?
    case Refresh(t, later) =>
      t in s.threads && s.threads[t].WantRefresh? && s.threads[t].session < |s.sessions| && later >= s.clock
    case ReadClock => s.reaper.Idle?
    case ScanStart => s.reaper.Timed?
    case ScanOne(port) =>
      s.reaper.Scanning? && port in s.reaper.left && port in s.portMap && s.portMap[port] < |s.sessions|
    case ScanEnd => s.reaper.Scanning? && s.reaper.left == {}
    case SweepStart => s.reaper.Waiting?
    case SweepOne => s.reaper.Sweeping? && s.reaper.expired != [] && s.reaper.expired[0].session < |s.sessions|
    case SweepEnd => s.reaper.Sweeping? && s.reaper.expired == []
  }

  /** A new pair under both write locks. */
  function Inserted(s: State, key: NatKey): State {
    var r := Probe(s.portIndex, s.portMap.Keys, PORT_COUNT);
    match r.port
    case None => s.(portIndex := r.index)
    case Some(port) =>
      s.(portIndex := r.index, addrMap := s.addrMap[key := port], portMap := s.portMap[port := |s.sessions|],
         sessions := s.sessions + [Session(key, s.clock)], granted := s.granted + {Grant(key, port, |s.sessions|)})
  }

  /** What a lookup of a known pair is given. */
  function Known(s: State, key: NatKey): set<Grant> {
    if key in s.addrMap && s.addrMap[key] in s.portMap then
      {Grant(key, s.addrMap[key], s.portMap[s.addrMap[key]])}
    else {}
  }

  /** The second look at a collected session. */
  function Swept(s: State, e: Expired): State
    requires e.session < |s.sessions| && s.reaper.Sweeping?
  {
    if TimedOut(s.sessions[e.session].lastActive, s.reaper.now, s.timeout) then
      s.(addrMap := s.addrMap - {s.sessions[e.session].key}, portMap := s.portMap - {e.port},
         swept := s.swept + {e.session})
    else s
  }

  function Apply(s: State, e: Event): State
    requires Enabled(s, e)
  {
    match e
    case Tick(now) => s.(clock := now)
    case LookupFast(t, key) =>
      s.(threads := s.threads[t := if key in s.addrMap then WantSession(s.addrMap[key]) else WantLock(key)],
         granted := s.granted + Known(s, key))
    case LookupSlow(t) =>
      var key := s.threads[t].key;
      if key in s.addrMap then
        s.(threads := s.threads[t := WantSession(s.addrMap[key])], granted := s.granted + Known(s, key))
      else Inserted(s.(threads := s.threads - {t}), key)
    case LookupBack(t, port) => s.(threads := s.threads[t := WantSession(port)])
    case FindSession(t) =>
      var port := s.threads[t].port;
      s.(threads := if port in s.portMap then s.threads[t := WantRefresh(s.portMap[port])] else s.threads - {t})
    case Refresh(t, later) =>
      var id := s.threads[t].session;
      var active := RefreshedAt(s.sessions[id].lastActive, s.clock, later);
      s.(sessions := s.sessions[id := s.sessions[id].(lastActive := active)],
         threads := s.threads - {t}, clock := later, refreshed := s.refreshed + {id})
    case ReadClock => s.(reaper := Timed(s.clock), refreshed := {})
    case ScanStart => s.(reaper := Scanning(s.reaper.now, s.portMap.Keys, []))
    case ScanOne(port) =>
      var id := s.portMap[port];
      s.(reaper := s.reaper.(
           left := s.reaper.left - {port},
           expired := s.reaper.expired
             + if TimedOut(s.sessions[id].lastActive, s.reaper.now, s.timeout) then [Expired(port, id)] else []))
    case ScanEnd => s.(reaper := if s.reaper.expired == [] then Idle else Waiting(s.reaper.now, s.reaper.expired))
    case SweepStart => s.(reaper := Sweeping(s.reaper.now, s.reaper.expired))
    case SweepOne => Swept(s, s.reaper.expired[0]).(reaper := s.reaper.(expired := s.reaper.expired[1..]))
    case SweepEnd => s.(reaper := Idle)
  }

  /** Each map undoes the other. */
  ghost predicate Inverse(s: State) {
    && (forall port :: port in s.portMap ==>
          && FIRST_PORT <= port && s.portMap[port] < |s.sessions|
          && s.sessions[s.portMap[port]].key in s.addrMap && s.addrMap[s.sessions[s.portMap[port]].key] == port)
    && (forall key :: key in s.addrMap ==>
          && s.addrMap[key] in s.portMap && s.portMap[s.addrMap[key]] < |s.sessions|
          && s.sessions[s.portMap[s.addrMap[key]]].key == key)
  }

  /** What the reaper has collected is still in place: only the reaper removes sessions. */
  ghost predicate Collected(portMap: map<u16, nat>, expired: seq<Expired>) {
    && (forall i :: 0 <= i < |expired| ==> expired[i].port in portMap && portMap[expired[i].port] == expired[i].session)
    && (forall i, j :: 0 <= i < j < |expired| ==> expired[i].port != expired[j].port)
  }

  ghost predicate ReaperOk(s: State) {
    match s.reaper
    case Idle => true
    case Timed(now) => now <= s.clock
    case Scanning(now, left, expired) =>
      && now <= s.clock && left <= s.portMap.Keys && Collected(s.portMap, expired)
      && (forall i :: 0 <= i < |expired| ==> expired[i].port !in left)
    case Waiting(now, expired) => now <= s.clock && Collected(s.portMap, expired)
    case Sweeping(now, expired) => now <= s.clock && Collected(s.portMap, expired)
  }

  ghost predicate ThreadsOk(s: State) {
    forall t :: t in s.threads && s.threads[t].WantRefresh? ==> s.threads[t].session < |s.sessions|
  }

  ghost predicate Inv(s: State) {
    Reachable(s.portIndex) && Inverse(s) && ReaperOk(s) && ThreadsOk(s)
  }

  lemma InsertedKeeps(s: State, key: NatKey)
    requires Inv(s) && key !in s.addrMap && !s.reaper.Scanning? && !s.reaper.Sweeping?
    ensures Inv(Inserted(s, key))
  {
    hide Probe;
    hide Collected;
    AllocatorComplete(s.portIndex, s.portMap.Keys);
    var r := Probe(s.portIndex, s.portMap.Keys, PORT_COUNT);
    if r.port.None? {
      SameTables(s, Inserted(s, key));
    } else {
      var s', port := Inserted(s, key), r.port.value;
      assert forall id :: 0 <= id < |s.sessions| ==> s'.sessions[id] == s.sessions[id];
      assert Inverse(s');
      if s.reaper.Waiting? {
        CollectedGrows(s.portMap, port, |s.sessions|, s.reaper.expired);
      }
    }
  }

  lemma NoneCollected(portMap: map<u16, nat>)
    ensures Collected(portMap, [])
  {
  }

  lemma CollectedGrows(portMap: map<u16, nat>, port: u16, id: nat, expired: seq<Expired>)
    requires port !in portMap && Collected(portMap, expired)
    ensures Collected(portMap[port := id], expired)
  {
  }

  /** Removing a session from both maps keeps them inverse, and everything else collected in place. */
  lemma RemovedKeeps(s: State, s': State, e: Expired)
    requires Inverse(s) && e.port in s.portMap && s.portMap[e.port] == e.session && s'.sessions == s.sessions
    requires s'.addrMap == s.addrMap - {s.sessions[e.session].key} && s'.portMap == s.portMap - {e.port}
    ensures Inverse(s')
  {
  }

  lemma SweptKeeps(s: State)
    requires Inv(s) && Enabled(s, SweepOne)
    ensures Inv(Apply(s, SweepOne))
  {
    hide Inverse;
    hide Probe;
    var s' := Apply(s, SweepOne);
    var expired, rest := s.reaper.expired, s.reaper.expired[1..];
    assert forall i :: 0 <= i < |rest| ==> rest[i] == expired[i + 1];
    if TimedOut(s.sessions[expired[0].session].lastActive, s.reaper.now, s.timeout) {
      RemovedKeeps(s, s', expired[0]);
    } else {
      SameTables(s, s');
    }
  }

  lemma SameTables(s: State, s': State)
    requires Inverse(s) && s'.addrMap == s.addrMap && s'.portMap == s.portMap && s'.sessions == s.sessions
    ensures Inverse(s')
  {
  }

  lemma RefreshKeeps(s: State, t: nat, later: int)
    requires Inv(s) && Enabled(s, Refresh(t, later))
    ensures Inv(Apply(s, Refresh(t, later)))
  {
    var s' := Apply(s, Refresh(t, later));
    assert forall id :: 0 <= id < |s.sessions| ==> s'.sessions[id].key == s.sessions[id].key;
    assert Inverse(s');
  }

  lemma ScanKeeps(s: State, port: u16)
    requires Inv(s) && Enabled(s, ScanOne(port))
    ensures Inv(Apply(s, ScanOne(port)))
  {
    hide Inverse;
    hide Probe;
    SameTables(s, Apply(s, ScanOne(port)));
  }

  /** Every event keeps the invariant. */
  lemma StepKeeps(s: State, e: Event)
    requires Inv(s) && Enabled(s, e)
    ensures Inv(Apply(s, e))
  {
    hide Inverse;
    hide Probe;
    hide Known;
    hide Collected;
    NoneCollected(s.portMap);
    match e {
      case LookupSlow(t) =>
        if s.threads[t].key !in s.addrMap {
          var rest := s.(threads := s.threads - {t});
          SameTables(s, rest);
          InsertedKeeps(rest, s.threads[t].key);
        } else {
          SameTables(s, Apply(s, e));
        }
      case Refresh(t, later) =>
        RefreshKeeps(s, t, later);
      case ScanOne(port) =>
        ScanKeeps(s, port);
      case SweepOne =>
        SweptKeeps(s);
      case _ =>
        SameTables(s, Apply(s, e));
    }
  }

  /** The state after a list of events; what is not enabled does not happen. */
  ghost function Exec(s: State, es: seq<Event>): State {
    if es == [] then s
    else
      var before, e := Exec(s, es[..|es| - 1]), es[|es| - 1];
      if Enabled(before, e) then Apply(before, e) else before
  }

  /** Refreshed sessions are not idle in the eyes of the reaper. */
  ghost predicate Spared(s: State) {
    !s.reaper.Idle? ==>
      forall id :: id in s.refreshed ==>
        id < |s.sessions| && !TimedOut(s.sessions[id].lastActive, s.reaper.now, s.timeout)
  }

  lemma SparedStep(s: State, e: Event)
    requires Inv(s) && Spared(s) && Enabled(s, e) && s.timeout >= SECOND
    ensures Spared(Apply(s, e)) && Apply(s, e).timeout == s.timeout
  {
    hide Inverse;
    hide Probe;
    hide Collected;
  }

  /**
  What was given stays true: the session of a grant is one of its pair, and it answers for the port
  until it is swept, never after.
  */
  ghost predicate GrantsHold(s: State) {
    && (forall g :: g in s.granted ==>
          && g.session < |s.sessions| && s.sessions[g.session].key == g.key
          && (g.session in s.swept || (g.port in s.portMap && s.portMap[g.port] == g.session)))
    && (forall id :: id in s.swept ==> id < |s.sessions|)
    && (forall port :: port in s.portMap ==> s.portMap[port] !in s.swept)
    && (forall a, b :: a in s.portMap && b in s.portMap && s.portMap[a] == s.portMap[b] ==> a == b)
  }

  lemma InsertedGrants(s: State, key: NatKey)
    requires Inverse(s) && GrantsHold(s) && Reachable(s.portIndex) && key !in s.addrMap
    ensures GrantsHold(Inserted(s, key))
  {
    hide Probe;
    AllocatorComplete(s.portIndex, s.portMap.Keys);
    var r := Probe(s.portIndex, s.portMap.Keys, PORT_COUNT);
    if r.port.Some? {
      var s' := Inserted(s, key);
      assert forall id :: 0 <= id < |s.sessions| ==> s'.sessions[id] == s.sessions[id];
    }
  }

  lemma SweptGrants(s: State, e: Expired)
    requires GrantsHold(s) && s.reaper.Sweeping? && e.port in s.portMap && s.portMap[e.port] == e.session < |s.sessions|
    ensures GrantsHold(Swept(s, e))
  {
  }

  lemma KnownGrants(s: State, s': State, key: NatKey)
    requires Inverse(s) && GrantsHold(s) && s'.granted == s.granted + Known(s, key)
    requires s'.portMap == s.portMap && s'.sessions == s.sessions && s'.swept == s.swept
    ensures GrantsHold(s')
  {
  }

  lemma SameGrants(s: State, s': State)
    requires GrantsHold(s) && s'.granted == s.granted && s'.portMap == s.portMap && s'.swept == s.swept
    requires |s'.sessions| == |s.sessions|
    requires forall id :: 0 <= id < |s.sessions| ==> s'.sessions[id].key == s.sessions[id].key
    ensures GrantsHold(s')
  {
  }

  lemma GrantsStep(s: State, e: Event)
    requires Inv(s) && GrantsHold(s) && Enabled(s, e)
    ensures GrantsHold(Apply(s, e))
  {
    hide Inverse;
    hide GrantsHold;
    hide Probe;
    match e {
      case LookupFast(t, key) =>
        KnownGrants(s, Apply(s, e), key);
      case LookupSlow(t) =>
        var key := s.threads[t].key;
        if key in s.addrMap {
          KnownGrants(s, Apply(s, e), key);
        } else {
          var rest := s.(threads := s.threads - {t});
          SameTables(s, rest);
          SameGrants(s, rest);
          InsertedGrants(rest, key);
        }
      case SweepOne =>
        var x := s.reaper.expired[0];
        assert x.port in s.portMap && s.portMap[x.port] == x.session;
        SweptGrants(s, x);
        SameGrants(Swept(s, x), Apply(s, e));
      case _ =>
        SameGrants(s, Apply(s, e));
    }
  }

  /** The session of a port was refreshed since the reaper read its clock, or was not idle then. */
  predicate Exempt(s: State, port: u16, now: int)
    requires port in s.portMap && s.portMap[port] < |s.sessions|
  {
    s.portMap[port] in s.refreshed || !TimedOut(s.sessions[s.portMap[port]].lastActive, now, s.timeout)
  }

  ghost predicate Listed(expired: seq<Expired>, port: u16) {
    exists i :: 0 <= i < |expired| && expired[i].port == port
  }

  /** The reaper lets no idle session get away: it is still to be looked at, or collected. */
  ghost predicate Pursued(s: State)
    requires Inverse(s)
  {
    match s.reaper
    case Scanning(now, left, expired) =>
      forall port :: port in s.portMap ==> Exempt(s, port, now) || port in left || Listed(expired, port)
    case Waiting(now, expired) => forall port :: port in s.portMap ==> Exempt(s, port, now) || Listed(expired, port)
    case Sweeping(now, expired) => forall port :: port in s.portMap ==> Exempt(s, port, now) || Listed(expired, port)
    case _ => true
  }

  lemma ListedMore(expired: seq<Expired>, e: seq<Expired>, port: u16)
    ensures Listed(expired + e, port) <==> Listed(expired, port) || Listed(e, port)
  {
    if Listed(expired, port) {
      var i :| 0 <= i < |expired| && expired[i].port == port;
      assert (expired + e)[i].port == port;
    }
    if Listed(e, port) {
      var i :| 0 <= i < |e| && e[i].port == port;
      assert (expired + e)[|expired| + i].port == port;
    }
  }

  /** Looking at a session collects it if it is idle. */
  lemma ScanPursues(s: State, port: u16)
    requires Inv(s) && Pursued(s) && Enabled(s, ScanOne(port)) && Inverse(Apply(s, ScanOne(port)))
    ensures Pursued(Apply(s, ScanOne(port)))
  {
    hide Inverse;
    var s' := Apply(s, ScanOne(port));
    var added := s'.reaper.expired[|s.reaper.expired|..];
    assert s'.reaper.expired == s.reaper.expired + added;
    InverseBounds(s);
    forall p | p in s.portMap
      ensures Exempt(s', p, s.reaper.now) || p in s'.reaper.left || Listed(s'.reaper.expired, p)
    {
      ListedMore(s.reaper.expired, added, p);
      if p == port && !Exempt(s', p, s.reaper.now) {
        assert added[0].port == port;
      }
    }
  }

  lemma InverseBounds(s: State)
    requires Inverse(s)
    ensures forall port :: port in s.portMap ==> s.portMap[port] < |s.sessions|
  {
  }

  /** The sweep drops what it looks at from its list, and removes it if it is still idle. */
  lemma SweepPursues(s: State)
    requires Inv(s) && Pursued(s) && Enabled(s, SweepOne) && Inverse(Apply(s, SweepOne))
    ensures Pursued(Apply(s, SweepOne))
  {
    hide Inverse;
    var s', first, rest := Apply(s, SweepOne), s.reaper.expired[0], s.reaper.expired[1..];
    assert s.reaper.expired == [first] + rest;
    InverseBounds(s);
    forall p | p in s'.portMap ensures Exempt(s', p, s.reaper.now) || Listed(rest, p) {
      ListedMore([first], rest, p);
      if Listed([first], p) && !Listed(rest, p) {
        assert p == first.port;
        assert s.portMap[p] == first.session;
      }
    }
  }

  /** A new session is not idle to a clock read before. */
  lemma InsertedPursued(s: State, key: NatKey)
    requires Inv(s) && Pursued(s) && s.timeout >= 0 && key !in s.addrMap && Inverse(Inserted(s, key))
    ensures Pursued(Inserted(s, key))
  {
    hide Inverse;
    hide Probe;
    hide Listed;
    var s' := Inserted(s, key);
    InverseBounds(s);
    AllocatorComplete(s.portIndex, s.portMap.Keys);
  }

  lemma RefreshPursued(s: State, t: nat, later: int)
    requires Inv(s) && Pursued(s) && Enabled(s, Refresh(t, later)) && Inverse(Apply(s, Refresh(t, later)))
    ensures Pursued(Apply(s, Refresh(t, later)))
  {
    hide Inverse;
    hide Listed;
    InverseBounds(s);
  }

  lemma PursuedStep(s: State, e: Event)
    requires Inv(s) && Pursued(s) && s.timeout >= 0 && Enabled(s, e) && Inverse(Apply(s, e))
    ensures Pursued(Apply(s, e))
  {
    hide Inverse;
    hide Probe;
    hide Listed;
    hide Known;
    match e {
      case LookupSlow(t) =>
        if s.threads[t].key !in s.addrMap {
          var rest := s.(threads := s.threads - {t});
          SameTables(s, rest);
          InsertedPursued(rest, s.threads[t].key);
        }
      case Refresh(t, later) =>
        RefreshPursued(s, t, later);
      case ScanOne(port) =>
        ScanPursues(s, port);
      case SweepOne =>
        SweepPursues(s);
      case ScanEnd =>
        InverseBounds(s);
      case _ =>
    }
  }

  /** In every state of every run the two maps are inverse to each other, and what lookups were given holds. */
  lemma {:induction false} MapsInverse(timeout: int, clock: int, es: seq<Event>)
    ensures Inv(Exec(Init(timeout, clock), es)) && Exec(Init(timeout, clock), es).timeout == timeout
    ensures GrantsHold(Exec(Init(timeout, clock), es))
    ensures timeout >= 0 ==> Pursued(Exec(Init(timeout, clock), es))
    ensures timeout >= SECOND ==> Spared(Exec(Init(timeout, clock), es))
    decreases |es|
  {
    hide Probe;
    if es != [] {
      var front, e := es[..|es| - 1], es[|es| - 1];
      MapsInverse(timeout, clock, front);
      var s := Exec(Init(timeout, clock), front);
      if Enabled(s, e) {
        StepKeeps(s, e);
        KeepsTimeout(s, e);
        GrantsStep(s, e);
        if timeout >= 0 {
          PursuedStep(s, e);
        }
        if timeout >= SECOND {
          SparedStep(s, e);
        }
      }
    }
  }

  lemma KeepsTimeout(s: State, e: Event)
    requires Enabled(s, e)
    ensures Apply(s, e).timeout == s.timeout
  {
    hide Probe;
  }

  /** In every run, a reply finds the session of exactly the pair whose lookups give its port. */
  lemma ReplyFindsPair(timeout: int, clock: int, es: seq<Event>, t: nat)
    requires Enabled(Exec(Init(timeout, clock), es), FindSession(t))
    ensures var s := Exec(Init(timeout, clock), es);
      var port, s' := s.threads[t].port, Apply(s, FindSession(t));
      && (port in s.portMap <==> t in s'.threads && s'.threads[t].WantRefresh? && s'.threads[t].session < |s'.sessions|)
      && (forall key :: key in s.addrMap && s.addrMap[key] == port ==> port in s.portMap)
      && (port in s.portMap ==> forall key ::
            key in s'.addrMap && s'.addrMap[key] == port <==> s'.sessions[s'.threads[t].session].key == key)
  {
    hide Exec;
    hide Probe;
    MapsInverse(timeout, clock, es);
  }

  /**
  In every run, a port that a lookup once gave to a pair is answered with the session of that pair
  if and only if that session has not been swept since.
  */
  lemma GrantAnswered(timeout: int, clock: int, es: seq<Event>, t: nat, g: Grant)
    requires var s := Exec(Init(timeout, clock), es);
      g in s.granted && Enabled(s, FindSession(t)) && s.threads[t].port == g.port
    ensures var s := Exec(Init(timeout, clock), es);
      var s' := Apply(s, FindSession(t));
      && g.session < |s'.sessions| && s'.sessions[g.session].key == g.key
      && (t in s'.threads && s'.threads[t] == WantRefresh(g.session) <==> g.session !in s.swept)
  {
    hide Exec;
    hide Probe;
    MapsInverse(timeout, clock, es);
  }

  /** A lookup that comes back with a port has been granted it. */
  lemma LookupGrants(s: State, t: nat, key: NatKey)
    requires Inv(s)
    ensures var e := LookupFast(t, key);
      Enabled(s, e) && key in s.addrMap ==>
        exists g :: g in Apply(s, e).granted && g.key == key && Apply(s, e).threads[t] == WantSession(g.port)
    ensures var e := LookupSlow(t);
      Enabled(s, e) && s.threads[t].key == key ==>
        var s' := Apply(s, e);
        || (exists g :: g in s'.granted && g.key == key && key in s'.addrMap && s'.addrMap[key] == g.port)
        || (forall port: u16 :: FIRST_PORT <= port ==> port in s.portMap)
  {
    hide Probe;
    AllocatorComplete(s.portIndex, s.portMap.Keys);
    var r := Probe(s.portIndex, s.portMap.Keys, PORT_COUNT);
    if key in s.addrMap {
      assert Grant(key, s.addrMap[key], s.portMap[s.addrMap[key]]) in Known(s, key);
    } else if Enabled(s, LookupSlow(t)) && s.threads[t].key == key && r.port.Some? {
      assert Grant(key, r.port.value, |s.sessions|) in Apply(s, LookupSlow(t)).granted;
    }
  }

  /**
  In every run, with the event that makes the reaper idle again no idle session is left: every one in
  the table was refreshed since the reaper read its clock, or was not idle then.
  */
  lemma IdleSwept(timeout: int, clock: int, es: seq<Event>, e: Event, port: u16)
    requires timeout >= 0
    requires var s := Exec(Init(timeout, clock), es);
      Enabled(s, e) && !s.reaper.Idle? && Apply(s, e).reaper.Idle?
    ensures var s := Exec(Init(timeout, clock), es);
      var s' := Apply(s, e);
      port in s'.portMap ==>
        && s'.portMap[port] < |s'.sessions|
        && (s'.portMap[port] in s'.refreshed || s.reaper.now - s'.sessions[s'.portMap[port]].lastActive <= timeout)
  {
    MapsInverse(timeout, clock, es);
    hide *;
    PassEnds(Exec(Init(timeout, clock), es), e, port);
  }

  lemma PassEnds(s: State, e: Event, port: u16)
    requires Inv(s) && Pursued(s) && Enabled(s, e) && !s.reaper.Idle? && Apply(s, e).reaper.Idle?
    ensures var s' := Apply(s, e);
      port in s'.portMap ==>
        && s'.portMap[port] < |s'.sessions|
        && (s'.portMap[port] in s'.refreshed || s.reaper.now - s'.sessions[s'.portMap[port]].lastActive <= s.timeout)
  {
    InverseBounds(s);
    hide Inverse;
    hide Probe;
    hide Known;
    hide Collected;
    assert e.ScanEnd? || e.SweepEnd?;
    assert !Listed([], port);
  }

  /** The reaper always has a next step. */
  lemma ReaperCanStep(s: State) returns (e: Event)
    requires Inv(s)
    ensures Enabled(s, e) && ReaperStep(e)
  {
    hide Probe;
    InverseBounds(s);
    hide Inverse;
    match s.reaper {
      case Idle => e := ReadClock;
      case Timed(_) => e := ScanStart;
      case Scanning(_, left, _) =>
        if left == {} {
          e := ScanEnd;
        } else {
          var port :| port in left;
          e := ScanOne(port);
        }
      case Waiting(_, _) => e := SweepStart;
      case Sweeping(_, expired) => e := if expired == [] then SweepEnd else SweepOne;
    }
  }

  lemma SizeWithout(s: set<u16>, x: u16)
    requires x in s
    ensures |s - {x}| == |s| - 1
  {
  }

  lemma SizeKeys(m: map<u16, nat>)
    ensures |m.Keys| == |m|
  {
  }

  lemma ScanRank(s: State, port: u16)
    requires Enabled(s, ScanOne(port))
    ensures ReaperRank(Apply(s, ScanOne(port))) < ReaperRank(s)
  {
    hide TimedOut;
    SizeWithout(s.reaper.left, port);
  }

  /** Each step of its own brings the reaper closer to the end of its pass. */
  lemma ReaperProgress(s: State, e: Event)
    requires Enabled(s, e) && ReaperStep(e) && !s.reaper.Idle?
    ensures ReaperRank(Apply(s, e)) < ReaperRank(s)
  {
    hide Swept;
    match e {
      case ScanOne(port) =>
        ScanRank(s, port);
      case ScanStart =>
        SizeKeys(s.portMap);
      case SweepOne =>
        SweptReaper(s, s.reaper.expired[0]);
      case _ =>
    }
  }

  lemma SweptReaper(s: State, e: Expired)
    requires e.session < |s.sessions| && s.reaper.Sweeping?
    ensures Swept(s, e).reaper == s.reaper
  {
  }

  /** No other event touches the reaper. */
  lemma ReaperAlone(s: State, e: Event)
    requires Enabled(s, e) && !ReaperStep(e)
    ensures Apply(s, e).reaper == s.reaper
  {
    hide Probe;
    hide Known;
  }

  predicate ReaperStep(e: Event) {
    e.ReadClock? || e.ScanStart? || e.ScanOne? || e.ScanEnd? || e.SweepStart? || e.SweepOne? || e.SweepEnd?
  }

  /** What is left of the reaper's pass, in steps at most. */
  function ReaperRank(s: State): nat {
    match s.reaper
    case Idle => 0
    case Sweeping(_, expired) => 1 + |expired|
    case Waiting(_, expired) => 2 + |expired|
    case Scanning(_, left, expired) => 3 + |expired| + 2 * |left|
    case Timed(_) => 4 + 2 * |s.portMap|
  }

  /** No session refreshed since the reaper read its clock is removed by the event. */
  ghost predicate Spares(s: State, e: Event)
    requires Enabled(s, e)
  {
    forall port :: port in s.portMap && s.portMap[port] in s.refreshed ==> port in Apply(s, e).portMap
  }

  ghost predicate AlwaysSpares(timeout: int) {
    forall clock: int, es: seq<Event>, e: Event ::
      Enabled(Exec(Init(timeout, clock), es), e) ==> Spares(Exec(Init(timeout, clock), es), e)
  }

  lemma SparesStep(s: State, e: Event)
    requires Inv(s) && Spared(s) && Enabled(s, e)
    ensures Spares(s, e)
  {
    hide Probe;
    if e.SweepOne? {
      var x := s.reaper.expired[0];
      assert Collected(s.portMap, s.reaper.expired);
    }
  }

  /** A lookup, a scan that finds the session idle, and a reply that refreshes it before the sweep. */
  ghost function LosingRun(timeout: int, key: NatKey): seq<Event> {
    [LookupFast(0, key), LookupSlow(0), Tick(timeout + 1), ReadClock, ScanStart, ScanOne(FIRST_PORT), ScanEnd,
     LookupBack(1, FIRST_PORT), FindSession(1), Refresh(1, timeout + 1), SweepStart]
  }

  lemma ExecPush(s: State, es: seq<Event>, e: Event)
    ensures Exec(s, es + [e]) == if Enabled(Exec(s, es), e) then Apply(Exec(s, es), e) else Exec(s, es)
  {
    assert (es + [e])[..|es|] == es;
  }

  /** The first lookup gets the first port. */
  lemma FirstLookup(s: State, t: nat, key: NatKey)
    requires s == Init(s.timeout, s.clock).(threads := map[t := WantLock(key)])
    ensures Enabled(s, LookupSlow(t))
    ensures Apply(s, LookupSlow(t))
      == State(s.timeout, s.clock, FIRST_PORT + 1, map[key := FIRST_PORT], map[FIRST_PORT := 0],
               [Session(key, s.clock)], map[], Idle, {}, {Grant(key, FIRST_PORT, 0)}, {})
  {
    hide Probe;
    ProbeStep(FIRST_PORT, {}, PORT_COUNT);
    assert s.portMap.Keys == {};
    assert s.threads - {t} == map[];
  }

  lemma LosingLookup(timeout: int, key: NatKey)
    ensures Exec(Init(timeout, 0), LosingRun(timeout, key)[..2])
      == State(timeout, 0, FIRST_PORT + 1, map[key := FIRST_PORT], map[FIRST_PORT := 0], [Session(key, 0)], map[],
               Idle, {}, {Grant(key, FIRST_PORT, 0)}, {})
  {
    hide Probe;
    hide Exec;
    var es, s := LosingRun(timeout, key), Init(timeout, 0);
    ExecNone(s);
    assert es[..0] == [];
    assert es[..1] == es[..0] + [es[0]];
    ExecPush(s, es[..0], es[0]);
    var s1 := Exec(s, es[..1]);
    assert s1 == s.(threads := map[0 := WantLock(key)]);
    FirstLookup(s1, 0, key);
    assert es[..2] == es[..1] + [es[1]];
    ExecPush(s, es[..1], es[1]);
  }

  /** Before the scan ends, the only session is idle by one nanosecond too long. */
  lemma LosingScan(timeout: int, key: NatKey)
    requires 0 < timeout
    ensures Exec(Init(timeout, 0), LosingRun(timeout, key)[..6])
      == State(timeout, timeout + 1, FIRST_PORT + 1, map[key := FIRST_PORT], map[FIRST_PORT := 0], [Session(key, 0)],
               map[], Scanning(timeout + 1, {}, [Expired(FIRST_PORT, 0)]), {}, {Grant(key, FIRST_PORT, 0)}, {})
  {
    hide Probe;
    hide Exec;
    var es, s := LosingRun(timeout, key), Init(timeout, 0);
    LosingLookup(timeout, key);
    assert es[..3] == es[..2] + [es[2]];
    ExecPush(s, es[..2], es[2]);
    assert es[..4] == es[..3] + [es[3]];
    ExecPush(s, es[..3], es[3]);
    assert es[..5] == es[..4] + [es[4]];
    ExecPush(s, es[..4], es[4]);
    assert Exec(s, es[..5]).reaper == Scanning(timeout + 1, {FIRST_PORT}, []);
    assert es[..6] == es[..5] + [es[5]];
    ExecPush(s, es[..5], es[5]);
    assert Exec(s, es[..6]).reaper == Scanning(timeout + 1, {}, [Expired(FIRST_PORT, 0)]);
  }

  lemma ExecNone(s: State)
    ensures Exec(s, []) == s
  {
  }

  /** With a timeout below one second the refresh comes too early to count, and the sweep removes the session. */
  lemma RefreshLost(timeout: int, key: NatKey)
    requires 0 < timeout < SECOND
    ensures var s := Exec(Init(timeout, 0), LosingRun(timeout, key));
      Enabled(s, SweepOne) && !Spares(s, SweepOne)
  {
    hide Probe;
    hide Exec;
    var es, s := LosingRun(timeout, key), Init(timeout, 0);
    LosingScan(timeout, key);
    assert es[..7] == es[..6] + [es[6]];
    ExecPush(s, es[..6], es[6]);
    assert es[..8] == es[..7] + [es[7]];
    ExecPush(s, es[..7], es[7]);
    assert es[..9] == es[..8] + [es[8]];
    ExecPush(s, es[..8], es[8]);
    assert es[..10] == es[..9] + [es[9]];
    ExecPush(s, es[..9], es[9]);
    assert es == es[..10] + [es[10]];
    ExecPush(s, es[..10], es[10]);
    var last := Exec(s, es);
    assert last.refreshed == {0} && last.portMap == map[FIRST_PORT := 0];
    assert FIRST_PORT in last.portMap && FIRST_PORT !in Apply(last, SweepOne).portMap;
  }

  /** A refreshed session survives the sweep in every run if and only if the timeout is at least one second. */
  lemma SurvivalExact(timeout: int, key: NatKey)
    requires timeout > 0
    ensures AlwaysSpares(timeout) <==> timeout >= SECOND
  {
    if timeout < SECOND {
      RefreshLost(timeout, key);
    } else {
      forall clock: int, es: seq<Event>, e: Event | Enabled(Exec(Init(timeout, clock), es), e)
        ensures Spares(Exec(Init(timeout, clock), es), e)
      {
        MapsInverse(timeout, clock, es);
        SparesStep(Exec(Init(timeout, clock), es), e);
      }
    }
  }
}
