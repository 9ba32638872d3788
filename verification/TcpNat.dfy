/** stack_system_nat.go: the session table of the system stack, each method run without interruption. */
module TcpNat {
  import opened Wrappers
  import opened Bytes
  import opened NatPorts

  /** Time in nanoseconds. */
  const SECOND := 1_000_000_000

  datatype AddrPort = AddrPort(addr: seq<byte>, port: u16)

  datatype NatKey = NatKey(source: AddrPort, destination: AddrPort)

  lemma ProbeEnds(index: u16, occupied: set<u16>)
    ensures Probe(index, occupied, 0) == Probed(None, index)
  {
  }

  /** TCPSession.refresh reads the clock at `t1` and, if it writes, again at `t2`. */
  function RefreshedAt(lastActive: int, t1: int, t2: int): int {
    if t1 - lastActive > SECOND then t2 else lastActive
  }

  predicate TimedOut(lastActive: int, now: int, timeout: int) {
    now - lastActive > timeout
  }

  class TCPSession {
    const key: NatKey
    var lastActive: int

    constructor (key: NatKey, now: int)
      ensures this.key == key && lastActive == now
    {
      this.key := key;
      lastActive := now;
    }

    /** A check that has read its clock by then, with a timeout of a second or more, finds the session active. */
    method Refresh(t1: int, t2: int)
      modifies this
      ensures lastActive == RefreshedAt(old(lastActive), t1, t2)
      ensures lastActive == if t1 > old(lastActive) + SECOND then t2 else old(lastActive)
      ensures t1 <= t2 ==> t1 - lastActive <= SECOND && lastActive >= old(lastActive)
      ensures forall now, timeout :: now <= t1 <= t2 && timeout >= SECOND ==> !TimedOut(lastActive, now, timeout)
    {
      if t1 - lastActive > SECOND {
        lastActive := t2;
      }
    }
  }

  /** A port among the collected sessions. */
  ghost predicate Lists(expired: seq<(u16, TCPSession)>, port: u16) {
    exists i :: 0 <= i < |expired| && expired[i].0 == port
  }

  lemma ListsMore(expired: seq<(u16, TCPSession)>, e: (u16, TCPSession), port: u16)
    ensures Lists(expired + [e], port) <==> Lists(expired, port) || port == e.0
  {
    if Lists(expired, port) {
      var i :| 0 <= i < |expired| && expired[i].0 == port;
      assert (expired + [e])[i].0 == port;
    }
    if port == e.0 {
      assert (expired + [e])[|expired|].0 == port;
    }
  }

  class TCPNat {
    const timeout: int
    var portIndex: u16
    var addrMap: map<NatKey, u16>
    var portMap: map<u16, TCPSession>

    /** The two maps are inverse to each other, over allocatable ports. */
    ghost predicate Valid()
      reads this
    {
      && Reachable(portIndex)
      && (forall key :: key in addrMap ==> addrMap[key] in portMap && portMap[addrMap[key]].key == key)
      && (forall port :: port in portMap ==>
            FIRST_PORT <= port && portMap[port].key in addrMap && addrMap[portMap[port].key] == port)
    }

    constructor (timeout: int)
      ensures Valid() && this.timeout == timeout && portMap == map[]
    {
      this.timeout := timeout;
      portIndex, addrMap, portMap := FIRST_PORT, map[], map[];
    }

    /** The loop of allocatePortLocked is one round of the prober. */
    method AllocatePortLocked() returns (port: u16, ok: bool)
      requires Valid()
      modifies this`portIndex
      ensures Valid()
      ensures Probe(old(portIndex), portMap.Keys, PORT_COUNT) == Probed(if ok then Some(port) else None, portIndex)
    {
      hide Probe;
      ghost var occupied := portMap.Keys;
      ghost var whole := Probe(portIndex, occupied, PORT_COUNT);
      for i := 0 to PORT_COUNT
        invariant Reachable(portIndex) && Probe(portIndex, occupied, PORT_COUNT - i) == whole
      {
        ProbeStep(portIndex, occupied, PORT_COUNT - i);
        var nextPort := portIndex;
        if nextPort == 0 {
          nextPort := FIRST_PORT;
          portIndex := FIRST_PORT + 1;
        } else {
          portIndex := (portIndex + 1) % 0x1_0000;
        }
        if nextPort !in portMap {
          return nextPort, true;
        }
      }
      ProbeEnds(portIndex, occupied);
      return 0, false;
    }

    /** A known pair keeps its port; a new pair gets a free one, and none only if every port is taken. */
    method Lookup(source: AddrPort, destination: AddrPort, t1: int, t2: int) returns (r: Option<u16>)
      requires Valid()
      modifies this, set port | port in portMap :: portMap[port]
      ensures Valid()
      ensures var key := NatKey(source, destination);
        key in old(addrMap) ==>
          && r == Some(old(addrMap[key])) && addrMap == old(addrMap) && portMap == old(portMap)
          && portMap[r.value].lastActive == RefreshedAt(old(portMap[addrMap[key]].lastActive), t1, t2)
      ensures var key := NatKey(source, destination);
        key !in old(addrMap) ==>
          && (r.None? <==> forall p: u16 :: FIRST_PORT <= p ==> p in old(portMap))
          && (r.None? ==> addrMap == old(addrMap) && portMap == old(portMap))
          && (r.Some? ==> r.value !in old(portMap) && r.value in portMap && fresh(portMap[r.value]))
          && (r.Some? ==>
                addrMap == old(addrMap)[key := r.value] && portMap == old(portMap)[r.value := portMap[r.value]])
          && (r.Some? ==> portMap[r.value].key == key && portMap[r.value].lastActive == t2)
      ensures forall port :: port in old(portMap) && r != Some(port) ==>
        portMap[port].lastActive == old(portMap[port].lastActive)
    {
      var key := NatKey(source, destination);
      if key in addrMap {
        var port := addrMap[key];
        portMap[port].Refresh(t1, t2);
        return Some(port);
      }
      AllocatorComplete(portIndex, portMap.Keys);
      var nextPort, ok := AllocatePortLocked();
      if !ok {
        return None;
      }
      var session := new TCPSession(key, t2);
      portMap := portMap[nextPort := session];
      addrMap := addrMap[key := nextPort];
      return Some(nextPort);
    }

    /** The session of a port, refreshed. */
    method LookupBack(port: u16, t1: int, t2: int) returns (session: TCPSession?)
      requires Valid()
      modifies set port | port in portMap :: portMap[port]
      ensures Valid()
      ensures session == if port in portMap then portMap[port] else null
      ensures port in portMap ==> portMap[port].lastActive == RefreshedAt(old(portMap[port].lastActive), t1, t2)
      ensures forall p :: p in portMap && p != port ==> portMap[p].lastActive == old(portMap[p].lastActive)
    {
      session := null;
      if port in portMap {
        session := portMap[port];
        session.Refresh(t1, t2);
      }
    }
  
    /** One pass of the reaper, alone: exactly the sessions idle for longer than the timeout leave both maps. */
    method CheckTimeout(now: int)
      requires Valid()
      modifies this`addrMap, this`portMap
      ensures Valid()
      ensures forall port :: port in portMap <==>
        port in old(portMap) && !TimedOut(old(portMap[port].lastActive), now, timeout)
      ensures forall port :: port in portMap ==> portMap[port] == old(portMap[port])
    {
      var expired := Scan(now);
      Sweep(now, expired);
    }

    /** The first phase collects the idle sessions, in any order. */
    method Scan(now: int) returns (expired: seq<(u16, TCPSession)>)
      requires Valid()
      ensures forall i :: 0 <= i < |expired| ==> expired[i].0 in portMap && portMap[expired[i].0] == expired[i].1
      ensures forall i, j :: 0 <= i < j < |expired| ==> expired[i].0 != expired[j].0
      ensures forall port :: port in portMap && TimedOut(portMap[port].lastActive, now, timeout) ==>
        Lists(expired, port)
    {
      expired := [];
      var left := portMap.Keys;
      while left != {}
        invariant left <= portMap.Keys
        invariant forall i :: 0 <= i < |expired| ==>
          expired[i].0 in portMap && expired[i].0 !in left && portMap[expired[i].0] == expired[i].1
        invariant forall i, j :: 0 <= i < j < |expired| ==> expired[i].0 != expired[j].0
        invariant forall port ::
          port in portMap && port !in left && TimedOut(portMap[port].lastActive, now, timeout) ==> Lists(expired, port)
        decreases |left|
      {
        var natPort :| natPort in left;
        var session := portMap[natPort];
        if now - session.lastActive > timeout {
          forall port ensures Lists(expired + [(natPort, session)], port) <==> Lists(expired, port) || port == natPort {
            ListsMore(expired, (natPort, session), port);
          }
          expired := expired + [(natPort, session)];
        }
        left := left - {natPort};
      }
    }

    /** A session leaves both maps. */
    method Remove(port: u16)
      requires Valid() && port in portMap
      modifies this`addrMap, this`portMap
      ensures Valid() && portMap == old(portMap) - {port} && addrMap == old(addrMap) - {old(portMap)[port].key}
    {
      addrMap, portMap := addrMap - {portMap[port].key}, portMap - {port};
    }

    /** The second phase looks at each collected session again before it removes it. */
    method Sweep(now: int, expired: seq<(u16, TCPSession)>)
      requires Valid()
      requires forall i :: 0 <= i < |expired| ==> expired[i].0 in portMap && portMap[expired[i].0] == expired[i].1
      requires forall i, j :: 0 <= i < j < |expired| ==> expired[i].0 != expired[j].0
      modifies this`addrMap, this`portMap
      ensures Valid()
      ensures forall port :: port in portMap ==> port in old(portMap) && portMap[port] == old(portMap[port])
      ensures forall port :: port in old(portMap) ==>
        (port !in portMap <==>
         TimedOut(old(portMap[port].lastActive), now, timeout) && Lists(expired, port))
    {
      hide TCPNat.Valid;
      for n := 0 to |expired|
        invariant Valid()
        invariant forall i :: n <= i < |expired| ==> expired[i].0 in portMap && portMap[expired[i].0] == expired[i].1
        invariant forall port :: port in portMap ==> port in old(portMap) && portMap[port] == old(portMap[port])
        invariant forall port :: port in old(portMap) ==>
          (port !in portMap <==>
           TimedOut(old(portMap[port].lastActive), now, timeout) && Lists(expired[..n], port))
      {
        var e := expired[n];
        if now - e.1.lastActive > timeout {
          Remove(e.0);
        }
        assert expired[..n + 1] == expired[..n] + [e];
        assert expired[..n + 1][n] == e;
        forall port ensures Lists(expired[..n + 1], port) <==> Lists(expired[..n], port) || port == e.0 {
          ListsMore(expired[..n], e, port);
        }
      }
    }
  }
}
