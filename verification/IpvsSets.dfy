/** route_ipvs_linux.go: lists of DNS destinations and the sets they stand for. */
module IpvsSets {
  import opened Wrappers

  /** netip.Addr without zones: IPv4 addresses come before IPv6 addresses. */
  datatype Addr = V4(bits: nat) | V6(bits: nat)

  datatype Dest = Dest(protocol: nat, addr: Addr, port: nat)

  predicate AddrLess(a: Addr, b: Addr) {
    if a.V4? == b.V4? then a.bits < b.bits else a.V4?
  }

  /** The order of sortedIPVSDNSDestinations: address, protocol, port. */
  predicate Less(a: Dest, b: Dest) {
    if a.addr != b.addr then AddrLess(a.addr, b.addr)
    else if a.protocol != b.protocol then a.protocol < b.protocol
    else a.port < b.port
  }

  /** IPv4 before IPv6, then by address, by protocol and by port. */
  lemma LessExact(a: Dest, b: Dest)
    ensures Less(a, b) <==>
      || (a.addr.V4? && b.addr.V6?)
      || (a.addr.V4? == b.addr.V4?
          && (|| a.addr.bits < b.addr.bits
              || (a.addr.bits == b.addr.bits && a.protocol < b.protocol)
              || (a.addr.bits == b.addr.bits && a.protocol == b.protocol && a.port < b.port)))
  {
  }

  ghost predicate Sorted(s: seq<Dest>) {
    forall i, j :: 0 <= i < j < |s| ==> Less(s[i], s[j])
  }

  ghost function Set(s: seq<Dest>): set<Dest> {
    set d | d in s
  }

  /** A set has one sorted list. */
  lemma {:induction false} SortedUnique(a: seq<Dest>, b: seq<Dest>)
    requires Sorted(a) && Sorted(b) && Set(a) == Set(b)
    ensures a == b
    decreases |a|
  {
    if b != [] {
      NonEmptySet(b);
    }
    if a != [] {
      NonEmptySet(a);
      assert a[0] in Set(a) && b[0] in Set(b);
      var i :| 0 <= i < |b| && b[i] == a[0];
      var j :| 0 <= j < |a| && a[j] == b[0];
      assert a[0] == b[0];
      TailSet(a);
      TailSet(b);
      SortedUnique(a[1..], b[1..]);
      assert a == [a[0]] + a[1..] && b == [b[0]] + b[1..];
    }
  }

  lemma NonEmptySet(s: seq<Dest>)
    requires s != []
    ensures Set(s) != {}
  {
    assert s[0] in Set(s);
  }

  lemma TailSet(s: seq<Dest>)
    requires Sorted(s) && s != []
    ensures Sorted(s[1..]) && Set(s[1..]) == Set(s) - {s[0]}
  {
    assert s == [s[0]] + s[1..];
    assert forall i :: 0 < i < |s| ==> Less(s[0], s[i]);
    assert s[0] !in s[1..];
    forall d ensures d in Set(s[1..]) <==> d in Set(s) - {s[0]} {
    }
  }

  /** Where a destination belongs in a sorted list. */
  method Position(s: seq<Dest>, d: Dest) returns (k: nat)
    requires Sorted(s) && d !in s
    ensures k <= |s| && (forall i :: 0 <= i < k ==> Less(s[i], d)) && (forall i :: k <= i < |s| ==> Less(d, s[i]))
  {
    k := 0;
    while k < |s| && Less(s[k], d)
      invariant k <= |s| && forall i :: 0 <= i < k ==> Less(s[i], d)
    {
      k := k + 1;
    }
    if k < |s| {
      assert Less(d, s[k]);
      forall i | k < i < |s| ensures Less(d, s[i]) {
        LessTrans(d, s[k], s[i]);
      }
    }
  }

  lemma LessTrans(a: Dest, b: Dest, c: Dest)
    requires Less(a, b) && Less(b, c)
    ensures Less(a, c)
  {
  }

  /** sortedIPVSDNSDestinations: the set, in whatever order it is iterated, as its sorted list. */
  method SortedDestinations(destinations: set<Dest>) returns (r: seq<Dest>)
    ensures Sorted(r) && Set(r) == destinations
  {
    r := [];
    var left := destinations;
    while left != {}
      invariant left <= destinations && Sorted(r) && Set(r) == destinations - left
      decreases |left|
    {
      var d :| d in left;
      assert d !in Set(r);
      var k := Position(r, d);
      InsertAt(r, d, k);
      r := r[..k] + [d] + r[k..];
      left := left - {d};
    }
  }

  lemma InsertAt(s: seq<Dest>, d: Dest, k: nat)
    requires Sorted(s) && k <= |s| && (forall i :: 0 <= i < k ==> Less(s[i], d))
      && (forall i :: k <= i < |s| ==> Less(d, s[i]))
    ensures var r := s[..k] + [d] + s[k..]; Sorted(r) && Set(r) == Set(s) + {d}
  {
    var r := s[..k] + [d] + s[k..];
    forall i, j | 0 <= i < j < |r| ensures Less(r[i], r[j]) {
      var x, y := if i < k then i else i - 1, if j < k then j else j - 1;
      assert i != k ==> r[i] == s[x];
      assert j != k ==> r[j] == s[y];
    }
    assert s == s[..k] + s[k..];
    forall e ensures e in Set(r) <==> e in Set(s) + {d} {
    }
  }

  /** ipvsDNSDestinationsChanged compares position by position. */
  method DestinationsChanged(was: seq<Dest>, now: seq<Dest>) returns (changed: bool)
    ensures changed <==> was != now
  {
    if |was| != |now| {
      return true;
    }
    for i := 0 to |was|
      invariant was[..i] == now[..i]
    {
      if was[i] != now[i] {
        return true;
      }
    }
    return false;
  }

  /** For sorted lists, comparing positions compares sets. */
  lemma ChangedIffSetsDiffer(was: seq<Dest>, now: seq<Dest>)
    requires Sorted(was) && Sorted(now)
    ensures was != now <==> Set(was) != Set(now)
  {
    if Set(was) == Set(now) {
      SortedUnique(was, now);
    }
  }

  /** ipvsDNSDestinationDifference: the destinations not excluded, in order and as often as they come. */
  method Difference(destinations: seq<Dest>, excluded: seq<Dest>) returns (r: seq<Dest>)
    ensures Set(r) == Set(destinations) - Set(excluded)
    ensures Sorted(destinations) ==> Sorted(r)
  {
    var excludedSet := {};
    for i := 0 to |excluded|
      invariant excludedSet == Set(excluded[..i])
    {
      SetPush(excluded, i);
      excludedSet := excludedSet + {excluded[i]};
    }
    assert excluded[..|excluded|] == excluded;
    r := [];
    for i := 0 to |destinations|
      invariant Set(r) == Set(destinations[..i]) - Set(excluded)
      invariant Sorted(destinations) ==> Sorted(r)
    {
      SetPush(destinations, i);
      var d := destinations[i];
      if d !in excludedSet {
        if Sorted(destinations) {
          forall j | 0 <= j < |r| ensures Less(r[j], d) {
            assert r[j] in Set(r);
          }
        }
        forall e ensures e in Set(r + [d]) <==> e in Set(r) + {d} {
        }
        r := r + [d];
      }
    }
    assert destinations[..|destinations|] == destinations;
  }

  lemma SetPush(s: seq<Dest>, i: nat)
    requires i < |s|
    ensures Set(s[..i + 1]) == Set(s[..i]) + {s[i]}
  {
    assert s[..i + 1] == s[..i] + [s[i]];
    forall e ensures e in Set(s[..i + 1]) <==> e in Set(s[..i]) + {s[i]} {
    }
  }
}
