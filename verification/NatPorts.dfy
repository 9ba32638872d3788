/** The cyclic port allocator of stack_system_nat.go, on values. */
module NatPorts {
  import opened Wrappers
  import opened Bytes

  const FIRST_PORT := 10000
  const PORT_COUNT := 55536

  /** The values portIndex takes: an allocatable port, or 0 after the counter wrapped. */
  predicate Reachable(index: u16) {
    index == 0 || FIRST_PORT <= index
  }

  /** The port tried at `index`, and the index after it. */
  function Tried(index: u16): u16 {
    if index == 0 then FIRST_PORT else index
  }

  function Advanced(index: u16): u16 {
    if index == 0 then FIRST_PORT + 1 else (index + 1) % 0x1_0000
  }

  datatype Probed = Probed(port: Option<u16>, index: u16)

  /** At most `n` tries from `index`, up to the first free port. */
  function Probe(index: u16, occupied: set<u16>, n: nat): Probed
    decreases n
  {
    if n == 0 then Probed(None, index)
    else if Tried(index) !in occupied then Probed(Some(Tried(index)), Advanced(index))
    else Probe(Advanced(index), occupied, n - 1)
  }

  lemma ProbeStep(index: u16, occupied: set<u16>, n: nat)
    requires n > 0 && Reachable(index)
    ensures Reachable(Advanced(index))
    ensures Probe(index, occupied, n)
      == if Tried(index) !in occupied then Probed(Some(Tried(index)), Advanced(index))
         else Probe(Advanced(index), occupied, n - 1)
  {
  }

  /** The port `k` tries after `index`. */
  function Nth(index: u16, k: nat): (p: u16)
    requires Reachable(index)
  {
    FIRST_PORT + (Tried(index) - FIRST_PORT + k) % PORT_COUNT
  }

  lemma NthNext(index: u16, k: nat)
    requires Reachable(index)
    ensures Reachable(Advanced(index)) && Nth(index, 0) == Tried(index) && Nth(Advanced(index), k) == Nth(index, k + 1)
  {
    var a := Tried(index) - FIRST_PORT;
    if a == PORT_COUNT - 1 {
      assert (a + k + 1) % PORT_COUNT == k % PORT_COUNT;
    }
  }

  /** Within one round every port comes up exactly once. */
  lemma EachPortOnce(index: u16, p: u16)
    requires Reachable(index) && FIRST_PORT <= p
    ensures exists k: nat :: k < PORT_COUNT && Nth(index, k) == p
    ensures forall j: nat, k: nat :: j < PORT_COUNT && k < PORT_COUNT && Nth(index, j) == Nth(index, k) ==> j == k
  {
    var a, b := Tried(index) - FIRST_PORT, p - FIRST_PORT;
    var k: nat := if a <= b then b - a else b - a + PORT_COUNT;
    assert Nth(index, k) == p;
    forall i: nat | i < PORT_COUNT
      ensures Nth(index, i) == FIRST_PORT + (if a + i < PORT_COUNT then a + i else a + i - PORT_COUNT)
    {
    }
  }

  /** A probe returns the first free port of the round, or none if all tries were taken. */
  lemma {:induction false} ProbeFirst(index: u16, occupied: set<u16>, n: nat)
    requires Reachable(index)
    ensures var r := Probe(index, occupied, n);
      && Reachable(r.index)
      && (r.port.Some? ==> exists k: nat :: k < n && FirstFree(index, occupied, k, r.port.value))
      && (r.port.None? ==> forall k: nat :: k < n ==> Nth(index, k) in occupied)
    decreases n
  {
    hide Nth;
    if n > 0 {
      NthNext(index, 0);
      var r := Probe(index, occupied, n);
      if Tried(index) !in occupied {
        assert FirstFree(index, occupied, 0, Tried(index));
      } else {
        var next := Advanced(index);
        ProbeFirst(next, occupied, n - 1);
        if r.port.Some? {
          var k: nat :| k < n - 1 && FirstFree(next, occupied, k, r.port.value);
          FirstFreeShift(index, occupied, k, r.port.value);
        } else {
          forall k: nat | k < n ensures Nth(index, k) in occupied {
            if k > 0 {
              NthNext(index, k - 1);
            }
          }
        }
      }
    }
  }

  /** `p` is free and is tried at turn `k`, after `k` occupied ports. */
  ghost predicate FirstFree(index: u16, occupied: set<u16>, k: nat, p: u16)
    requires Reachable(index)
  {
    p == Nth(index, k) && p !in occupied && forall j: nat :: j < k ==> Nth(index, j) in occupied
  }

  lemma FirstFreeShift(index: u16, occupied: set<u16>, k: nat, p: u16)
    requires Reachable(index) && Reachable(Advanced(index)) && FirstFree(Advanced(index), occupied, k, p)
    requires Tried(index) in occupied
    ensures FirstFree(index, occupied, k + 1, p)
  {
    hide Nth;
    NthNext(index, k);
    forall j: nat | j < k + 1 ensures Nth(index, j) in occupied {
      if j > 0 {
        NthNext(index, j - 1);
        assert Nth(Advanced(index), j - 1) in occupied;
      }
    }
  }

  /** One round finds a free port in range, and fails if and only if every port is taken. */
  lemma AllocatorComplete(index: u16, occupied: set<u16>)
    requires Reachable(index)
    ensures var r := Probe(index, occupied, PORT_COUNT);
      && Reachable(r.index)
      && (r.port.Some? ==> FIRST_PORT <= r.port.value && r.port.value !in occupied)
      && (r.port.Some? ==> exists k: nat :: k < PORT_COUNT && FirstFree(index, occupied, k, r.port.value))
      && (r.port.None? <==> forall p: u16 :: 10000 <= p ==> p in occupied)
  {
    hide Probe;
    var r := Probe(index, occupied, PORT_COUNT);
    ProbeFirst(index, occupied, PORT_COUNT);
    if r.port.None? {
      forall p: u16 | FIRST_PORT <= p ensures p in occupied {
        EachPortOnce(index, p);
      }
    }
  }
}
