/** Which commands of a run fail. Entry k of a schedule speaks of the command that runs k
    commands later; behind the last entry no command fails. */
module Schedule {
  predicate FaultAt(faults: seq<bool>, k: nat) {
    k < |faults| && faults[k]
  }

  /** None of the first n commands fails. */
  predicate NoFaults(faults: seq<bool>, n: nat) {
    forall k :: 0 <= k < n ==> !FaultAt(faults, k)
  }

  /** The schedule behind the first n commands. */
  function Rest(faults: seq<bool>, n: nat): (r: seq<bool>)
    ensures forall k: nat :: FaultAt(r, k) <==> FaultAt(faults, n + k)
  {
    if n <= |faults| then faults[n..] else []
  }

  lemma NoFaultsNext(faults: seq<bool>, n: nat)
    ensures NoFaults(faults, n + 1) <==> NoFaults(faults, n) && !FaultAt(faults, n)
  {
  }

  lemma NoFaultsSplit(faults: seq<bool>, m: nat, n: nat)
    ensures NoFaults(faults, m + n) <==> NoFaults(faults, m) && NoFaults(Rest(faults, m), n)
  {
    if NoFaults(faults, m + n) {
      forall k | 0 <= k < n
        ensures !FaultAt(Rest(faults, m), k)
      {
        assert !FaultAt(faults, m + k);
      }
    }
    if NoFaults(faults, m) && NoFaults(Rest(faults, m), n) {
      forall k | 0 <= k < m + n
        ensures !FaultAt(faults, k)
      {
        assert k >= m ==> !FaultAt(Rest(faults, m), k - m);
      }
    }
  }

  lemma RestOfRest(faults: seq<bool>, m: nat, n: nat)
    ensures Rest(Rest(faults, m), n) == Rest(faults, m + n)
  {
  }

  lemma RestOfNone(faults: seq<bool>)
    ensures Rest(faults, 0) == faults
    ensures forall n: nat :: faults == [] ==> Rest(faults, n) == []
  {
  }

  lemma FourCommands(faults: seq<bool>)
    ensures NoFaults(faults, 4) <==> !FaultAt(faults, 0) && !FaultAt(faults, 1) && !FaultAt(faults, 2) && !FaultAt(faults, 3)
    ensures Rest(Rest(Rest(Rest(faults, 1), 1), 1), 1) == Rest(faults, 4)
  {
    RestOfRest(faults, 1, 1);
    RestOfRest(faults, 2, 1);
    RestOfRest(faults, 3, 1);
    NoFaultsNext(faults, 3);
    NoFaultsNext(faults, 2);
    NoFaultsNext(faults, 1);
  }
}
