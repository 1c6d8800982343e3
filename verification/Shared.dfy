/** What several modules need: optional values, bytes, seconds, sequences without
    repetitions, and operations that may fail. */
module Shared {

  datatype Option<T> = Some(value: T) | None

  type Byte = b: int | 0 <= b < 256
  type Bytes = seq<Byte>

  /** In nanoseconds. */
  const SECOND: int := 1_000_000_000

  predicate Distinct<T(==)>(s: seq<T>) {
    forall i, j :: 0 <= i < j < |s| ==> s[i] != s[j]
  }

  /** Faults: which operations, by number, fail by themselves. */
  type Faults = nat -> bool

  /** None of the operations from number `from` up to `end` fails by itself. */
  ghost predicate Quiet(faults: Faults, from: nat, end: nat) {
    forall k: nat :: from <= k < end ==> !faults(k)
  }

  /** The first operation from `from` on that fails, or `end` if none before it does. */
  ghost function FirstFault(faults: Faults, from: nat, end: nat): (k: nat)
    requires from <= end
    ensures from <= k <= end && Quiet(faults, from, k)
    ensures k < end ==> faults(k)
    decreases end - from
  {
    if from == end || faults(from) then from else FirstFault(faults, from + 1, end)
  }

  lemma FirstFaultAfter(faults: Faults, from: nat, middle: nat, end: nat)
    requires from <= middle <= end && Quiet(faults, from, middle)
    ensures FirstFault(faults, from, end) == FirstFault(faults, middle, end)
  {
  }
}
