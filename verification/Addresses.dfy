// 64-bit unsigned addresses (MemAddr) and the arithmetic the range maps do on them.

module Options {
  datatype Option<+T> = None | Some(value: T)
}

module Addresses {
  const MAX_ADDRESS: int := 0xFFFF_FFFF_FFFF_FFFF

  type Address = a: int | 0 <= a <= MAX_ADDRESS

  // Unsigned 64-bit arithmetic keeps results modulo 2^64.
  function Wrap(x: int): Address {
    x % (MAX_ADDRESS + 1)
  }

  // Wrapping changes a number by a multiple of 2^64.
  lemma WrapIsModular(x: int) returns (q: int)
    ensures x == q * (MAX_ADDRESS + 1) + Wrap(x)
  {
    q := x / (MAX_ADDRESS + 1);
  }

  lemma WrapFits(x: int)
    requires 0 <= x <= MAX_ADDRESS
    ensures Wrap(x) == x
  {
  }

  // The guard shared by both range maps: a size of zero and a range running past the top of
  // the address space are refused. The second test looks only at the wrapped high address.
  predicate Acceptable(base: Address, size: Address) {
    size > 0 && Wrap(base + size - 1) >= base
  }

  lemma AcceptableMeansNoWrap(base: Address, size: Address)
    ensures Acceptable(base, size) <==> size > 0 && base + size - 1 <= MAX_ADDRESS
    ensures Acceptable(base, size) ==> Wrap(base + size - 1) == base + size - 1
  {
  }

  // A call of StoreRange.
  datatype Request<+E> = Request(base: Address, size: Address, entry: E)
}

// The searches a std::map offers over its keys, which it keeps in strictly ascending order.
module SortedKeys {
  import opened Addresses

  ghost predicate StrictlyAscending(keys: seq<Address>) {
    forall i, j :: 0 <= i < j < |keys| ==> keys[i] < keys[j]
  }

  // The index of the first key not less than a; |keys| when there is none.
  function LowerBound(keys: seq<Address>, a: Address): (k: nat)
    ensures k <= |keys|
    ensures forall i :: 0 <= i < k ==> keys[i] < a
    ensures k < |keys| ==> a <= keys[k]
  {
    if keys == [] || a <= keys[0] then 0 else 1 + LowerBound(keys[1..], a)
  }

  // The index of the first key greater than a; |keys| when there is none.
  function UpperBound(keys: seq<Address>, a: Address): (k: nat)
    ensures k <= |keys|
    ensures forall i :: 0 <= i < k ==> keys[i] <= a
    ensures k < |keys| ==> a < keys[k]
  {
    if keys == [] || a < keys[0] then 0 else 1 + UpperBound(keys[1..], a)
  }

  lemma LowerBoundIs(keys: seq<Address>, a: Address, k: nat)
    requires k <= |keys| && (forall i :: 0 <= i < k ==> keys[i] < a) && (k < |keys| ==> a <= keys[k])
    ensures LowerBound(keys, a) == k
  {
  }

  lemma UpperBoundIs(keys: seq<Address>, a: Address, k: nat)
    requires k <= |keys| && (forall i :: 0 <= i < k ==> keys[i] <= a) && (k < |keys| ==> a < keys[k])
    ensures UpperBound(keys, a) == k
  {
  }
}
