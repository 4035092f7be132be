/**
 The meaning of versioned state: a store maps an address and a sequence to the
 value written there, and a read at a sequence sees the newest version at or
 below it.
 */
module Versions {
  import opened Common
  import opened Bytes

  datatype Address =
    | Row(table: nat, key: ByteString)
    | Catalogue(table: nat)
    | Policy

  datatype Cell = Put(bytes: ByteString) | Delete

  datatype Version = Version(address: Address, sequence: nat)

  type Store = map<Version, Cell>

  function NewestSequence(s: Store, a: Address, n: nat): Option<nat> {
    if Version(a, n) in s then Some(n)
    else if n == 0 then None
    else NewestSequence(s, a, n - 1)
  }

  lemma {:induction false} NewestSequenceIs(s: Store, a: Address, n: nat)
    ensures match NewestSequence(s, a, n)
            case Some(m) => m <= n && Version(a, m) in s && forall k :: m < k <= n ==> Version(a, k) !in s
            case None => forall k :: 0 <= k <= n ==> Version(a, k) !in s
  {
    if Version(a, n) !in s && n > 0 {
      NewestSequenceIs(s, a, n - 1);
    }
  }

  function Newest(s: Store, a: Address, n: nat): Option<Cell> {
    match NewestSequence(s, a, n)
    case None => None
    case Some(m) => NewestSequenceIs(s, a, n); Some(s[Version(a, m)])
  }

  /** What a reader sees at `n`: a row whose newest version is a deletion has no value there. */
  function Read(s: Store, a: Address, n: nat): Option<ByteString> {
    match Newest(s, a, n)
    case Some(Put(bytes)) => Some(bytes)
    case _ => None
  }

  /** The newest version is the only one at or below `n` with none between. */
  lemma NewestSequenceUnique(s: Store, a: Address, n: nat, m: nat)
    requires m <= n && Version(a, m) in s
    requires forall k :: m < k <= n ==> Version(a, k) !in s
    ensures NewestSequence(s, a, n) == Some(m)
  {
    NewestSequenceIs(s, a, n);
  }

  lemma {:induction false} NewestSequenceAgrees(s: Store, t: Store, a: Address, n: nat)
    requires forall k :: 0 <= k <= n ==> (Version(a, k) in s <==> Version(a, k) in t)
    ensures NewestSequence(s, a, n) == NewestSequence(t, a, n)
  {
    if n > 0 {
      NewestSequenceAgrees(s, t, a, n - 1);
    }
  }

  // ---------------------------------------------------------------- collection

  /** `t` is `s` without versions that no read at or above `floor` can return. */
  ghost predicate Collected(s: Store, t: Store, floor: nat) {
    && (forall v :: v in t ==> v in s && t[v] == s[v])
    && (forall v :: v in s && v.sequence > floor ==> v in t)
    && (forall v :: v in s && NewestSequence(s, v.address, floor) == Some(v.sequence) ==> v in t)
  }

  /** Rows keep their versions above the floor and one baseline; metadata keeps every version. */
  predicate Retained(s: Store, floor: nat, v: Version) {
    !v.address.Row? || v.sequence > floor || NewestSequence(s, v.address, floor) == Some(v.sequence)
  }

  function Collect(s: Store, floor: nat): Store {
    map v | v in s && Retained(s, floor, v) :: s[v]
  }

  /** Collection changes no read at or above the floor. */
  lemma {:induction false} CollectedReads(s: Store, t: Store, floor: nat, a: Address, n: nat)
    requires Collected(s, t, floor) && n >= floor
    ensures NewestSequence(t, a, n) == NewestSequence(s, a, n)
    ensures Newest(t, a, n) == Newest(s, a, n)
    ensures Read(t, a, n) == Read(s, a, n)
  {
    NewestSequenceIs(s, a, n);
    if n > floor {
      if Version(a, n) !in s {
        CollectedReads(s, t, floor, a, n - 1);
      }
    } else {
      NewestSequenceIs(t, a, n);
      match NewestSequence(s, a, n)
      case None =>
      case Some(m) =>
        assert Version(a, m) in t;
        NewestSequenceUnique(t, a, n, m);
    }
  }

  /** The collected store keeps at most one version of a row at or below the floor. */
  lemma CollectMinimal(s: Store, floor: nat, v: Version, w: Version)
    requires v in Collect(s, floor) && w in Collect(s, floor)
    requires v.address == w.address && v.address.Row? && v.sequence <= floor && w.sequence <= floor
    ensures Collected(s, Collect(s, floor), floor)
    ensures v == w
  {
  }

  /** The part of a store at or below a sequence: a checkpoint image. */
  function UpTo(s: Store, n: nat): Store {
    map v | v in s && v.sequence <= n :: s[v]
  }

  lemma UpToReads(s: Store, n: nat, a: Address, m: nat)
    requires m <= n
    ensures NewestSequence(UpTo(s, n), a, m) == NewestSequence(s, a, m)
    ensures Newest(UpTo(s, n), a, m) == Newest(s, a, m)
    ensures Read(UpTo(s, n), a, m) == Read(s, a, m)
  {
    NewestSequenceAgrees(UpTo(s, n), s, a, m);
    NewestSequenceIs(s, a, m);
  }
}
