/**
 * The device registry (`discoveredPeripherals`) and the connection set
 * (`connectedPeripherals`): what an entry is, the order and uniqueness the
 * registry keeps, the re-sort after an insertion, and the optimistic set
 * updates of connect and disconnect.
 */
module Registry {
  import opened Wrappers
  import opened Gatt

  /** The only advertised name the registry accepts (exact, case-sensitive). */
  const TARGET_NAME: string := "Friend"

  /** One registry entry: `(peripheral: CBPeripheral, rssi: NSNumber)`, the RSSI read as `intValue`. */
  datatype Discovered = Discovered(peripheral: Peripheral, rssi: int)

  /** `guard let name = peripheral.name, name == "Friend"`: a name is present and equals the target, character for character. */
  predicate IsTarget(p: Peripheral): (target: bool)
    ensures target <==> p.name.Some? && |p.name.value| == |TARGET_NAME|
                        && forall k :: 0 <= k < |TARGET_NAME| ==> p.name.value[k] == TARGET_NAME[k]
  {
    assert p.name.Some? && |p.name.value| == |TARGET_NAME| && (forall k :: 0 <= k < |TARGET_NAME| ==> p.name.value[k] == TARGET_NAME[k])
      ==> p.name.value == TARGET_NAME;
    p.name == Some(TARGET_NAME)
  }

  /** `contains(where: { $0.peripheral.identifier == id })`. */
  predicate HasIdentifier(list: seq<Discovered>, id: Uuid): (found: bool)
    ensures found <==> id in (set e | e in list :: e.peripheral.identifier)
  {
    exists k :: 0 <= k < |list| && list[k].peripheral.identifier == id
  }

  /** Non-increasing RSSI, the order `sort { $0.rssi.intValue > $1.rssi.intValue }` leaves. */
  predicate SortedByRssi(list: seq<Discovered>) {
    forall i, j :: 0 <= i < j < |list| ==> list[i].rssi >= list[j].rssi
  }

  /** No two entries share an identifier. */
  predicate DistinctIdentifiers(list: seq<Discovered>) {
    forall i, j :: 0 <= i < j < |list| ==> list[i].peripheral.identifier != list[j].peripheral.identifier
  }

  /** What every registry state satisfies: sorted, deduplicated, and only target devices. */
  predicate RegistryInvariant(list: seq<Discovered>) {
    && SortedByRssi(list)
    && DistinctIdentifiers(list)
    && forall k :: 0 <= k < |list| ==> IsTarget(list[k].peripheral)
  }

  /** Removing one entry keeps the others distinct. */
  lemma RemoveKeepsDistinct(list: seq<Discovered>, k: nat)
    requires k < |list| && DistinctIdentifiers(list)
    ensures DistinctIdentifiers(list[..k] + list[k + 1..])
  {
    var rest := list[..k] + list[k + 1..];
    forall i, j | 0 <= i < j < |rest|
      ensures rest[i].peripheral.identifier != rest[j].peripheral.identifier
    {
      var i' := if i < k then i else i + 1;
      var j' := if j < k then j else j + 1;
      assert rest[i] == list[i'] && rest[j] == list[j'];
    }
  }

  lemma MultisetRemoveAt(s: seq<Discovered>, k: nat)
    requires k < |s|
    ensures multiset(s[..k] + s[k + 1..]) == multiset(s) - multiset{s[k]}
  {
    assert s == s[..k] + [s[k]] + s[k + 1..];
  }

  /** In a deduplicated list, no other entry carries the identifier of entry `k`. */
  lemma OthersDifferFrom(a: seq<Discovered>, k: nat, y: Discovered)
    requires k < |a| && DistinctIdentifiers(a)
    requires y in multiset(a[..k] + a[k + 1..])
    ensures y.peripheral.identifier != a[k].peripheral.identifier
  {
    var rest := a[..k] + a[k + 1..];
    assert y in rest;
    var m :| 0 <= m < |rest| && rest[m] == y;
    if m < k {
      assert a[m] == y;
    } else {
      assert a[m + 1] == y;
    }
  }

  /** A permutation of a deduplicated list is deduplicated. */
  lemma {:induction false} PermutationKeepsDistinct(a: seq<Discovered>, b: seq<Discovered>)
    requires multiset(a) == multiset(b) && DistinctIdentifiers(a)
    ensures DistinctIdentifiers(b)
    decreases |b|
  {
    if b != [] {
      var n := |b| - 1;
      var x, front := b[n], b[..n];
      assert x in multiset(a) by { assert x in multiset(b); }
      var k :| 0 <= k < |a| && a[k] == x;
      var a' := a[..k] + a[k + 1..];
      MultisetRemoveAt(a, k);
      MultisetRemoveAt(b, n);
      assert front + b[n + 1..] == front;
      RemoveKeepsDistinct(a, k);
      PermutationKeepsDistinct(a', front);
      forall i | 0 <= i < n
        ensures front[i].peripheral.identifier != x.peripheral.identifier
      {
        assert front[i] in multiset(front);
        OthersDifferFrom(a, k, front[i]);
      }
      assert b == front + [x];
    }
  }

  /** Appending an entry whose identifier is new keeps the list deduplicated. */
  lemma AppendNewKeepsDistinct(list: seq<Discovered>, e: Discovered)
    requires DistinctIdentifiers(list) && !HasIdentifier(list, e.peripheral.identifier)
    ensures DistinctIdentifiers(list + [e])
  {
  }

  /**
   * The re-sort of `discoveredPeripherals`, done in place. Swift's `sort` is
   * not documented as stable, so only the order and the permutation are promised.
   */
  method SortByRssi(a: array<Discovered>)
    modifies a
    ensures SortedByRssi(a[..])
    ensures multiset(a[..]) == old(multiset(a[..]))
  {
    var i := 0;
    while i < a.Length
      invariant 0 <= i <= a.Length
      invariant forall k, l :: 0 <= k < l < i ==> a[k].rssi >= a[l].rssi
      invariant multiset(a[..]) == old(multiset(a[..]))
    {
      var j := i;
      while j > 0 && a[j - 1].rssi < a[j].rssi
        invariant 0 <= j <= i
        invariant forall k, l :: 0 <= k < l <= i && k != j && l != j ==> a[k].rssi >= a[l].rssi
        invariant forall l :: j < l <= i ==> a[j].rssi >= a[l].rssi
        invariant multiset(a[..]) == old(multiset(a[..]))
      {
        SwapWithPrevious(a, j);
        j := j - 1;
      }
      i := i + 1;
    }
  }

  /** Exchanges `a[j - 1]` and `a[j]`. */
  method SwapWithPrevious(a: array<Discovered>, j: int)
    requires 0 < j < a.Length
    modifies a
    ensures a[j - 1] == old(a[j]) && a[j] == old(a[j - 1])
    ensures forall k :: 0 <= k < a.Length && k != j - 1 && k != j ==> a[k] == old(a[k])
    ensures multiset(a[..]) == old(multiset(a[..]))
  {
    a[j - 1], a[j] := a[j], a[j - 1];
  }

  /** `connectedPeripherals.insert(p)`: p becomes a member and no other membership changes. */
  function Inserted(connected: set<Peripheral>, p: Peripheral): (after: set<Peripheral>)
    ensures p in after
    ensures forall q :: q != p ==> (q in after <==> q in connected)
  {
    connected + {p}
  }

  /** `connectedPeripherals.remove(p)`: p stops being a member and no other membership changes. */
  function Removed(connected: set<Peripheral>, p: Peripheral): (after: set<Peripheral>)
    ensures p !in after
    ensures forall q :: q != p ==> (q in after <==> q in connected)
  {
    connected - {p}
  }

  lemma InsertIdempotent(connected: set<Peripheral>, p: Peripheral)
    ensures Inserted(Inserted(connected, p), p) == Inserted(connected, p)
  {
  }

  lemma RemoveIdempotent(connected: set<Peripheral>, p: Peripheral)
    ensures Removed(Removed(connected, p), p) == Removed(connected, p)
  {
  }

  /** Connecting a peripheral that was not connected, then disconnecting it, restores the set. */
  lemma InsertThenRemove(connected: set<Peripheral>, p: Peripheral)
    requires p !in connected
    ensures Removed(Inserted(connected, p), p) == connected
  {
  }
}
