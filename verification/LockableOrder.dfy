/** Fresh lock orders, the borrow check over a call's arguments and the order in
    which the call takes its guards (frb_rust/src/lockable). */
module LockableOrder {
  import opened Wrappers

  // ----- Fresh orders -----

  const U64_MODULUS: nat := 0x1_0000_0000_0000_0000

  /** The order handed out by the k-th call of `LockableOrder::new`. */
  function OrderAt(k: nat): nat {
    k % U64_MODULUS
  }

  /** The process-wide atomic counter behind `LockableOrder::new`. */
  class OrderCounter {
    var value: nat
    ghost var issued: nat

    ghost predicate Valid()
      reads this
    {
      value == OrderAt(issued)
    }

    constructor ()
      ensures Valid() && issued == 0
    {
      value, issued := 0, 0;
    }

    /** `fetch_add(1)` on a 64-bit counter wraps. */
    method Fresh() returns (order: nat)
      requires Valid()
      modifies this
      ensures Valid() && issued == old(issued) + 1
      ensures order == OrderAt(old(issued))
    {
      order := value;
      value := if value + 1 == U64_MODULUS then 0 else value + 1;
      issued := issued + 1;
    }
  }

  /** Two objects get the same order exactly when a multiple of 2^64 allocations lies between them. */
  lemma OrdersCollideExactlyOnWrap(j: nat, k: nat)
    requires j <= k
    ensures OrderAt(j) == OrderAt(k) <==> (k - j) % U64_MODULUS == 0
  {
  }

  // ----- The borrow check -----

  /** What a call wants of one object: a shared or a mutable guard. */
  datatype Borrow = Borrow(obj: nat, mutable: bool)

  /** One opaque argument: its object's order, its position and how it is borrowed. */
  datatype LockableOrderInfo = LockableOrderInfo(order: nat, index: nat, mutable: bool)

  predicate Conflict(a: Borrow, b: Borrow) {
    a.obj == b.obj && (a.mutable || b.mutable)
  }

  function BorrowOf(info: LockableOrderInfo): Borrow {
    Borrow(info.order, info.mutable)
  }

  ghost predicate Sorted(infos: seq<LockableOrderInfo>) {
    forall i, j :: 0 <= i < j < |infos| ==> infos[i].order <= infos[j].order
  }

  /** No object is borrowed twice with at least one of the two borrows mutable. */
  ghost predicate ConflictFree(infos: seq<LockableOrderInfo>) {
    forall i, j :: 0 <= i < j < |infos| ==> !Conflict(BorrowOf(infos[i]), BorrowOf(infos[j]))
  }

  /** The same, said of the arguments as a bag: no arrangement enters into it. */
  ghost predicate BagConflictFree(bag: multiset<LockableOrderInfo>) {
    forall x, y :: x in bag && y in bag && Conflict(BorrowOf(x), BorrowOf(y)) ==> x == y && bag[x] == 1
  }

  lemma OccursTwice<T>(s: seq<T>, i: nat, j: nat)
    requires i < j < |s| && s[i] == s[j]
    ensures multiset(s)[s[i]] >= 2
  {
    assert s == s[..j] + s[j..];
    assert s[i] in s[..j] && s[j] in s[j..];
    assert multiset(s) == multiset(s[..j]) + multiset(s[j..]);
  }

  lemma TwoOccurrences<T>(s: seq<T>, x: T) returns (i: nat, j: nat)
    requires multiset(s)[x] >= 2
    ensures i < j < |s| && s[i] == x == s[j]
  {
    i :| i < |s| && s[i] == x;
    var rest := s[..i] + s[i + 1..];
    assert s == s[..i] + [x] + s[i + 1..];
    assert multiset(s) == multiset(rest) + multiset{x};
    assert x in rest;
    var k :| 0 <= k < |rest| && rest[k] == x;
    if k < i {
      i, j := k, i;
    } else {
      j := k + 1;
    }
  }

  lemma ConflictFreeIsABagProperty(infos: seq<LockableOrderInfo>)
    ensures ConflictFree(infos) <==> BagConflictFree(multiset(infos))
  {
    var bag := multiset(infos);
    if ConflictFree(infos) {
      forall x, y | x in bag && y in bag && Conflict(BorrowOf(x), BorrowOf(y))
        ensures x == y && bag[x] == 1
      {
        var i :| 0 <= i < |infos| && infos[i] == x;
        var j :| 0 <= j < |infos| && infos[j] == y;
        assert i == j;
        if bag[x] >= 2 {
          var a, b := TwoOccurrences(infos, x);
        }
      }
    }
    if BagConflictFree(bag) {
      forall i, j | 0 <= i < j < |infos|
        ensures !Conflict(BorrowOf(infos[i]), BorrowOf(infos[j]))
      {
        assert infos[i] in bag && infos[j] in bag;
        if infos[i] == infos[j] {
          OccursTwice(infos, i, j);
        }
      }
    }
  }

  /** The verdict on the arguments does not depend on how a sort arranges equal orders. */
  lemma VerdictIgnoresArrangement(a: seq<LockableOrderInfo>, b: seq<LockableOrderInfo>)
    requires multiset(a) == multiset(b)
    ensures ConflictFree(a) <==> ConflictFree(b)
  {
    ConflictFreeIsABagProperty(a);
    ConflictFreeIsABagProperty(b);
  }

  /** Counts the borrows of one object while the sorted list is scanned. */
  class ImmediateInvalidBorrowChecker {
    var count: nat
    var hasMutable: bool

    constructor ()
      ensures count == 0 && !hasMutable
    {
      count, hasMutable := 0, false;
    }

    method Update(mutable: bool) returns (ok: bool)
      modifies this
      ensures count == old(count) + 1
      ensures hasMutable == (old(hasMutable) || mutable)
      ensures ok == (!hasMutable || count <= 1)
    {
      count := count + 1;
      hasMutable := hasMutable || mutable;
      ok := !hasMutable || count <= 1;
    }
  }

  /** The one-pass scan of a sorted list decides `ConflictFree`. */
  method CheckNoImmediateInvalidBorrow(sorted: seq<LockableOrderInfo>) returns (ok: bool)
    requires Sorted(sorted)
    ensures ok <==> ConflictFree(sorted)
  {
    var lastObject: Option<nat> := None;
    var checker := new ImmediateInvalidBorrowChecker();
    // The entries from `start` on are the ones of the current object.
    ghost var start := 0;
    var i := 0;
    while i < |sorted|
      invariant 0 <= start <= i <= |sorted|
      invariant fresh(checker)
      invariant checker.count == i - start
      invariant checker.hasMutable <==> exists k :: start <= k < i && sorted[k].mutable
      invariant i > 0 ==> start < i && lastObject == Some(sorted[i - 1].order)
      invariant i == 0 ==> lastObject == None
      invariant forall k :: 0 <= k < i ==> (sorted[k].order == sorted[i - 1].order <==> start <= k)
      invariant ConflictFree(sorted[..i])
    {
      var info := sorted[i];
      if Some(info.order) != lastObject {
        lastObject := Some(info.order);
        checker := new ImmediateInvalidBorrowChecker();
        start := i;
      }
      var fine := checker.Update(info.mutable);
      if !fine {
        if info.mutable {
          assert Conflict(BorrowOf(sorted[i - 1]), BorrowOf(sorted[i]));
        } else {
          ghost var k :| start <= k < i && sorted[k].mutable;
          assert Conflict(BorrowOf(sorted[k]), BorrowOf(sorted[i]));
        }
        return false;
      }
      assert sorted[..i + 1] == sorted[..i] + [info];
      i := i + 1;
    }
    assert sorted[..i] == sorted;
    return true;
  }

  // ----- The order in which guards are taken -----

  function Indices(infos: seq<LockableOrderInfo>): seq<nat> {
    seq(|infos|, i requires 0 <= i < |infos| => infos[i].index)
  }

  ghost predicate SortOf(sorted: seq<LockableOrderInfo>, infos: seq<LockableOrderInfo>) {
    multiset(sorted) == multiset(infos) && Sorted(sorted)
  }

  /** The generated code numbers the arguments of a call 0, 1, 2, ... */
  ghost predicate Numbered(infos: seq<LockableOrderInfo>) {
    forall i :: 0 <= i < |infos| ==> infos[i].index == i
  }

  ghost predicate IsPermutation(p: seq<nat>, n: nat) {
    && |p| == n
    && (forall i :: 0 <= i < n ==> p[i] < n)
    && (forall i, j :: 0 <= i < j < n ==> p[i] != p[j])
  }

  /** The guards in the order in which the generated loop takes them. */
  function GuardsInOrder(infos: seq<LockableOrderInfo>, p: seq<nat>): seq<Borrow>
    requires forall i :: 0 <= i < |p| ==> p[i] < |infos|
  {
    seq(|p|, i requires 0 <= i < |p| => BorrowOf(infos[p[i]]))
  }

  /** A list of guards a call may take one after the other: by ascending object, no conflict inside. */
  ghost predicate Accepted(guards: seq<Borrow>) {
    && (forall i, j :: 0 <= i < j < |guards| ==> guards[i].obj <= guards[j].obj)
    && (forall i, j :: 0 <= i < j < |guards| ==> !Conflict(guards[i], guards[j]))
  }

  method SwapNeighbours(a: array<LockableOrderInfo>, j: nat)
    requires 0 < j < a.Length
    modifies a
    ensures a[..] == old(a[..])[j - 1 := old(a[j])][j := old(a[j - 1])]
    ensures multiset(a[..]) == multiset(old(a[..]))
  {
    a[j - 1], a[j] := a[j], a[j - 1];
    assert a[..] == old(a[..])[j - 1 := old(a[j])][j := old(a[j - 1])];
  }

  /** In-place sort by order. Only the contract is used: equal orders may end up in any arrangement. */
  method SortUnstableByOrder(a: array<LockableOrderInfo>)
    modifies a
    ensures Sorted(a[..])
    ensures multiset(a[..]) == multiset(old(a[..]))
  {
    var i := 0;
    while i < a.Length
      invariant 0 <= i <= a.Length
      invariant multiset(a[..]) == multiset(old(a[..]))
      invariant Sorted(a[..i])
    {
      SinkInto(a, i);
      i := i + 1;
    }
    assert a[..i] == a[..];
  }

  /** Moves a[i] down into the sorted part before it. */
  method SinkInto(a: array<LockableOrderInfo>, i: nat)
    requires i < a.Length && Sorted(a[..i])
    modifies a
    ensures Sorted(a[..i + 1])
    ensures multiset(a[..]) == multiset(old(a[..]))
  {
    var j := i;
    while 0 < j && a[j].order < a[j - 1].order
      invariant 0 <= j <= i
      invariant multiset(a[..]) == multiset(old(a[..]))
      invariant forall k, l :: 0 <= k < l <= i && l != j ==> a[k].order <= a[l].order
    {
      SwapNeighbours(a, j);
      j := j - 1;
    }
  }

  /** `None` is the panic "Cannot borrow an object mutably, and at the same time borrow again". */
  method LockableComputeDecodeOrder(infos: seq<LockableOrderInfo>) returns (order: Option<seq<nat>>)
    ensures order.Some? <==> ConflictFree(infos)
    ensures order.Some? ==> exists sorted :: SortOf(sorted, infos) && order.value == Indices(sorted)
    ensures order.Some? && Numbered(infos) ==>
              IsPermutation(order.value, |infos|) && Accepted(GuardsInOrder(infos, order.value))
  {
    var a := new LockableOrderInfo[|infos|](i requires 0 <= i < |infos| => infos[i]);
    assert a[..] == infos;
    SortUnstableByOrder(a);
    var sorted := a[..];
    VerdictIgnoresArrangement(infos, sorted);
    var ok := CheckNoImmediateInvalidBorrow(sorted);
    if !ok {
      return None;
    }
    assert SortOf(sorted, infos);
    if Numbered(infos) {
      SortedIndicesAreAccepted(infos, sorted);
    }
    return Some(Indices(sorted));
  }

  lemma SortedIndicesAreAccepted(infos: seq<LockableOrderInfo>, sorted: seq<LockableOrderInfo>)
    requires multiset(infos) == multiset(sorted) && Numbered(infos)
    requires Sorted(sorted) && ConflictFree(sorted)
    ensures IsPermutation(Indices(sorted), |infos|)
    ensures Accepted(GuardsInOrder(infos, Indices(sorted)))
  {
    assert |infos| == |multiset(infos)| == |multiset(sorted)| == |sorted|;
    var p := Indices(sorted);
    forall i | 0 <= i < |sorted|
      ensures p[i] < |infos| && infos[p[i]] == sorted[i]
    {
      assert sorted[i] in multiset(infos);
    }
    forall i, j | 0 <= i < j < |sorted|
      ensures p[i] != p[j]
    {
      if p[i] == p[j] {
        OccursTwice(sorted, i, j);
        var k, l := TwoOccurrences(infos, sorted[i]);
      }
    }
    var guards := GuardsInOrder(infos, p);
    assert forall i :: 0 <= i < |guards| ==> guards[i] == BorrowOf(sorted[i]);
  }

  // ----- The generated acquisition loop -----

  /** A permutation reaches every number below n. */
  lemma PermutationIsOnto(p: seq<nat>, n: nat, v: nat)
    requires IsPermutation(p, n) && v < n
    ensures v in p
  {
    var reached := set i | 0 <= i < n :: p[i];
    CountReached(p, n, n);
    SameSizeSubset(reached, Below(n));
    assert v in reached;
  }

  ghost function Below(n: nat): (numbers: set<nat>)
    ensures |numbers| == n && forall i: nat :: i in numbers <==> i < n
  {
    if n == 0 then {} else Below(n - 1) + {n - 1}
  }

  lemma {:induction false} CountReached(p: seq<nat>, n: nat, k: nat)
    requires IsPermutation(p, n) && k <= n
    ensures |set i | 0 <= i < k :: p[i]| == k
  {
    if k > 0 {
      CountReached(p, n, k - 1);
      assert (set i | 0 <= i < k :: p[i]) == (set i | 0 <= i < k - 1 :: p[i]) + {p[k - 1]};
    }
  }

  lemma SameSizeSubset(a: set<nat>, b: set<nat>)
    requires a <= b && |a| == |b|
    ensures a == b
  {
    assert b == a + (b - a);
    assert |b| == |a| + |b - a|;
  }

  /** The loop over the decode order: each argument's guard is filled exactly once, so that no `unwrap`
      of a guard fails; the locks are taken in the accepted order. */
  method AcquireGuards(infos: seq<LockableOrderInfo>, order: seq<nat>)
    returns (guards: array<Option<Borrow>>, taken: seq<Borrow>)
    requires IsPermutation(order, |infos|)
    ensures guards.Length == |infos|
    ensures forall i :: 0 <= i < |infos| ==> guards[i] == Some(Borrow(infos[i].order, infos[i].mutable))
    ensures taken == GuardsInOrder(infos, order)
    ensures |taken| == |order| && forall k :: 0 <= k < |order| ==> Some(taken[k]) == guards[order[k]]
  {
    guards := new Option<Borrow>[|infos|](_ => None);
    taken := [];
    for k := 0 to |order|
      invariant taken == GuardsInOrder(infos, order[..k])
      invariant forall i :: 0 <= i < k ==> guards[order[i]] == Some(BorrowOf(infos[order[i]]))
      invariant forall i :: k <= i < |order| ==> guards[order[i]] == None
    {
      var i := order[k];
      guards[i] := Some(BorrowOf(infos[i]));
      taken := taken + [BorrowOf(infos[i])];
    }
    assert order[..|order|] == order;
    forall v | 0 <= v < |infos| ensures guards[v] == Some(BorrowOf(infos[v])) {
      PermutationIsOnto(order, |infos|, v);
    }
  }
}
