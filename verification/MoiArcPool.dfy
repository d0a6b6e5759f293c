/** The object pool behind `MoiArc` (frb_rust/src/generalized_arc/moi_arc.rs): ids, reference
    counts, and the operations that run while the pool lock is held. */
module MoiArcPool {
  import opened Wrappers

  const MIN_ID: nat := 1
  const MAX_ID: nat := 2147483600
  const I32_MAX: int := 0x7fff_ffff

  type ObjectId = nat

  /** The allocation of a shared value: the k-th object made has cell k. */
  type Cell = nat

  datatype PoolValue = PoolValue(refCount: int, cell: Cell)

  datatype Pool = Pool(entries: map<ObjectId, PoolValue>, nextId: ObjectId)

  // ----- Ids -----

  function Successor(id: ObjectId): ObjectId {
    if id >= MAX_ID then MIN_ID else id + 1
  }

  /** The id of the k-th object made, counting from 0. */
  function IdAt(k: nat): (id: ObjectId)
    ensures MIN_ID <= id <= MAX_ID
  {
    1 + k % MAX_ID
  }

  /** Stepping the generator k times from its start gives `IdAt(k)`. */
  lemma {:induction false} IdsCycle(k: nat)
    ensures IdAt(0) == MIN_ID && Successor(IdAt(k)) == IdAt(k + 1)
  {}

  /** Ids repeat exactly after a multiple of 2147483600 objects, and are never zero. */
  lemma IdsRepeatExactlyAfterACycle(j: nat, k: nat)
    requires j <= k
    ensures IdAt(j) == IdAt(k) <==> (k - j) % MAX_ID == 0
    ensures IdAt(k) != 0
  {}

  // ----- What happens under the pool lock, on values -----

  /** `new`: a fresh id and an entry with one reference. The flag tells whether the id was free;
      if it was not, the old entry is gone and the assertion after the insertion panics. */
  function Insert(pool: Pool, cell: Cell): (Pool, ObjectId, bool) {
    var id := pool.nextId;
    (Pool(pool.entries[id := PoolValue(1, cell)], Successor(id)), id, id !in pool.entries)
  }

  /** `increment_strong_count`; `None` is a panic: no such object, or the 32-bit count overflows. */
  function Increment(pool: Pool, id: ObjectId): Option<Pool> {
    if id in pool.entries && pool.entries[id].refCount < I32_MAX then
      Some(pool.(entries := pool.entries[id := pool.entries[id].(refCount := pool.entries[id].refCount + 1)]))
    else
      None
  }

  /** `decrement_strong_count_raw`: the entry is handed out when its last reference goes. */
  function Decrement(pool: Pool, id: ObjectId): Option<(Pool, Option<PoolValue>)> {
    if id !in pool.entries then
      None
    else
      var value := pool.entries[id].(refCount := pool.entries[id].refCount - 1);
      if value.refCount == 0 then
        Some((pool.(entries := pool.entries - {id}), Option.Some(value)))
      else
        Some((pool.(entries := pool.entries[id := value]), Option.None))
  }

  /** The pool itself: a map from ids to counted values and the id generator. */
  class MoiArcPoolInner {
    var entries: map<ObjectId, PoolValue>
    var nextId: ObjectId
    ghost var made: nat

    ghost predicate Valid()
      reads this
    {
      nextId == IdAt(made)
    }

    function View(): Pool
      reads this
    {
      Pool(entries, nextId)
    }

    constructor ()
      ensures Valid() && made == 0
      ensures View() == Pool(map[], MIN_ID)
    {
      entries, nextId, made := map[], MIN_ID, 0;
    }

    /** `IdGenerator::next_id` */
    method NextId() returns (ans: ObjectId)
      requires Valid()
      modifies this`nextId, this`made
      ensures Valid() && made == old(made) + 1
      ensures ans == old(nextId) == IdAt(old(made)) && nextId == Successor(ans)
    {
      IdsCycle(made);
      ans := nextId;
      nextId := if nextId >= MAX_ID then MIN_ID else nextId + 1;
      made := made + 1;
    }

    method New(cell: Cell) returns (id: ObjectId, free: bool)
      requires Valid()
      modifies this
      ensures Valid() && made == old(made) + 1
      ensures (View(), id, free) == Insert(old(View()), cell)
    {
      id := NextId();
      free := id !in entries;
      entries := entries[id := PoolValue(1, cell)];
    }

    method IncrementStrongCount(raw: ObjectId) returns (ok: bool)
      modifies this`entries
      ensures ok == Increment(old(View()), raw).Some?
      ensures View() == if ok then Increment(old(View()), raw).value else old(View())
    {
      if raw !in entries || entries[raw].refCount >= I32_MAX {
        return false;
      }
      var value := entries[raw];
      entries := entries[raw := value.(refCount := value.refCount + 1)];
      return true;
    }

    method DecrementStrongCountRaw(raw: ObjectId) returns (ok: bool, removed: Option<PoolValue>)
      modifies this`entries
      ensures ok == Decrement(old(View()), raw).Some?
      ensures if ok then (View(), removed) == Decrement(old(View()), raw).value
              else View() == old(View()) && removed == None
    {
      if raw !in entries {
        return false, None;
      }
      var value := entries[raw];
      value := value.(refCount := value.refCount - 1);
      if value.refCount == 0 {
        entries := entries - {raw};
        return true, Some(value);
      }
      entries := entries[raw := value];
      return true, None;
    }
  }
}
