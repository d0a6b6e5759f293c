/** Handles, raw ids and the pool under every interleaving of threads. Dropping a handle takes two
    steps: give back the count under the pool lock, then release the inner `std::Arc`. */
module MoiArcInterleaving {
  import opened Wrappers
  import opened MoiArcPool

  /** Handles and raw ids are named by numbers; a removed pool entry on its way out by its cell. */
  datatype Name = Name(n: nat) | Entry(cell: Cell)

  datatype Ref =
    | Live(id: ObjectId, cell: Cell)  // a handle: counted, and owner of an inner Arc
    | Raw(id: ObjectId)               // counted only: a raw id, or a clone not yet built
    | Leaving(cell: Cell)             // inner Arc only: the count is already given back
    | Unwrapping(cell: Cell)          // inside `try_unwrap`, between its two halves

  /** `strong` is the count of the inner Arc of each allocated cell. `lock` is set while a thread is
      between the halves of `try_unwrap`; a panic under the lock poisons it for good. `collided` tells
      that the panic was the one of a reused id. */
  datatype State = State(
    pool: Pool, made: nat, strong: map<Cell, nat>, refs: map<Name, Ref>,
    destroyed: seq<Cell>, lock: Option<Name>, poisoned: bool, collided: bool)

  const EMPTY := State(Pool(map[], MIN_ID), 0, map[], map[], [], None, false, false)

  datatype Step =
    | New(r: Name)                  // `new`
    | CountUp(from: Name, r: Name)  // first half of `clone`; `increment_strong_count`
    | Build(from: Name, r: Name)    // second half of `clone`
    | FromRaw(r: Name)              // `from_raw`
    | CountDown(r: Name)            // first half of dropping a handle; `decrement_strong_count`
    | Release(r: Name)              // an inner Arc is dropped
    | IntoRaw(r: Name, raw: Name)   // `into_raw`: the handle keeps only its inner Arc
    | TryUnwrap(r: Name)            // `try_unwrap` up to `Arc::into_inner`
    | IntoInner(r: Name)            // `Arc::into_inner(..).unwrap()`, still under the lock

  predicate Counted(s: State, r: Name) {
    r in s.refs && (s.refs[r].Live? || s.refs[r].Raw?)
  }

  predicate IsLive(s: State, r: Name) {
    r in s.refs && s.refs[r].Live?
  }

  /** A step that takes the pool lock waits while somebody holds it; a poisoned lock panics. */
  predicate LockFree(s: State) {
    s.lock == None && !s.poisoned
  }

  /** What the owners of handles and raw ids may do. */
  predicate Enabled(s: State, step: Step) {
    match step
    case New(r) =>
      && LockFree(s) && r.Name? && r !in s.refs
      && (Collides(s) ==> s.pool.entries[s.pool.nextId].cell in s.strong)
    case CountUp(from, r) =>
      LockFree(s) && Counted(s, from) && r.Name? && r !in s.refs && Increment(s.pool, s.refs[from].id).Some?
    case Build(from, r) =>
      IsLive(s, from) && r in s.refs && s.refs[r] == Raw(s.refs[from].id) && s.refs[from].cell in s.strong
    case FromRaw(r) =>
      && LockFree(s) && r in s.refs && s.refs[r].Raw?
      && s.refs[r].id in s.pool.entries && s.pool.entries[s.refs[r].id].cell in s.strong
    case CountDown(r) => LockFree(s) && Counted(s, r) && Decrement(s.pool, s.refs[r].id).Some?
    case Release(r) => r in s.refs && s.refs[r].Leaving? && s.refs[r].cell in s.strong
    case IntoRaw(r, raw) => IsLive(s, r) && raw.Name? && raw !in s.refs
    case TryUnwrap(r) =>
      LockFree(s) && IsLive(s, r) && s.refs[r].id in s.pool.entries && s.refs[r].cell in s.strong
    case IntoInner(r) => s.lock == Some(r) && r in s.refs && s.refs[r].Unwrapping? && s.refs[r].cell in s.strong
  }

  function WithRef(s: State, r: Name, ref: Ref): State {
    s.(refs := s.refs[r := ref])
  }

  function WithoutRef(s: State, r: Name): State {
    s.(refs := s.refs - {r})
  }

  /** One owner less of an inner Arc; the last one destroys the value. */
  function DropArc(s: State, cell: Cell): State
    requires cell in s.strong
  {
    if s.strong[cell] <= 1 then
      s.(strong := s.strong - {cell}, destroyed := s.destroyed + [cell])
    else
      s.(strong := s.strong[cell := s.strong[cell] - 1])
  }

  function MoreArc(s: State, cell: Cell): State
    requires cell in s.strong
  {
    s.(strong := s.strong[cell := s.strong[cell] + 1])
  }

  /** If the id was taken, the assertion panics: the replaced entry's inner Arc is dropped, then the new
      handle's, and only then the lock, which is poisoned. */
  function AfterNew(s: State, r: Name): State
    requires Enabled(s, New(r))
  {
    var (pool, id, free) := Insert(s.pool, s.made);
    if free then
      s.(pool := pool, made := s.made + 1, strong := s.strong[s.made := 2], refs := s.refs[r := Live(id, s.made)])
    else
      DropArc(s.(pool := pool, made := s.made + 1, strong := s.strong[s.made := 1], poisoned := true, collided := true),
              s.pool.entries[id].cell)
  }

  /** Whoever takes the last count gets the pool's own inner Arc as well. */
  function AfterCountDown(s: State, r: Name): State
    requires Enabled(s, CountDown(r))
  {
    var (pool, removed) := Decrement(s.pool, s.refs[r].id).value;
    var rest := if s.refs[r].Live? then s.refs[r := Leaving(s.refs[r].cell)] else s.refs - {r};
    s.(pool := pool, refs := if removed.Some? then rest[Entry(removed.value.cell) := Leaving(removed.value.cell)] else rest)
  }

  function AfterTryUnwrap(s: State, r: Name): State
    requires Enabled(s, TryUnwrap(r))
  {
    if s.pool.entries[s.refs[r].id].refCount == 1 then
      var (pool, removed) := Decrement(s.pool, s.refs[r].id).value;
      DropArc(s.(pool := pool, refs := s.refs[r := Unwrapping(s.refs[r].cell)], lock := Some(r)), s.refs[r].cell)
    else
      s
  }

  /** With another owner of the inner Arc around, `unwrap` panics and the lock is poisoned. */
  function AfterIntoInner(s: State, r: Name): State
    requires Enabled(s, IntoInner(r))
  {
    var cell := s.refs[r].cell;
    if s.strong[cell] <= 1 then
      WithoutRef(s, r).(strong := s.strong - {cell}, lock := None)
    else
      WithoutRef(s, r).(strong := s.strong[cell := s.strong[cell] - 1], lock := None, poisoned := true)
  }

  function Next(s: State, step: Step): State
    requires Enabled(s, step)
  {
    match step
    case New(r) => AfterNew(s, r)
    case CountUp(from, r) => WithRef(s, r, Raw(s.refs[from].id)).(pool := Increment(s.pool, s.refs[from].id).value)
    case Build(from, r) => MoreArc(WithRef(s, r, s.refs[from]), s.refs[from].cell)
    case FromRaw(r) =>
      var cell := s.pool.entries[s.refs[r].id].cell;
      MoreArc(WithRef(s, r, Live(s.refs[r].id, cell)), cell)
    case CountDown(r) => AfterCountDown(s, r)
    case Release(r) => DropArc(WithoutRef(s, r), s.refs[r].cell)
    case IntoRaw(r, raw) => WithRef(WithRef(s, raw, Raw(s.refs[r].id)), r, Leaving(s.refs[r].cell))
    case TryUnwrap(r) => AfterTryUnwrap(s, r)
    case IntoInner(r) => AfterIntoInner(s, r)
  }

  // ----- Counting -----

  predicate Counts(ref: Ref, id: ObjectId) {
    (ref.Live? || ref.Raw?) && ref.id == id
  }

  predicate Owns(ref: Ref, cell: Cell) {
    !ref.Raw? && ref.cell == cell
  }

  function Counters(refs: map<Name, Ref>, id: ObjectId): set<Name> {
    set r | r in refs && Counts(refs[r], id)
  }

  function Owners(refs: map<Name, Ref>, cell: Cell): set<Name> {
    set r | r in refs && Owns(refs[r], cell)
  }

  lemma CountersAfterUpdate(refs: map<Name, Ref>, r: Name, ref: Ref, id: ObjectId)
    ensures |Counters(refs[r := ref], id)| == |Counters(refs, id)|
              - (if r in refs && Counts(refs[r], id) then 1 else 0) + (if Counts(ref, id) then 1 else 0)
  {
    var others := Counters(refs, id) - {r};
    assert Counters(refs[r := ref], id) == if Counts(ref, id) then others + {r} else others;
    assert Counters(refs, id) == if r in refs && Counts(refs[r], id) then others + {r} else others;
  }

  lemma OwnersAfterUpdate(refs: map<Name, Ref>, r: Name, ref: Ref, cell: Cell)
    ensures |Owners(refs[r := ref], cell)| == |Owners(refs, cell)|
              - (if r in refs && Owns(refs[r], cell) then 1 else 0) + (if Owns(ref, cell) then 1 else 0)
  {
    var others := Owners(refs, cell) - {r};
    assert Owners(refs[r := ref], cell) == if Owns(ref, cell) then others + {r} else others;
    assert Owners(refs, cell) == if r in refs && Owns(refs[r], cell) then others + {r} else others;
  }

  /** What replacing one reference does to the two counts of one object. */
  lemma AfterUpdate(refs: map<Name, Ref>, r: Name, ref: Ref, cell: Cell)
    ensures |Counters(refs[r := ref], IdAt(cell))| == |Counters(refs, IdAt(cell))|
              - (if r in refs && Counts(refs[r], IdAt(cell)) then 1 else 0) + (if Counts(ref, IdAt(cell)) then 1 else 0)
    ensures |Owners(refs[r := ref], cell)| == |Owners(refs, cell)|
              - (if r in refs && Owns(refs[r], cell) then 1 else 0) + (if Owns(ref, cell) then 1 else 0)
  {
    CountersAfterUpdate(refs, r, ref, IdAt(cell));
    OwnersAfterUpdate(refs, r, ref, cell);
  }

  lemma AfterRemoval(refs: map<Name, Ref>, r: Name, cell: Cell)
    ensures |Counters(refs - {r}, IdAt(cell))| == |Counters(refs, IdAt(cell))|
              - (if r in refs && Counts(refs[r], IdAt(cell)) then 1 else 0)
    ensures |Owners(refs - {r}, cell)| == |Owners(refs, cell)| - (if r in refs && Owns(refs[r], cell) then 1 else 0)
  {
    assert Counters(refs - {r}, IdAt(cell)) == Counters(refs, IdAt(cell)) - {r};
    assert Owners(refs - {r}, cell) == Owners(refs, cell) - {r};
  }

  lemma OnlyMember<T>(s: set<T>, x: T)
    requires x in s
    ensures |s| >= 1
    ensures |s| == 1 <==> s == {x}
  {
    assert s == (s - {x}) + {x};
  }

  // ----- The invariant -----

  predicate Pooled(s: State, cell: Cell) {
    IdAt(cell) in s.pool.entries && s.pool.entries[IdAt(cell)].cell == cell
  }

  /** Every pool entry sits under the id its object was given. */
  ghost predicate IdsFit(s: State) {
    && s.pool.nextId == IdAt(s.made)
    && (forall id :: id in s.pool.entries ==> s.pool.entries[id].cell < s.made && id == IdAt(s.pool.entries[id].cell))
    && (forall cell :: cell in s.strong ==> cell < s.made)
  }

  /** For a pooled object, the pool counts exactly its handles and raw ids. For an allocated one, the
      inner Arc counts its owners: handles, leaving handles and entries, and the pool. */
  ghost predicate ObjectFits(s: State, cell: Cell) {
    && (Pooled(s, cell) ==>
          s.pool.entries[IdAt(cell)].refCount == |Counters(s.refs, IdAt(cell))| >= 1 && cell in s.strong)
    && (cell in s.strong ==>
          s.strong[cell] == |Owners(s.refs, cell)| + (if Pooled(s, cell) then 1 else 0) >= 1)
    && (cell in s.destroyed ==> cell !in s.strong)
  }

  ghost predicate RefFits(s: State, r: Name)
    requires r in s.refs
  {
    && (match s.refs[r]
        case Live(id, cell) => id == IdAt(cell) && Pooled(s, cell)
        case Raw(id) => id in s.pool.entries
        case Leaving(cell) => cell in s.strong
        case Unwrapping(cell) => cell in s.strong && !Pooled(s, cell) && s.lock == Some(r))
    && (r.Entry? ==> s.refs[r] == Leaving(r.cell) && !Pooled(s, r.cell))
  }

  /** No value is destroyed twice. */
  ghost predicate DestroyedOnce(s: State) {
    && (forall i, j :: 0 <= i < j < |s.destroyed| ==> s.destroyed[i] != s.destroyed[j])
    && (forall i :: 0 <= i < |s.destroyed| ==> s.destroyed[i] < s.made)
  }

  ghost predicate Inv(s: State) {
    && IdsFit(s)
    && (forall cell: Cell :: cell < s.made ==> ObjectFits(s, cell))
    && (forall r :: r in s.refs ==> RefFits(s, r))
    && DestroyedOnce(s)
  }

  // ----- Every step keeps the invariant -----

  lemma NoneYet(s: State)
    requires Inv(s)
    ensures s.pool.nextId !in s.pool.entries ==> Counters(s.refs, s.pool.nextId) == {}
    ensures Owners(s.refs, s.made) == {}
  {
    forall r | r in s.refs
      ensures !Owns(s.refs[r], s.made)
      ensures s.pool.nextId !in s.pool.entries ==> !Counts(s.refs[r], s.pool.nextId)
    {
      assert RefFits(s, r);
    }
  }

  lemma NewKeepsInv(s: State, r: Name)
    requires Inv(s) && Enabled(s, New(r)) && s.pool.nextId !in s.pool.entries
    ensures Inv(AfterNew(s, r))
  {
    var s' := AfterNew(s, r);
    IdsCycle(s.made);
    NoneYet(s);
    forall cell: Cell | cell < s'.made
      ensures ObjectFits(s', cell)
    {
      assert cell < s.made ==> ObjectFits(s, cell);
      AfterUpdate(s.refs, r, Live(s.pool.nextId, s.made), cell);
    }
    forall x | x in s'.refs
      ensures RefFits(s', x)
    {
      assert x != r ==> RefFits(s, x);
    }
  }

  lemma CountUpKeepsInv(s: State, from: Name, r: Name)
    requires Inv(s) && Enabled(s, CountUp(from, r))
    ensures Inv(Next(s, CountUp(from, r)))
  {
    var s' := Next(s, CountUp(from, r));
    forall cell: Cell | cell < s'.made
      ensures ObjectFits(s', cell)
    {
      assert ObjectFits(s, cell);
      AfterUpdate(s.refs, r, Raw(s.refs[from].id), cell);
    }
    forall x | x in s'.refs
      ensures RefFits(s', x)
    {
      assert x != r ==> RefFits(s, x);
    }
  }

  /** A counted id turns into a handle, with an inner Arc of its own. */
  lemma BuildingKeepsInv(s: State, r: Name, id: ObjectId, cell: Cell)
    requires Inv(s) && r in s.refs && s.refs[r] == Raw(id)
    requires id in s.pool.entries && s.pool.entries[id].cell == cell && cell in s.strong
    ensures Inv(MoreArc(WithRef(s, r, Live(id, cell)), cell))
  {
    var s' := MoreArc(WithRef(s, r, Live(id, cell)), cell);
    assert RefFits(s, r);
    forall c: Cell | c < s'.made
      ensures ObjectFits(s', c)
    {
      assert ObjectFits(s, c);
      AfterUpdate(s.refs, r, Live(id, cell), c);
    }
    forall x | x in s'.refs
      ensures RefFits(s', x)
    {
      assert RefFits(s, x);
    }
  }

  lemma IntoRawKeepsInv(s: State, r: Name, raw: Name)
    requires Inv(s) && Enabled(s, IntoRaw(r, raw))
    ensures Inv(Next(s, IntoRaw(r, raw)))
  {
    var s' := Next(s, IntoRaw(r, raw));
    var id, cell := s.refs[r].id, s.refs[r].cell;
    assert RefFits(s, r) && ObjectFits(s, cell);
    forall c: Cell | c < s'.made
      ensures ObjectFits(s', c)
    {
      assert ObjectFits(s, c);
      AfterUpdate(s.refs, raw, Raw(id), c);
      AfterUpdate(s.refs[raw := Raw(id)], r, Leaving(cell), c);
    }
    forall x | x in s'.refs
      ensures RefFits(s', x)
    {
      assert x != raw ==> RefFits(s, x);
    }
  }

  /** An owner that stays keeps its inner Arc allocated when another one goes. */
  lemma OwnersRemain(s: State, r: Name, x: Name, cell: Cell)
    requires ObjectFits(s, cell) && cell in s.strong && !Pooled(s, cell)
    requires r in s.refs && x in s.refs && r != x && Owns(s.refs[r], cell) && Owns(s.refs[x], cell)
    ensures s.strong[cell] >= 2
  {
    OnlyMember(Owners(s.refs, cell), r);
    assert x in Owners(s.refs, cell);
  }

  /** Dropping the inner Arc of a reference whose count is already given back. */
  lemma ReleaseKeepsInv(s: State, r: Name)
    requires Inv(s) && Enabled(s, Release(r))
    ensures Inv(Next(s, Release(r)))
  {
    var s' := Next(s, Release(r));
    var cell := s.refs[r].cell;
    assert RefFits(s, r) && ObjectFits(s, cell);
    OnlyMember(Owners(s.refs, cell), r);
    forall c: Cell | c < s'.made
      ensures ObjectFits(s', c)
    {
      assert ObjectFits(s, c);
      AfterRemoval(s.refs, r, c);
    }
    forall x | x in s'.refs
      ensures RefFits(s', x)
    {
      assert RefFits(s, x);
      if Owns(s.refs[x], cell) && !Pooled(s, cell) {
        OwnersRemain(s, r, x, cell);
      }
    }
  }

  /** With the last count gone, nothing refers to the id any more. */
  lemma NobodyElseCounted(s: State, r: Name, x: Name)
    requires Inv(s) && Counted(s, r) && Counted(s, x) && s.refs[x].id == s.refs[r].id
    requires s.refs[r].id in s.pool.entries && s.pool.entries[s.refs[r].id].refCount == 1
    ensures x == r
  {
    var id := s.refs[r].id;
    assert ObjectFits(s, s.pool.entries[id].cell);
    assert x in Counters(s.refs, id);
    OnlyMember(Counters(s.refs, id), r);
  }

  /** The reference that gives back its count, and the pool entry if it goes with it. */
  function RefsAfterCountDown(s: State, r: Name, cell: Cell, last: bool): map<Name, Ref>
    requires Counted(s, r)
  {
    var rest := if s.refs[r].Live? then s.refs[r := Leaving(s.refs[r].cell)] else s.refs - {r};
    if last then rest[Entry(cell) := Leaving(cell)] else rest
  }

  lemma CountsAfterCountDown(s: State, r: Name, cell: Cell, last: bool, c: Cell)
    requires Inv(s) && Counted(s, r) && Pooled(s, cell) && s.refs[r].id == IdAt(cell)
    ensures var refs := RefsAfterCountDown(s, r, cell, last);
            && |Counters(refs, IdAt(c))| == |Counters(s.refs, IdAt(c))| - (if IdAt(c) == IdAt(cell) then 1 else 0)
            && |Owners(refs, c)| == |Owners(s.refs, c)| + (if last && c == cell then 1 else 0)
  {
    assert RefFits(s, r);
    var rest := if s.refs[r].Live? then s.refs[r := Leaving(s.refs[r].cell)] else s.refs - {r};
    if s.refs[r].Live? {
      AfterUpdate(s.refs, r, Leaving(s.refs[r].cell), c);
    } else {
      AfterRemoval(s.refs, r, c);
    }
    assert Entry(cell) in s.refs ==> RefFits(s, Entry(cell));
    assert Entry(cell) !in rest;
    AfterUpdate(rest, Entry(cell), Leaving(cell), c);
  }

  lemma CountDownKeepsInv(s: State, r: Name)
    requires Inv(s) && Enabled(s, CountDown(r))
    ensures Inv(AfterCountDown(s, r))
  {
    var s' := AfterCountDown(s, r);
    var id := s.refs[r].id;
    var cell, last := s.pool.entries[id].cell, s.pool.entries[id].refCount == 1;
    assert RefFits(s, r) && ObjectFits(s, cell);
    assert s'.refs == RefsAfterCountDown(s, r, cell, last);
    forall c: Cell | c < s'.made
      ensures ObjectFits(s', c)
    {
      assert ObjectFits(s, c);
      CountsAfterCountDown(s, r, cell, last, c);
      assert r in Counters(s.refs, id);
      OnlyMember(Counters(s.refs, id), r);
    }
    forall x | x in s'.refs
      ensures RefFits(s', x)
    {
      if x in s.refs {
        assert RefFits(s, x);
        if last && Counted(s, x) && s.refs[x].id == id {
          NobodyElseCounted(s, r, x);
        }
      }
    }
  }

  lemma TryUnwrapKeepsInv(s: State, r: Name)
    requires Inv(s) && Enabled(s, TryUnwrap(r))
    ensures Inv(AfterTryUnwrap(s, r))
    ensures AfterTryUnwrap(s, r).destroyed == s.destroyed
  {
    var s' := AfterTryUnwrap(s, r);
    var id, cell := s.refs[r].id, s.refs[r].cell;
    assert RefFits(s, r) && ObjectFits(s, cell);
    OnlyMember(Owners(s.refs, cell), r);
    if s.pool.entries[id].refCount == 1 {
      assert s'.refs == s.refs[r := Unwrapping(cell)];
      forall c: Cell | c < s'.made
        ensures ObjectFits(s', c)
      {
        assert ObjectFits(s, c);
        AfterUpdate(s.refs, r, Unwrapping(cell), c);
      }
      forall x | x in s'.refs
        ensures RefFits(s', x)
      {
        assert RefFits(s, x);
        if Counted(s, x) && s.refs[x].id == id {
          NobodyElseCounted(s, r, x);
        }
      }
    }
  }

  lemma IntoInnerKeepsInv(s: State, r: Name)
    requires Inv(s) && Enabled(s, IntoInner(r))
    ensures Inv(AfterIntoInner(s, r))
  {
    var s' := AfterIntoInner(s, r);
    var cell := s.refs[r].cell;
    assert RefFits(s, r) && ObjectFits(s, cell);
    OnlyMember(Owners(s.refs, cell), r);
    forall c: Cell | c < s'.made
      ensures ObjectFits(s', c)
    {
      assert ObjectFits(s, c);
      AfterRemoval(s.refs, r, c);
    }
    forall x | x in s'.refs
      ensures RefFits(s', x)
    {
      assert RefFits(s, x);
      if Owns(s.refs[x], cell) {
        OwnersRemain(s, r, x, cell);
      }
    }
  }

  /** `new` meets a taken id: its assertion panics, exactly when an object made a multiple of
      2147483600 allocations earlier is still pooled. */
  predicate Collides(s: State) {
    s.pool.nextId in s.pool.entries
  }

  lemma CollidesExactlyWhen(s: State)
    requires Inv(s)
    ensures Collides(s) <==> exists cell: Cell :: cell < s.made && Pooled(s, cell) && (s.made - cell) % MAX_ID == 0
  {
    if Collides(s) {
      var cell := s.pool.entries[s.pool.nextId].cell;
      IdsRepeatExactlyAfterACycle(cell, s.made);
      assert cell < s.made && Pooled(s, cell) && (s.made - cell) % MAX_ID == 0;
    }
    if cell: Cell :| cell < s.made && Pooled(s, cell) && (s.made - cell) % MAX_ID == 0 {
      IdsRepeatExactlyAfterACycle(cell, s.made);
    }
  }

  lemma StepKeepsInv(s: State, step: Step)
    requires Inv(s) && Enabled(s, step) && (step.New? ==> !Collides(s))
    ensures Inv(Next(s, step))
  {
    match step {
      case New(r) => NewKeepsInv(s, r);
      case CountUp(from, r) => CountUpKeepsInv(s, from, r);
      case Build(from, r) =>
        assert RefFits(s, from);
        BuildingKeepsInv(s, r, s.refs[from].id, s.refs[from].cell);
      case FromRaw(r) => BuildingKeepsInv(s, r, s.refs[r].id, s.pool.entries[s.refs[r].id].cell);
      case CountDown(r) => CountDownKeepsInv(s, r);
      case Release(r) => ReleaseKeepsInv(s, r);
      case IntoRaw(r, raw) => IntoRawKeepsInv(s, r, raw);
      case TryUnwrap(r) => TryUnwrapKeepsInv(s, r);
      case IntoInner(r) => IntoInnerKeepsInv(s, r);
    }
  }

  // ----- Runs -----

  ghost predicate Run(steps: seq<Step>, s: State) {
    if steps == [] then
      s == EMPTY
    else
      exists mid :: Run(AllButLast(steps), mid) && Leads(mid, Last(steps), s)
  }

  function AllButLast(steps: seq<Step>): seq<Step>
    requires steps != []
  {
    steps[..|steps| - 1]
  }

  function Last(steps: seq<Step>): Step
    requires steps != []
  {
    steps[|steps| - 1]
  }

  ghost predicate Leads(s: State, step: Step, s': State) {
    Enabled(s, step) && s' == Next(s, step)
  }

  lemma CollisionsAreOfNew(s: State, step: Step)
    requires Enabled(s, step)
    ensures Next(s, step).collided <==> s.collided || (step.New? && Collides(s))
  {}

  lemma EmptyInv()
    ensures Inv(EMPTY)
  {}

  /** In every state every interleaving reaches without reusing an id that is still taken. */
  lemma {:induction false} RunKeepsInv(steps: seq<Step>, s: State)
    requires Run(steps, s) && !s.collided
    ensures Inv(s)
    decreases |steps|
  {
    if steps == [] {
      EmptyInv();
    } else {
      var mid :| Run(AllButLast(steps), mid) && Leads(mid, Last(steps), s);
      CollisionsAreOfNew(mid, Last(steps));
      RunKeepsInv(AllButLast(steps), mid);
      StepKeepsInv(mid, Last(steps));
    }
  }

  lemma RunOneMore(steps: seq<Step>, s: State, step: Step)
    requires Run(steps, s) && Enabled(s, step)
    ensures Run(steps + [step], Next(s, step))
  {
    var more := steps + [step];
    assert AllButLast(more) == steps && Last(more) == step;
    assert Leads(s, Last(more), Next(s, step));
  }

  /** The pool's count of an object is the number of its handles and raw ids; each of them finds its
      object in the pool, with the value not destroyed. */
  lemma PoolCountsReferences(steps: seq<Step>, s: State, r: Name)
    requires Run(steps, s) && !s.collided && Counted(s, r)
    ensures s.refs[r].id in s.pool.entries
    ensures var value := s.pool.entries[s.refs[r].id];
            && value.refCount == |Counters(s.refs, s.refs[r].id)|
            && value.cell in s.strong && value.cell !in s.destroyed
            && (s.refs[r].Live? ==> s.refs[r].cell == value.cell)
  {
    RunKeepsInv(steps, s);
    assert RefFits(s, r);
    var cell := s.pool.entries[s.refs[r].id].cell;
    assert ObjectFits(s, cell);
  }

  /** Once all handles, raw ids and drops under way are gone, the pool is empty and so is the heap. */
  lemma NothingIsLeaked(steps: seq<Step>, s: State)
    requires Run(steps, s) && !s.collided && s.refs == map[]
    ensures s.pool.entries == map[] && s.strong == map[]
  {
    RunKeepsInv(steps, s);
    assert forall id: ObjectId :: Counters(s.refs, id) == {};
    assert forall cell: Cell :: Owners(s.refs, cell) == {};
    forall cell: Cell | cell < s.made ensures !Pooled(s, cell) && cell !in s.strong {
      assert ObjectFits(s, cell) && Counters(s.refs, IdAt(cell)) == {} && Owners(s.refs, cell) == {};
    }
    assert forall id :: id in s.pool.entries ==> Pooled(s, s.pool.entries[id].cell);
  }

  /** The second half of `try_unwrap` succeeds exactly when no other handle, and no removed entry, of
      the same object has given back its count but not yet its inner Arc. */
  lemma UnwrapSucceedsExactlyWhen(s: State, r: Name)
    requires Inv(s) && Enabled(s, IntoInner(r))
    ensures Next(s, IntoInner(r)).poisoned <==>
              s.poisoned || exists x :: x in s.refs && s.refs[x] == Leaving(s.refs[r].cell)
  {
    var cell := s.refs[r].cell;
    assert RefFits(s, r) && ObjectFits(s, cell);
    OnlyMember(Owners(s.refs, cell), r);
    if s.strong[cell] == 1 {
      assert forall x :: x in s.refs && s.refs[x] == Leaving(cell) ==> x in Owners(s.refs, cell);
    } else {
      var x :| x in Owners(s.refs, cell) && x != r;
      assert RefFits(s, x);
    }
  }

  /** A value is destroyed only when an inner Arc is released, outside every lock-held region, and exactly
      when that Arc was the last: nothing else owns it and the object is not pooled. The one exception is
      a `new` that meets a taken id: it destroys the replaced value, under the lock, exactly when nobody
      else owned it. */
  lemma DestroyedExactlyByLastRelease(s: State, step: Step)
    requires Inv(s) && Enabled(s, step)
    ensures !step.Release? && !(step.New? && Collides(s)) ==> Next(s, step).destroyed == s.destroyed
    ensures step.Release? ==>
              var cell := s.refs[step.r].cell;
              if !Pooled(s, cell) && Owners(s.refs, cell) == {step.r}
              then Next(s, step).destroyed == s.destroyed + [cell]
              else Next(s, step).destroyed == s.destroyed
    ensures step.New? && Collides(s) ==>
              var cell := s.pool.entries[s.pool.nextId].cell;
              if Owners(s.refs, cell) == {}
              then Next(s, step).destroyed == s.destroyed + [cell]
              else Next(s, step).destroyed == s.destroyed
  {
    if step.TryUnwrap? {
      TryUnwrapKeepsInv(s, step.r);
    } else if step.Release? {
      assert RefFits(s, step.r) && ObjectFits(s, s.refs[step.r].cell);
      OnlyMember(Owners(s.refs, s.refs[step.r].cell), step.r);
    } else if step.New? && Collides(s) {
      CollisionDestroys(s, step.r);
    }
  }

  lemma CollisionDestroys(s: State, r: Name)
    requires Inv(s) && Enabled(s, New(r)) && Collides(s)
    ensures var cell := s.pool.entries[s.pool.nextId].cell;
            AfterNew(s, r).destroyed == if Owners(s.refs, cell) == {} then s.destroyed + [cell] else s.destroyed
  {
    var cell := s.pool.entries[s.pool.nextId].cell;
    assert ObjectFits(s, cell) && Pooled(s, cell);
    assert cell != s.made;
    assert Owners(s.refs, cell) == {} <==> |Owners(s.refs, cell)| == 0;
  }

  ghost predicate Reachable(s: State) {
    exists steps :: Run(steps, s)
  }

  lemma ReachOneMore(s: State, step: Step)
    requires Reachable(s) && Enabled(s, step)
    ensures Reachable(Next(s, step))
  {
    var steps :| Run(steps, s);
    RunOneMore(steps, s, step);
  }

  /** One object, under id 1, with these references and counts. */
  function OneObject(refs: map<Name, Ref>, count: int, arcs: nat): State {
    State(Pool(map[1 := PoolValue(count, 0)], 2), 1, map[0 := arcs], refs, [], None, false, false)
  }

  lemma Made(a: Name)
    requires a.Name?
    ensures Reachable(OneObject(map[a := Live(1, 0)], 1, 2))
  {
    assert Run([], EMPTY);
    ReachOneMore(EMPTY, New(a));
    assert Next(EMPTY, New(a)) == OneObject(map[a := Live(1, 0)], 1, 2);
  }

  lemma CountedUp(a: Name, b: Name)
    requires a.Name? && b.Name? && a != b
    ensures Reachable(OneObject(map[a := Live(1, 0), b := Raw(1)], 2, 2))
  {
    Made(a);
    var s := OneObject(map[a := Live(1, 0)], 1, 2);
    ReachOneMore(s, CountUp(a, b));
    assert Next(s, CountUp(a, b)) == OneObject(map[a := Live(1, 0), b := Raw(1)], 2, 2);
  }

  lemma Cloned(a: Name, b: Name)
    requires a.Name? && b.Name? && a != b
    ensures Reachable(OneObject(map[a := Live(1, 0), b := Live(1, 0)], 2, 3))
  {
    CountedUp(a, b);
    var s := OneObject(map[a := Live(1, 0), b := Raw(1)], 2, 2);
    ReachOneMore(s, Build(a, b));
    assert Next(s, Build(a, b)) == OneObject(map[a := Live(1, 0), b := Live(1, 0)], 2, 3);
  }

  lemma HalfDropped(a: Name, b: Name)
    requires a.Name? && b.Name? && a != b
    ensures Reachable(OneObject(map[a := Live(1, 0), b := Leaving(0)], 1, 3))
  {
    Cloned(a, b);
    var s := OneObject(map[a := Live(1, 0), b := Live(1, 0)], 2, 3);
    ReachOneMore(s, CountDown(b));
    assert Next(s, CountDown(b)) == OneObject(map[a := Live(1, 0), b := Leaving(0)], 1, 3);
  }

  /** One thread clones a handle and drops the clone; another one unwraps the original in between the
      two halves of that drop. Its `unwrap` panics, although the pool's count was one. */
  lemma UnwrapCanPanic()
    ensures exists steps, s :: Run(steps, s) && s.poisoned && !s.collided
  {
    var a, b := Name(0), Name(1);
    HalfDropped(a, b);
    var s := OneObject(map[a := Live(1, 0), b := Leaving(0)], 1, 3);
    ReachOneMore(s, TryUnwrap(a));
    var t := Next(s, TryUnwrap(a));
    assert t.strong[0] == 2;
    ReachOneMore(t, IntoInner(a));
    assert Next(t, IntoInner(a)).poisoned;
  }

  // ----- A value destroyed under the lock -----

  /** One object is left with a raw id only; n objects have been made, the others are gone again. */
  function Lingering(n: nat, gone: seq<Cell>): State {
    State(Pool(map[1 := PoolValue(1, 0)], IdAt(n)), n, map[0 := 1], map[Name(0) := Raw(1)], gone, None, false, false)
  }

  lemma RawLeft()
    ensures var s := OneObject(map[Name(1) := Live(1, 0)], 1, 2);
            var t := OneObject(map[Name(1) := Leaving(0), Name(0) := Raw(1)], 1, 2);
            && Enabled(s, IntoRaw(Name(1), Name(0))) && Next(s, IntoRaw(Name(1), Name(0))) == t
            && Enabled(t, Release(Name(1))) && Next(t, Release(Name(1))) == Lingering(1, [])
  {
    var s := OneObject(map[Name(1) := Live(1, 0)], 1, 2);
    var t := OneObject(map[Name(1) := Leaving(0), Name(0) := Raw(1)], 1, 2);
    assert s.refs[Name(0) := Raw(1)][Name(1) := Leaving(0)] == t.refs;
    assert t.refs - {Name(1)} == map[Name(0) := Raw(1)] && t.strong[0 := 1] == map[0 := 1];
  }

  lemma LingeringReachable()
    ensures Reachable(Lingering(1, []))
  {
    RawLeft();
    Made(Name(1));
    ReachOneMore(OneObject(map[Name(1) := Live(1, 0)], 1, 2), IntoRaw(Name(1), Name(0)));
    ReachOneMore(OneObject(map[Name(1) := Leaving(0), Name(0) := Raw(1)], 1, 2), Release(Name(1)));
  }

  /** The same with one more object, whose other references and inner count are given. */
  function WithOneMore(n: nat, gone: seq<Cell>, pooled: bool, refs: map<Name, Ref>, arcs: nat): State {
    var entries := map[1 := PoolValue(1, 0)];
    State(Pool(if pooled then entries[IdAt(n) := PoolValue(1, n)] else entries, IdAt(n + 1)), n + 1,
          map[0 := 1][n := arcs], map[Name(0) := Raw(1)] + refs, gone, None, false, false)
  }

  lemma OneMoreMade(n: nat, gone: seq<Cell>)
    requires 0 < n < MAX_ID
    ensures Enabled(Lingering(n, gone), New(Name(1)))
    ensures Next(Lingering(n, gone), New(Name(1))) == WithOneMore(n, gone, true, map[Name(1) := Live(IdAt(n), n)], 2)
  {
    var s := Lingering(n, gone);
    IdsCycle(n);
    assert !Collides(s);
    assert s.strong[n := 2] == map[0 := 1][n := 2];
    assert s.refs[Name(1) := Live(IdAt(n), n)] == map[Name(0) := Raw(1)] + map[Name(1) := Live(IdAt(n), n)];
  }

  lemma OneMoreCountedDown(n: nat, gone: seq<Cell>)
    requires 0 < n < MAX_ID
    ensures var s := WithOneMore(n, gone, true, map[Name(1) := Live(IdAt(n), n)], 2);
            Enabled(s, CountDown(Name(1))) &&
            Next(s, CountDown(Name(1))) == WithOneMore(n, gone, false, map[Name(1) := Leaving(n), Entry(n) := Leaving(n)], 2)
  {
    var s := WithOneMore(n, gone, true, map[Name(1) := Live(IdAt(n), n)], 2);
    var id := IdAt(n);
    assert id != 1 && s.refs[Name(1)] == Live(id, n);
    assert s.pool.entries - {id} == map[1 := PoolValue(1, 0)];
    assert Decrement(s.pool, id) == Option.Some((Pool(map[1 := PoolValue(1, 0)], IdAt(n + 1)), Option.Some(PoolValue(0, n))));
    assert s.refs[Name(1) := Leaving(n)][Entry(n) := Leaving(n)]
           == map[Name(0) := Raw(1)] + map[Name(1) := Leaving(n), Entry(n) := Leaving(n)];
  }

  lemma OneMoreReleased(n: nat, gone: seq<Cell>)
    requires 0 < n
    ensures var s := WithOneMore(n, gone, false, map[Name(1) := Leaving(n), Entry(n) := Leaving(n)], 2);
            var t := WithOneMore(n, gone, false, map[Name(1) := Leaving(n)], 1);
            && Enabled(s, Release(Entry(n))) && Next(s, Release(Entry(n))) == t
            && Enabled(t, Release(Name(1))) && Next(t, Release(Name(1))) == Lingering(n + 1, gone + [n])
  {
    var s := WithOneMore(n, gone, false, map[Name(1) := Leaving(n), Entry(n) := Leaving(n)], 2);
    var t := WithOneMore(n, gone, false, map[Name(1) := Leaving(n)], 1);
    assert s.refs - {Entry(n)} == t.refs && s.strong[n := 1] == t.strong;
    assert t.refs - {Name(1)} == map[Name(0) := Raw(1)] && t.strong - {n} == map[0 := 1];
  }

  lemma MadeAndDropped(n: nat, gone: seq<Cell>)
    requires 0 < n < MAX_ID && Reachable(Lingering(n, gone))
    ensures Reachable(Lingering(n + 1, gone + [n]))
  {
    OneMoreMade(n, gone);
    ReachOneMore(Lingering(n, gone), New(Name(1)));
    OneMoreCountedDown(n, gone);
    ReachOneMore(WithOneMore(n, gone, true, map[Name(1) := Live(IdAt(n), n)], 2), CountDown(Name(1)));
    OneMoreReleased(n, gone);
    ReachOneMore(WithOneMore(n, gone, false, map[Name(1) := Leaving(n), Entry(n) := Leaving(n)], 2), Release(Entry(n)));
    ReachOneMore(WithOneMore(n, gone, false, map[Name(1) := Leaving(n)], 1), Release(Name(1)));
  }

  lemma {:induction false} ManyMadeAndDropped(n: nat) returns (gone: seq<Cell>)
    requires 0 < n <= MAX_ID
    ensures Reachable(Lingering(n, gone))
  {
    if n == 1 {
      gone := [];
      LingeringReachable();
    } else {
      var before := ManyMadeAndDropped(n - 1);
      gone := before + [n - 1];
      MadeAndDropped(n - 1, before);
    }
  }

  /** An object held by a raw id alone is still there when its id comes round again: the `new` that
      panics destroys its value while it holds the pool lock. */
  lemma CollisionCanDestroyUnderLock() returns (s: State, step: Step)
    ensures Reachable(s) && !s.collided && Enabled(s, step) && step.New? && Collides(s)
    ensures Next(s, step).destroyed == s.destroyed + [0]
  {
    var gone := ManyMadeAndDropped(MAX_ID);
    s, step := Lingering(MAX_ID, gone), New(Name(1));
    IdsRepeatExactlyAfterACycle(0, MAX_ID);
  }
}
